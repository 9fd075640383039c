/** Number conversions of the kernel library: itoa, strrev and printf's numeric
    conversions, against reading a numeral back as a value. */
module Numbers {
  import opened Bytes
  import opened Memory

  const LOOKUP := "0123456789ABCDEFGHIJKLMNOPQRSTUVWXYZ"
  const ZERO: byte := 48
  const MINUS: byte := 45

  // ---- Numerals and their values -----------------------------------------------

  function Digit(d: nat): (c: byte)
    requires d < 36
    ensures c != NUL && c != MINUS
    ensures DigitValue(c) == d
  {
    assert LOOKUP[d] as int == if d < 10 then 48 + d else 55 + d;
    LOOKUP[d] as int
  }

  /** What a digit stands for; 36 for every other character. */
  function DigitValue(c: byte): (d: nat)
    ensures d <= 36
  {
    if 48 <= c < 58 then c - 48 else if 65 <= c < 91 then c - 55 else 36
  }

  lemma DigitsAgree(d: nat, c: byte)
    ensures d < 36 ==> DigitValue(Digit(d)) == d
    ensures DigitValue(c) < 36 ==> Digit(DigitValue(c)) == c
    ensures DigitValue(c) == 0 <==> c == ZERO
    ensures d < 36 && Digit(d) == ZERO ==> d == 0
  {
    if DigitValue(c) < 36 {
      var e := Digit(DigitValue(c));
      hide Digit;
      assert DigitValue(e) == DigitValue(c);
    }
  }

  /** Only digits of the radix. */
  predicate AllDigits(s: seq<byte>, radix: nat) {
    forall i :: 0 <= i < |s| ==> DigitValue(s[i]) < radix
  }

  /** The value of a number with one more digit written after it. */
  function Place(q: nat, d: nat, radix: nat): nat {
    q * radix + d
  }

  /** A number without its last digit. */
  function Quotient(value: nat, radix: nat): (q: nat)
    requires radix >= 2
    ensures value > 0 ==> q < value
  {
    QuotientSmaller(value, radix);
    value / radix
  }

  lemma QuotientSmaller(value: nat, radix: nat)
    requires radix >= 2
    ensures value > 0 ==> value / radix < value
  {
    var q := value / radix;
    assert q * radix >= q * 2;
  }

  function LastDigit(value: nat, radix: nat): (d: nat)
    requires radix >= 2
    ensures d < radix
  {
    value % radix
  }

  lemma PlaceOfQuotient(value: nat, radix: nat)
    requires radix >= 2
    ensures Place(Quotient(value, radix), LastDigit(value, radix), radix) == value
    ensures Quotient(value, radix) == 0 ==> LastDigit(value, radix) == value
  {
  }

  lemma PlacesDiffer(q: nat, d: nat, p: nat, e: nat, radix: nat)
    requires d < radix && e < radix
    ensures Place(q, d, radix) == Place(p, e, radix) <==> q == p && d == e
  {
    var delta: int := q - p;
    assert delta * radix == q * radix - p * radix;
    assert delta > 0 ==> delta * radix >= radix;
    assert delta < 0 ==> delta * radix + radix <= 0;
  }

  lemma QuotientOfPlace(q: nat, d: nat, radix: nat)
    requires d < radix && radix >= 2
    ensures Quotient(Place(q, d, radix), radix) == q && LastDigit(Place(q, d, radix), radix) == d
    ensures Place(q, d, radix) == 0 <==> q == d == 0
  {
    var v := Place(q, d, radix);
    PlaceOfQuotient(v, radix);
    PlacesDiffer(q, d, Quotient(v, radix), LastDigit(v, radix), radix);
    PlacesDiffer(q, d, 0, 0, radix);
    assert Place(0, 0, radix) == 0;
  }

  /** The value read from a string of digits, most significant first. */
  function Parse(s: seq<byte>, radix: nat): nat {
    if s == [] then 0 else Place(Parse(s[..|s| - 1], radix), DigitValue(s[|s| - 1]), radix)
  }

  /** A numeral as it should be printed: digits only, at least one, no leading zero. */
  predicate Canonical(s: seq<byte>, radix: nat) {
    s != [] && AllDigits(s, radix) && (s[0] == ZERO ==> s == [ZERO])
  }

  /** The digits of a positive number, most significant first; none for zero. */
  function Positional(value: nat, radix: nat): seq<byte>
    requires 2 <= radix <= 36
  {
    if value == 0 then [] else Positional(Quotient(value, radix), radix) + [Digit(LastDigit(value, radix))]
  }

  function Numeral(value: nat, radix: nat): seq<byte>
    requires 2 <= radix <= 36
  {
    if value == 0 then [ZERO] else Positional(value, radix)
  }

  lemma AppendDigit(s: seq<byte>, c: byte, radix: nat)
    ensures Parse(s + [c], radix) == Place(Parse(s, radix), DigitValue(c), radix)
    ensures AllDigits(s + [c], radix) <==> AllDigits(s, radix) && DigitValue(c) < radix
  {
    var t := s + [c];
    assert t[..|t| - 1] == s && t[|s|] == c;
    assert forall i :: 0 <= i < |s| ==> t[i] == s[i];
  }

  lemma {:induction false} PositionalParses(value: nat, radix: nat)
    requires 2 <= radix <= 36
    ensures AllDigits(Positional(value, radix), radix)
    ensures Parse(Positional(value, radix), radix) == value
    ensures value > 0 ==> Positional(value, radix) != [] && Positional(value, radix)[0] != ZERO
  {
    assert Parse([], radix) == 0;
    if value > 0 {
      hide Quotient, LastDigit, Place, Digit, DigitValue;
      var q, d := Quotient(value, radix), LastDigit(value, radix);
      PositionalParses(q, radix);
      PlaceOfQuotient(value, radix);
      DigitsAgree(d, ZERO);
      AppendDigit(Positional(q, radix), Digit(d), radix);
    }
  }

  lemma {:induction false} ParsePositional(s: seq<byte>, radix: nat)
    requires 2 <= radix <= 36 && AllDigits(s, radix) && (s != [] ==> s[0] != ZERO)
    ensures s != [] ==> Parse(s, radix) > 0
    ensures Positional(Parse(s, radix), radix) == s
  {
    hide Quotient, LastDigit, Place, Digit, DigitValue;
    if s != [] {
      var front, c := s[..|s| - 1], s[|s| - 1];
      assert DigitValue(c) < radix;
      ParsePositional(front, radix);
      QuotientOfPlace(Parse(front, radix), DigitValue(c), radix);
      DigitsAgree(0, c);
      if front == [] {
        assert c == s[0];
      }
      assert s == front + [c];
    }
  }

  /** The printed form is the one canonical numeral that reads back as the value:
      reading it gives the value, and nothing else canonical does. */
  lemma NumeralIsCanonical(value: nat, radix: nat, s: seq<byte>)
    requires 2 <= radix <= 36
    ensures Canonical(s, radix) && Parse(s, radix) == value <==> s == Numeral(value, radix)
  {
    hide Digit, DigitValue;
    PositionalParses(value, radix);
    DigitsAgree(0, ZERO);
    assert Parse([ZERO], radix) == 0 by {
      assert [ZERO][..0] == [];
      assert Parse([], radix) == 0;
      assert Place(0, 0, radix) == 0;
    }
    if Canonical(s, radix) && s != [ZERO] {
      ParsePositional(s, radix);
    }
  }

  function Power(radix: nat, n: nat): nat {
    if n == 0 then 1 else radix * Power(radix, n - 1)
  }

  lemma QuotientOfPower(value: nat, radix: nat, n: nat)
    requires radix >= 2 && value < Power(radix, n)
    ensures value > 0 ==> n > 0 && Quotient(value, radix) < Power(radix, n - 1)
  {
    if value > 0 {
      var p, q := Power(radix, n - 1), value / radix;
      if q >= p {
        assert q * radix >= p * radix;
      }
    }
  }

  lemma {:induction false} PositionalLength(value: nat, radix: nat, n: nat)
    requires 2 <= radix <= 36 && value < Power(radix, n)
    ensures |Positional(value, radix)| <= n
  {
    if value > 0 {
      QuotientOfPower(value, radix, n);
      hide Quotient, LastDigit, Power, Digit;
      PositionalLength(Quotient(value, radix), radix, n - 1);
    }
  }

  lemma {:induction false} PowerGrows(radix: nat, n: nat)
    requires radix >= 2
    ensures Power(radix, n) >= Power(2, n) > 0
  {
    if n > 0 {
      PowerGrows(radix, n - 1);
      assert radix * Power(radix, n - 1) >= 2 * Power(radix, n - 1);
    }
  }

  lemma {:induction false} PowerDoubles(n: nat)
    ensures Power(2, 2 * n) == Power(2, n) * Power(2, n)
  {
    if n > 0 {
      PowerDoubles(n - 1);
      var p := Power(2, n - 1);
      assert Power(2, 2 * n - 1) == 2 * Power(2, 2 * n - 2);
      assert Power(2, 2 * n) == 4 * (p * p);
    }
  }

  lemma TwoTo32()
    ensures Power(2, 32) == TWO_TO_THE_32 && Power(16, 8) == TWO_TO_THE_32
  {
    assert Power(2, 8) == 256;
    PowerDoubles(8);
    PowerDoubles(16);
    assert Power(16, 4) == 65536;
  }

  /** A 32-bit value needs at most 32 digits in any radix, and 8 in radix 16. */
  lemma NumeralLength(value: nat, radix: nat)
    requires 2 <= radix <= 36 && value < TWO_TO_THE_32
    ensures 1 <= |Numeral(value, radix)| <= 32
    ensures radix == 16 ==> |Numeral(value, radix)| <= 8
  {
    TwoTo32();
    PowerGrows(radix, 32);
    PositionalLength(value, radix, 32);
    if radix == 16 {
      PositionalLength(value, 16, 8);
    }
  }

  // ---- The conversions -------------------------------------------------------------

  function Reversed(s: seq<byte>): (r: seq<byte>)
    ensures |r| == |s|
  {
    seq(|s|, i requires 0 <= i < |s| => s[|s| - 1 - i])
  }

  /** strrev: swaps from both ends of the string `str` at `at`, in place. */
  method Strrev(s: array<byte>, at: nat, ghost str: seq<byte>)
    requires IsCString(s[..], at, str)
    modifies s
    ensures s[..] == Stored(old(s[..]), at, Reversed(str))
  {
    var len := Strlen(s, at, str);
    var beg, end: int := 0, len - 1;
    while beg < end
      invariant 0 <= beg <= len && end == len - 1 - beg
      invariant forall k :: at <= k < at + len ==>
        s[k] == if beg <= k - at <= end then str[k - at] else Reversed(str)[k - at]
      invariant forall k :: 0 <= k < s.Length && !(at <= k < at + len) ==> s[k] == old(s[k])
    {
      s[at + end], s[at + beg] := s[at + beg], s[at + end];
      beg, end := beg + 1, end - 1;
    }
    StoredPointwise(old(s[..]), s[..], at, Reversed(str));
  }

  /** itoa, into the buffer from index `at`: digits from the lowest place up,
      then reversed in place. */
  method Itoa(value: nat, buf: array<byte>, at: nat, radix: nat)
    requires 2 <= radix <= 36
    requires at + |Numeral(value, radix)| < buf.Length
    modifies buf
    ensures buf[..] == Stored(old(buf[..]), at, Numeral(value, radix) + [NUL])
  {
    if value == 0 {
      buf[at], buf[at + 1] := ZERO, NUL;
      return;
    }
    ghost var written := LowestFirst(value, buf, at, radix);
    ghost var before := buf[..];
    StoredReads(old(buf[..]), before, at, written + [NUL]);
    Strrev(buf, at, written);
    StoredReads(before, buf[..], at, Reversed(written));
    StoredPointwise(old(buf[..]), buf[..], at, Reversed(written) + [NUL]);
  }

  /** The loop of itoa: one digit a round, from the lowest place up. */
  method LowestFirst(value: nat, buf: array<byte>, at: nat, radix: nat) returns (ghost written: seq<byte>)
    requires 2 <= radix <= 36
    requires at + |Positional(value, radix)| < buf.Length
    modifies buf
    ensures NUL !in written && Reversed(written) == Positional(value, radix)
    ensures buf[..] == Stored(old(buf[..]), at, written + [NUL])
  {
    var newval, newbuf := value, at;
    written := [];
    while newval > 0
      invariant newbuf == at + |written| && NUL !in written
      invariant Positional(value, radix) == Positional(newval, radix) + Reversed(written)
      invariant forall k :: at <= k < newbuf ==> buf[k] == written[k - at]
      invariant forall k :: 0 <= k < buf.Length && !(at <= k < newbuf) ==> buf[k] == old(buf[k])
    {
      hide Digit, Quotient, LastDigit;
      var i := LastDigit(newval, radix);
      buf[newbuf] := Digit(i);
      assert Reversed(written + [Digit(i)]) == [Digit(i)] + Reversed(written);
      written := written + [Digit(i)];
      newbuf := newbuf + 1;
      newval := Quotient(newval, radix);
    }
    buf[newbuf] := NUL;
    StoredPointwise(old(buf[..]), buf[..], at, written + [NUL]);
  }

  /** puts: the characters handed to putc. */
  method Puts(s: array<byte>, at: nat, ghost str: seq<byte>) returns (out: seq<byte>)
    requires IsCString(s[..], at, str)
    ensures out == str
  {
    out := [];
    CStringScan(s[..], at, str, 0);
    while s[at + |out|] != NUL
      invariant |out| <= |str| && out == str[..|out|]
      invariant s[at + |out|] == NUL <==> |out| == |str|
      decreases |str| - |out|
    {
      out := out + [s[at + |out|]];
      CStringScan(s[..], at, str, |out|);
    }
  }

  /** %x and %u: the plain numeral. */
  method PutNumber(value: nat, radix: nat) returns (out: seq<byte>)
    requires value < TWO_TO_THE_32 && (radix == 10 || radix == 16)
    ensures Canonical(out, radix) && Parse(out, radix) == value
  {
    var convBuf := new byte[if radix == 16 then 64 else 36];
    NumeralLength(value, radix);
    out := PutConverted(value, convBuf, 0, radix, []);
    NumeralIsCanonical(value, radix, out);
  }

  /** The numeral put after a prefix that is already in the buffer. */
  method PutConverted(value: nat, convBuf: array<byte>, at: nat, radix: nat, ghost prefix: seq<byte>)
    returns (out: seq<byte>)
    requires 2 <= radix <= 36 && at + |Numeral(value, radix)| < convBuf.Length
    requires at == |prefix| && NUL !in prefix && convBuf[..at] == prefix
    modifies convBuf
    ensures out == prefix + Numeral(value, radix)
  {
    Itoa(value, convBuf, at, radix);
    ghost var digits := Numeral(value, radix);
    NumeralIsCanonical(value, radix, digits);
    out := Puts(convBuf, 0, prefix + digits);
  }

  /** %d: a minus sign and the negated value, as a 32-bit unsigned number, or the
      value itself. Negation wraps, so the least 32-bit integer is its own. */
  method PutSigned(value: int) returns (out: seq<byte>)
    requires -TWO_TO_THE_32 / 2 <= value < TWO_TO_THE_32 / 2
    ensures ParseSigned(out) == value
    ensures if value < 0 then out[0] == MINUS && Canonical(out[1..], 10) else Canonical(out, 10)
  {
    var convBuf := new byte[36];
    if value < 0 {
      convBuf[0] := MINUS;
      var negated := Unsigned(Negated(value));
      NumeralLength(negated, 10);
      NumeralIsCanonical(negated, 10, Numeral(negated, 10));
      out := PutConverted(negated, convBuf, 1, 10, [MINUS]);
      assert out[0] == MINUS && out[1..] == Numeral(negated, 10);
    } else {
      NumeralLength(value, 10);
      NumeralIsCanonical(value, 10, Numeral(value, 10));
      out := PutConverted(value, convBuf, 0, 10, []);
      assert out == Numeral(value, 10) && DigitValue(out[0]) < 10;
    }
  }

  /** Negation of a 32-bit integer in two's complement. */
  function Negated(value: int): int {
    if value == -TWO_TO_THE_32 / 2 then value else -value
  }

  /** A 32-bit integer passed as an unsigned one. */
  function Unsigned(value: int): nat
    requires -TWO_TO_THE_32 <= value
  {
    if value < 0 then value + TWO_TO_THE_32 else value
  }

  function ParseSigned(s: seq<byte>): int {
    if s != [] && s[0] == MINUS then 0 as int - Parse(s[1..], 10) else Parse(s, 10)
  }

  /** %#x: the digits go to the middle of the buffer, and the zeros that make up
      eight go in front of them, starting at the index equal to their number. */
  method PutPaddedHex(value: nat) returns (out: seq<byte>)
    requires value < TWO_TO_THE_32
    ensures |out| == 8 && AllDigits(out, 16) && Parse(out, 16) == value
  {
    var convBuf := new byte[64];
    ghost var digits := Numeral(value, 16);
    NumeralLength(value, 16);
    HexDigits(value, 8 - |digits|);
    Itoa(value, convBuf, 8, 16);
    out := PutPadded(convBuf, digits);
  }

  /** The zeros of %#x are written in front of the converted number. */
  method PutPadded(convBuf: array<byte>, ghost digits: seq<byte>) returns (out: seq<byte>)
    requires |digits| <= 8 && IsCString(convBuf[..], 8, digits)
    modifies convBuf
    ensures out == Zeros(8 - |digits|) + digits
  {
    var startingIndex := Strlen(convBuf, 8, digits);
    var i := startingIndex;
    while i < 8
      invariant startingIndex <= i <= 8
      invariant IsCString(convBuf[..], 8, digits)
      invariant forall k :: startingIndex <= k < i ==> convBuf[k] == ZERO
    {
      convBuf[i] := ZERO;
      i := i + 1;
    }
    PaddedString(convBuf[..], startingIndex, digits);
    out := Puts(convBuf, startingIndex, Zeros(8 - startingIndex) + digits);
  }

  lemma HexDigits(value: nat, zeros: nat)
    ensures NUL !in Numeral(value, 16)
    ensures AllDigits(Zeros(zeros) + Numeral(value, 16), 16)
    ensures Parse(Zeros(zeros) + Numeral(value, 16), 16) == value
  {
    NumeralIsCanonical(value, 16, Numeral(value, 16));
    ZerosParse(zeros, Numeral(value, 16), 16);
  }

  function Zeros(n: nat): (r: seq<byte>)
    ensures |r| == n
  {
    seq(n, _ => ZERO)
  }

  lemma PaddedString(m: seq<byte>, from: nat, digits: seq<byte>)
    requires from <= 8 && IsCString(m, 8, digits)
    requires forall k :: from <= k < 8 ==> m[k] == ZERO
    ensures IsCString(m, from, Zeros(8 - from) + digits)
  {
    var padded := Zeros(8 - from) + digits;
    forall k | from <= k < from + |padded| ensures m[k] == padded[k - from] {
      if k >= 8 {
        CStringScan(m, 8, digits, k - 8);
      }
    }
  }

  /** Zeros in front of a numeral do not change its value. */
  lemma {:induction false} ZerosParse(n: nat, s: seq<byte>, radix: nat)
    requires radix > 0
    ensures Parse(Zeros(n) + s, radix) == Parse(s, radix)
    ensures AllDigits(Zeros(n) + s, radix) <==> AllDigits(s, radix)
    decreases |s| + n
  {
    if s != [] {
      var front, c := s[..|s| - 1], s[|s| - 1];
      assert s == front + [c];
      ZerosParse(n, front, radix);
      AppendDigit(Zeros(n) + front, c, radix);
      AppendDigit(front, c, radix);
      assert Zeros(n) + s == (Zeros(n) + front) + [c];
    } else if n > 0 {
      ZerosParse(n - 1, s, radix);
      AppendDigit(Zeros(n - 1) + s, ZERO, radix);
      assert Zeros(n) + s == (Zeros(n - 1) + s) + [ZERO];
    }
  }
}
