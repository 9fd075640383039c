/** What a newline left over in the byte after grep's buffer does: the first full
    buffer that ends in a partial line reports it as it stands, instead of
    shifting it down. */
module Cuts {
  import opened Prelude
  import opened Bytes
  import opened Lines

  /** Where the first full buffer that does not end in a newline ends; the whole
      length if there is none. Until then every buffer ends with a line. */
  ghost function FirstCut(text: seq<byte>): (n: nat)
    ensures n <= |text|
    ensures n < |text| ==> n >= BUFSIZE && text[n - 1] != NEWLINE
    decreases |text|
  {
    if |text| < BUFSIZE then |text|
    else if text[BUFSIZE - 1] != NEWLINE then BUFSIZE
    else BUFSIZE + FirstCut(text[BUFSIZE..])
  }

  /** It is the end of a buffer, and all earlier buffers end in a newline. */
  lemma {:induction false} FirstCutSpec(text: seq<byte>, c: nat)
    requires c > 0 && BUFSIZE * c <= |text|
    ensures BUFSIZE * c < FirstCut(text) ==> text[BUFSIZE * c - 1] == NEWLINE
    ensures FirstCut(text) < |text| ==> FirstCut(text) % BUFSIZE == 0
    decreases |text|
  {
    if text[BUFSIZE - 1] == NEWLINE {
      var rest := text[BUFSIZE..];
      if c > 1 {
        FirstCutSpec(rest, c - 1);
      } else if |rest| >= BUFSIZE {
        FirstCutSpec(rest, 1);
      }
    }
  }

  /** What the scan reports, with or without a newline in the byte after the buffer. */
  ghost function Scanned(text: seq<byte>, pattern: seq<byte>, stale: bool): seq<seq<byte>> {
    if stale then Reported(text[..FirstCut(text)], pattern) + Reported(text[FirstCut(text)..], pattern)
    else Reported(text, pattern)
  }

  // ---- Reports of parts ------------------------------------------------------------

  predicate EndsLine(text: seq<byte>) {
    text == [] || text[|text| - 1] == NEWLINE
  }

  lemma FirstLineOfPrefix(a: seq<byte>, b: seq<byte>)
    requires a != [] && EndsLine(a)
    ensures LineEnd(a) < |a| && LineEnd(a + b) == LineEnd(a)
    ensures (a + b)[..LineEnd(a)] == a[..LineEnd(a)] && AfterLine(a + b) == AfterLine(a) + b
    ensures EndsLine(AfterLine(a))
  {
    LineEndSpec(a);
    LineEndOfPrefix(a, b);
    ConcatParts(a, b, LineEnd(a));
    ConcatParts(a, b, LineEnd(a) + 1);
  }

  /** Whole lines are reported independently of the text behind them. */
  lemma {:induction false} ReportedSplit(a: seq<byte>, b: seq<byte>, pattern: seq<byte>)
    requires EndsLine(a)
    ensures Reported(a + b, pattern) == Reported(a, pattern) + Reported(b, pattern)
    decreases |a|
  {
    hide Piece, AfterPiece, LineEnd, AfterLine, IfHit;
    if a == [] {
      assert a + b == b;
    } else {
      PieceOfPrefix(a, b);
      ReportedSplit(AfterPiece(a), b, pattern);
    }
  }

  lemma PieceOfPrefix(a: seq<byte>, b: seq<byte>)
    requires a != [] && EndsLine(a)
    ensures Piece(a + b) == Piece(a) && AfterPiece(a + b) == AfterPiece(a) + b
    ensures EndsLine(AfterPiece(a))
  {
    FirstLineOfPrefix(a, b);
    if LineEnd(a) >= BUFSIZE {
      ConcatParts(a, b, BUFSIZE);
    }
  }

  predicate OneLine(line: seq<byte>) {
    forall i :: 0 <= i < |line| ==> line[i] != NEWLINE
  }

  /** The lines after a line's end. */
  ghost function Behind(tail: seq<byte>): seq<byte> {
    if tail == [] then [] else tail[1..]
  }

  lemma LineThenTail(line: seq<byte>, tail: seq<byte>)
    requires OneLine(line) && (tail != [] ==> tail[0] == NEWLINE)
    ensures LineEnd(line + tail) == |line|
    ensures (line + tail)[..|line|] == line && AfterLine(line + tail) == Behind(tail)
  {
    var text := line + tail;
    assert forall i :: 0 <= i < |line| ==> text[i] == line[i];
    assert tail != [] ==> text[|line|] == NEWLINE;
    LineEndIs(text, |line|);
  }

  /** A line is reported independently of the lines behind it. */
  lemma {:induction false} ReportedLine(line: seq<byte>, tail: seq<byte>, pattern: seq<byte>)
    requires OneLine(line) && (tail != [] ==> tail[0] == NEWLINE)
    ensures Reported(line + tail, pattern) == Reported(line, pattern) + Reported(Behind(tail), pattern)
    decreases |line|
  {
    hide Reported, IfHit, Hit, LineEnd, AfterLine, Piece, AfterPiece;
    if |line| >= BUFSIZE {
      LongPiece(line, tail, pattern);
      LongPiece(line, [], pattern);
      assert line + [] == line && line[BUFSIZE..] + [] == line[BUFSIZE..];
      ReportedLine(line[BUFSIZE..], tail, pattern);
    } else {
      ShortPiece(line, tail, pattern);
      ReportedShortLine(line, pattern);
    }
  }

  lemma LongPiece(line: seq<byte>, tail: seq<byte>, pattern: seq<byte>)
    requires OneLine(line) && |line| >= BUFSIZE && (tail != [] ==> tail[0] == NEWLINE)
    ensures OneLine(line[BUFSIZE..])
    ensures Reported(line + tail, pattern) == IfFound(line[..BUFSIZE], pattern) + Reported(line[BUFSIZE..] + tail, pattern)
  {
    LineThenTail(line, tail);
    ConcatParts(line, tail, BUFSIZE);
  }

  lemma ShortPiece(line: seq<byte>, tail: seq<byte>, pattern: seq<byte>)
    requires OneLine(line) && |line| < BUFSIZE && (tail != [] ==> tail[0] == NEWLINE)
    ensures Reported(line + tail, pattern) == IfFound(line, pattern) + Reported(Behind(tail), pattern)
  {
    LineThenTail(line, tail);
    NothingFound(pattern);
  }

  lemma {:induction false} ReportedMiss(line: seq<byte>, pattern: seq<byte>)
    requires OneLine(line) && !Found(line, pattern)
    ensures Reported(line, pattern) == []
    decreases |line|
  {
    LineThenTail(line, []);
    assert line + [] == line;
    if |line| >= BUFSIZE {
      BlockOfMiss(line, pattern, 0, BUFSIZE);
      BlockOfMiss(line, pattern, BUFSIZE, |line|);
      assert line[0..BUFSIZE] == line[..BUFSIZE] && line[BUFSIZE..|line|] == line[BUFSIZE..];
      ReportedMiss(line[BUFSIZE..], pattern);
    } else if line != [] {
      assert Piece(line) == line && AfterPiece(line) == [];
    }
  }

  lemma ReportedShortLine(line: seq<byte>, pattern: seq<byte>)
    requires OneLine(line) && |line| <= BUFSIZE
    ensures Reported(line, pattern) == IfFound(line, pattern)
  {
    LineThenTail(line, []);
    assert line + [] == line;
    NothingFound(pattern);
    if line != [] {
      assert Piece(line) == line && AfterPiece(line) == [];
    }
  }

  // ---- Buffer by buffer --------------------------------------------------------------

  lemma ScannedPlainly(text: seq<byte>, pattern: seq<byte>)
    ensures Scanned(text, pattern, false) == Reported(text, pattern)
  {
  }

  /** A text that does not fill the buffer is not cut. */
  lemma ScannedShort(text: seq<byte>, pattern: seq<byte>)
    requires |text| < BUFSIZE
    ensures forall stale :: Scanned(text, pattern, stale) == Reported(text, pattern)
  {
    assert text[..|text|] == text && text[|text|..] == [];
    assert Reported([], pattern) == [];
  }

  /** A full buffer is reported by itself, and the newline after it stays exactly
      if the buffer ends in one. */
  lemma ScannedBuffer(window: seq<byte>, rest: seq<byte>, pattern: seq<byte>)
    requires |window| == BUFSIZE
    ensures Scanned(window + rest, pattern, true) ==
            Reported(window, pattern) + Scanned(rest, pattern, window[BUFSIZE - 1] == NEWLINE)
  {
    hide Reported;
    var text := window + rest;
    assert text[BUFSIZE..] == rest && text[..BUFSIZE] == window && text[BUFSIZE - 1] == window[BUFSIZE - 1];
    if window[BUFSIZE - 1] == NEWLINE {
      var m := FirstCut(rest);
      assert text[..BUFSIZE + m] == window + rest[..m] && text[BUFSIZE + m..] == rest[m..];
      ReportedSplit(window, rest[..m], pattern);
    }
  }

  // ---- The line that is cut ----------------------------------------------------------

  /** Where the line around position `n` starts. */
  ghost function LineStart(text: seq<byte>, n: nat): (p: nat)
    requires n <= |text|
    ensures p <= n && (p == 0 || text[p - 1] == NEWLINE)
    ensures forall i :: p <= i < n ==> text[i] != NEWLINE
  {
    if n == 0 || text[n - 1] == NEWLINE then n else LineStart(text, n - 1)
  }

  /** The parts of that line before and after the position. */
  ghost function Left(text: seq<byte>, n: nat): (r: seq<byte>)
    requires n <= |text|
    ensures OneLine(r)
  {
    text[LineStart(text, n)..n]
  }

  ghost function Right(text: seq<byte>, n: nat): (r: seq<byte>)
    requires n <= |text|
    ensures OneLine(r)
  {
    LineEndSpec(text[n..]);
    text[n..][..LineEnd(text[n..])]
  }

  /** The lines before the cut line, what ends it, and the lines after it. */
  ghost function Rest(text: seq<byte>, n: nat): seq<byte>
    requires n <= |text|
  {
    text[n..][LineEnd(text[n..])..]
  }

  lemma PartsOfText(text: seq<byte>, n: nat)
    requires n <= |text|
    ensures var a, u, v, tail := text[..LineStart(text, n)], Left(text, n), Right(text, n), Rest(text, n);
      && EndsLine(a) && (tail != [] ==> tail[0] == NEWLINE)
      && text == a + ((u + v) + tail) && text[..n] == a + u && text[n..] == v + tail
  {
    LineEndSpec(text[n..]);
    hide LineEnd, LineStart;
    FourParts(text, LineStart(text, n), n, LineEnd(text[n..]));
  }

  lemma FourParts<T>(s: seq<T>, p: nat, n: nat, e: nat)
    requires p <= n && n + e <= |s|
    ensures s == s[..p] + ((s[p..n] + s[n..][..e]) + s[n..][e..])
    ensures s[..n] == s[..p] + s[p..n] && s[n..] == s[n..][..e] + s[n..][e..]
  {
    assert s == s[..p] + (s[p..n] + s[n..]);
  }

  /** Only the line around the cut can be reported differently. */
  lemma PartsOfCut(text: seq<byte>, n: nat, pattern: seq<byte>)
    requires n <= |text|
    ensures var a, t := Reported(text[..LineStart(text, n)], pattern), Reported(Behind(Rest(text, n)), pattern);
      var u, v := Left(text, n), Right(text, n);
      && Reported(text, pattern) == a + (Reported(u + v, pattern) + t)
      && Reported(text[..n], pattern) == a + Reported(u, pattern)
      && Reported(text[n..], pattern) == Reported(v, pattern) + t
  {
    hide Reported, LineStart, Left, Right, Rest, Behind;
    PartsOfText(text, n);
    var a, u, v, tail := text[..LineStart(text, n)], Left(text, n), Right(text, n), Rest(text, n);
    ReportedSplit(a, u, pattern);
    ReportedSplit(a, (u + v) + tail, pattern);
    ReportedLine(u + v, tail, pattern);
    ReportedLine(v, tail, pattern);
  }

  /** With a newline left over, the report is unchanged if and only if the pieces
      of the cut line are, cut or not. */
  lemma ScannedAsReported(text: seq<byte>, pattern: seq<byte>)
    ensures Scanned(text, pattern, true) == Reported(text, pattern) <==>
      var u, v := Left(text, FirstCut(text)), Right(text, FirstCut(text));
      Reported(u, pattern) + Reported(v, pattern) == Reported(u + v, pattern)
  {
    hide Reported, LineStart, Left, Right, Rest, Behind, FirstCut;
    var n := FirstCut(text);
    PartsOfCut(text, n, pattern);
    var a, t := Reported(text[..LineStart(text, n)], pattern), Reported(Behind(Rest(text, n)), pattern);
    var x, y := Reported(Left(text, n), pattern), Reported(Right(text, n), pattern);
    Cancel(a, x, y, Reported(Left(text, n) + Right(text, n), pattern), t);
  }

  lemma Cancel<T>(a: seq<T>, x: seq<T>, y: seq<T>, z: seq<T>, b: seq<T>)
    ensures (a + x) + (y + b) == a + (z + b) <==> x + y == z
  {
    if (a + x) + (y + b) == a + (z + b) {
      var s := a + (z + b);
      assert s == a + ((x + y) + b);
      assert s[|a|..|a| + |z|] == z;
      assert s[|a|..|a| + |x + y|] == x + y;
    } else {
      assert (a + x) + (y + b) == a + ((x + y) + b);
    }
  }

  /** The cut goes through a line that contains the pattern. */
  ghost predicate CutsHit(text: seq<byte>, pattern: seq<byte>) {
    var n := FirstCut(text);
    n < |text| && text[n] != NEWLINE && Hit(Left(text, n) + Right(text, n), pattern)
  }

  /** Unless a line is lost anyway, the pieces of the cut line add up exactly when
      it does not match or the cut is at its end. */
  lemma CutLine(text: seq<byte>, pattern: seq<byte>)
    requires !Lost(text, pattern)
    ensures var u, v := Left(text, FirstCut(text)), Right(text, FirstCut(text));
      Reported(u, pattern) + Reported(v, pattern) == Reported(u + v, pattern) <==> !CutsHit(text, pattern)
  {
    var n := FirstCut(text);
    var u, v := Left(text, n), Right(text, n);
    CutShape(text, n);
    hide FirstCut, Left, Right, Reported;
    NothingFound(pattern);
    if Spoiled(u + v, pattern) {
      LineIsOne(text, n);
    }
    UnspoiledLine(u + v, pattern);
    PiecesAddUp(u, v, pattern);
  }

  lemma CutShape(text: seq<byte>, n: nat)
    requires n == FirstCut(text)
    ensures Left(text, n) == [] ==> n == |text| && Right(text, n) == []
    ensures Right(text, n) == [] <==> n == |text| || text[n] == NEWLINE
  {
  }

  /** Cutting a line of at most 1024 bytes changes its report exactly when it
      contains the pattern; cutting a longer one that does not, changes nothing. */
  lemma PiecesAddUp(u: seq<byte>, v: seq<byte>, pattern: seq<byte>)
    requires OneLine(u) && OneLine(v) && !Spoiled(u + v, pattern)
    ensures Reported(u, pattern) + Reported(v, pattern) == Reported(u + v, pattern) <==>
      u == [] || v == [] || !Found(u + v, pattern)
  {
    hide Reported;
    var line := u + v;
    NothingFound(pattern);
    if !Found(line, pattern) {
      BlockOfMiss(line, pattern, 0, |u|);
      BlockOfMiss(line, pattern, |u|, |line|);
      assert line[0..|u|] == u && line[|u|..|line|] == v;
      ReportedMiss(line, pattern);
      ReportedMiss(u, pattern);
      ReportedMiss(v, pattern);
    } else {
      ReportedShortLine(line, pattern);
      ReportedShortLine(u, pattern);
      ReportedShortLine(v, pattern);
      VisibleSpec(line);
      assert IfFound(line, pattern) == [line];
      if u == [] {
        assert line == v && IfFound(u, pattern) == [];
      } else if v == [] {
        assert line == u && IfFound(v, pattern) == [];
      } else {
        assert line !in IfFound(u, pattern) && line !in IfFound(v, pattern);
        assert line in [line];
      }
    }
  }

  lemma LineIsOne(text: seq<byte>, n: nat)
    requires n <= |text| && Left(text, n) + Right(text, n) != []
    ensures Left(text, n) + Right(text, n) in AllLines(text)
  {
    hide LineStart, Left, Right, Rest;
    var a, line, tail := text[..LineStart(text, n)], Left(text, n) + Right(text, n), Rest(text, n);
    PartsOfText(text, n);
    LineThenTail(line, tail);
    LinesBehind(a, line + tail, line);
  }

  lemma {:induction false} LinesBehind(a: seq<byte>, b: seq<byte>, line: seq<byte>)
    requires EndsLine(a) && line in AllLines(b)
    ensures line in AllLines(a + b)
    decreases |a|
  {
    if a == [] {
      assert a + b == b;
    } else {
      FirstLineOfPrefix(a, b);
      LinesBehind(AfterLine(a), b, line);
    }
  }

  /** Whatever the byte after the buffer holds, the scan reports exactly the
      matching lines, if and only if none of them is longer than the buffer or holds
      a NUL byte and, with a newline in that byte, none of them is cut. */
  lemma ScannedExactly(text: seq<byte>, pattern: seq<byte>, stale: bool)
    ensures Scanned(text, pattern, stale) == Matching(text, pattern) <==>
      !Lost(text, pattern) && !(stale && CutsHit(text, pattern))
  {
    ReportedExactly(text, pattern);
    if stale {
      if Lost(text, pattern) {
        LostAnyway(text, FirstCut(text), pattern);
      } else {
        ScannedAsReported(text, pattern);
        CutLine(text, pattern);
      }
    }
  }

  // ---- Texts on which the report is wrong -----------------------------------------------

  const A: byte := 97
  const B: byte := 98

  function Repeat(c: byte, n: nat): (r: seq<byte>)
    ensures |r| == n && forall i :: 0 <= i < n ==> r[i] == c
  {
    seq(n, _ => c)
  }

  /** A matching line of 1025 bytes. */
  lemma LongLineExample()
    ensures Lost(Repeat(A, BUFSIZE + 1), [A])
    ensures Reported(Repeat(A, BUFSIZE + 1), [A]) != Matching(Repeat(A, BUFSIZE + 1), [A])
  {
    var line := Repeat(A, BUFSIZE + 1);
    LineEndIs(line, |line|);
    assert line[..|line|] == line;
    assert OccursAt(line, [A], 0);
    assert line in AllLines(line) && Spoiled(line, [A]);
    ReportedExactly(line, [A]);
  }

  /** A newline, 1023 bytes, and one more byte of the same line: with a newline
      left over after the buffer, the match across the cut is overlooked. */
  lemma CutLineExample()
    ensures var text := [NEWLINE] + Repeat(A, BUFSIZE - 1) + [B];
      && Scanned(text, [A, B], true) != Matching(text, [A, B])
      && Scanned(text, [A, B], false) == Matching(text, [A, B])
  {
    var line := Repeat(A, BUFSIZE - 1) + [B];
    var text := [NEWLINE] + Repeat(A, BUFSIZE - 1) + [B];
    assert FirstCut(text) == BUFSIZE;
    CutLineParts(text);
    assert line == Left(text, BUFSIZE) + Right(text, BUFSIZE);
    assert OccursAt(line, [A, B], BUFSIZE - 2);
    ScannedExactly(text, [A, B], true);
    ScannedExactly(text, [A, B], false);
    NothingIsLost(text, [A, B]);
  }

  lemma CutLineParts(text: seq<byte>)
    requires text == [NEWLINE] + Repeat(A, BUFSIZE - 1) + [B]
    ensures Left(text, BUFSIZE) == Repeat(A, BUFSIZE - 1) && Right(text, BUFSIZE) == [B]
  {
    LineEndIs(text[BUFSIZE..], 1);
    assert text[0] == NEWLINE && forall i :: 1 <= i < BUFSIZE ==> text[i] == A;
    assert LineStart(text, BUFSIZE) == 1;
  }

  lemma NothingIsLost(text: seq<byte>, pattern: seq<byte>)
    requires text == [NEWLINE] + Repeat(A, BUFSIZE - 1) + [B]
    ensures pattern != [] ==> !Lost(text, pattern)
  {
    var line := Repeat(A, BUFSIZE - 1) + [B];
    LineEndIs(text, 0);
    LineEndIs(line, |line|);
    assert AfterLine(text) == line;
    assert line[..|line|] == line && AfterLine(line) == [] && text[..0] == [];
    assert AllLines(line) == [line] + AllLines([]);
    assert AllLines(text) == [[]] + AllLines(line);
  }
}
