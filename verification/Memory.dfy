/** The kernel library's block moves: byte head, word body, byte tail. */
module Memory {
  import opened Bytes

  /** The memory after `data` has been stored at index `d`. */
  function Stored(m: seq<byte>, d: nat, data: seq<byte>): seq<byte>
    requires d + |data| <= |m|
  {
    m[..d] + data + m[d + |data|..]
  }

  /** The first `k` of the bytes at `s` have arrived at `d`; all else is as before. */
  twostate predicate Moved(dst: array<byte>, d: nat, src: array<byte>, s: nat, k: int)
    requires d + k <= dst.Length && s + k <= src.Length
    reads dst
  {
    && (forall j :: d <= j < d + k ==> dst[j] == old(src[j - d + s]))
    && (forall j :: 0 <= j < dst.Length && !(d <= j < d + k) ==> dst[j] == old(dst[j]))
  }

  /** movsl: one word is read in full before it is written. */
  method MoveWord(dst: array<byte>, d: nat, src: array<byte>, s: nat)
    requires d + 4 <= dst.Length && s + 4 <= src.Length
    modifies dst
    ensures Moved(dst, d, src, s, 4)
  {
    var b0, b1, b2, b3 := src[s], src[s + 1], src[s + 2], src[s + 3];
    dst[d], dst[d + 1], dst[d + 2], dst[d + 3] := b0, b1, b2, b3;
  }

  /** rep movsl: `words` words, in ascending order. */
  method MoveWords(dst: array<byte>, d: nat, src: array<byte>, s: nat, words: nat)
    requires d + 4 * words <= dst.Length && s + 4 * words <= src.Length
    requires dst != src || d <= s || s + 4 * words <= d
    modifies dst
    ensures Moved(dst, d, src, s, 4 * words)
  {
    for w := 0 to words
      invariant Moved(dst, d, src, s, 4 * w)
      invariant forall j :: s + 4 * w <= j < s + 4 * words ==> src[j] == old(src[j])
    {
      MoveWord(dst, d + 4 * w, src, s + 4 * w);
    }
  }

  /** The byte loops around the words: up to `n` bytes, stopping early at a word boundary if `align` is set. */
  method MoveBytes(dst: array<byte>, d: nat, src: array<byte>, s: nat, n: nat, align: bool, base: nat)
    returns (k: nat)
    requires d + n <= dst.Length && s + n <= src.Length
    requires dst != src || d <= s || s + n <= d
    modifies dst
    ensures k <= n && Moved(dst, d, src, s, k)
    ensures forall j :: s + k <= j < s + n ==> src[j] == old(src[j])
    ensures k == n || (align && (base + d + k) % 4 == 0)
  {
    k := 0;
    while k < n && !(align && (base + d + k) % 4 == 0)
      invariant k <= n && Moved(dst, d, src, s, k)
      invariant forall j :: s + k <= j < s + n ==> src[j] == old(src[j])
    {
      dst[d + k] := src[s + k];
      k := k + 1;
    }
  }

  lemma StoredPointwise(was: seq<byte>, now: seq<byte>, d: nat, data: seq<byte>)
    requires |was| == |now| && d + |data| <= |was|
    requires forall j :: d <= j < d + |data| ==> now[j] == data[j - d]
    requires forall j :: 0 <= j < |was| && !(d <= j < d + |data|) ==> now[j] == was[j]
    ensures now == Stored(was, d, data)
  {
  }

  lemma StoredReads(was: seq<byte>, now: seq<byte>, d: nat, data: seq<byte>)
    requires |was| == |now| && d + |data| <= |was| && now == Stored(was, d, data)
    ensures forall j :: d <= j < d + |data| ==> now[j] == data[j - d]
    ensures forall j :: 0 <= j < |was| && !(d <= j < d + |data|) ==> now[j] == was[j]
  {
  }

  /** The three phases of memcpy: up to a word boundary, whole words, the rest. */
  method MovePhases(dst: array<byte>, d: nat, src: array<byte>, s: nat, n: nat, base: nat)
    requires d + n <= dst.Length && s + n <= src.Length
    requires dst != src || d <= s || s + n <= d
    modifies dst
    ensures Moved(dst, d, src, s, n)
  {
    var k := MoveBytes(dst, d, src, s, n, true, base);
    var ecx, edx := (n - k) / 4, (n - k) % 4;
    MoveWords(dst, d + k, src, s + k, ecx);
    assert Moved(dst, d, src, s, k + 4 * ecx);
    assert forall j :: s + k + 4 * ecx <= j < s + n ==> src[j] == old(src[j]);
    var rest := MoveBytes(dst, d + k + 4 * ecx, src, s + k + 4 * ecx, edx, false, base);
  }

  /** memcpy: copies bytes until the destination address is word aligned, then
      whole words, then the rest. `base` is the address of `dst[0]`, so every
      alignment is covered. */
  method Memcpy(dst: array<byte>, d: nat, src: array<byte>, s: nat, n: nat, base: nat := 0)
    requires d + n <= dst.Length && s + n <= src.Length
    requires dst != src || d <= s || s + n <= d
    modifies dst
    ensures dst[..] == Stored(old(dst[..]), d, old(src[s..s + n]))
  {
    MovePhases(dst, d, src, s, n, base);
    StoredPointwise(old(dst[..]), dst[..], d, old(src[s..s + n]));
  }

  /** rep movsb with the direction flag set: from the last byte to the first. */
  method MoveBytesDown(m: array<byte>, d: nat, s: nat, n: nat)
    requires s < d && d + n <= m.Length
    modifies m
    ensures Moved(m, d, m, s, n)
  {
    var edi, esi, ecx := d + n - 1, s + n - 1, n;
    while ecx != 0
      invariant edi - d == esi - s == ecx - 1 && 0 <= ecx <= n
      invariant forall j :: edi < j < d + n ==> m[j] == old(m[j - d + s])
      invariant forall j :: 0 <= j < m.Length && !(edi < j < d + n) ==> m[j] == old(m[j])
    {
      m[edi] := m[esi];
      edi, esi, ecx := edi - 1, esi - 1, ecx - 1;
    }
  }

  /** memmove: the copying direction is chosen by comparing the two addresses,
      so the destination receives the old source for every overlap. */
  method Memmove(m: array<byte>, d: nat, s: nat, n: nat)
    requires d + n <= m.Length && s + n <= m.Length
    modifies m
    ensures m[..] == Stored(old(m[..]), d, old(m[s..s + n]))
  {
    if s >= d {
      var k := MoveBytes(m, d, m, s, n, false, 0);
    } else {
      MoveBytesDown(m, d, s, n);
    }
    StoredPointwise(old(m[..]), m[..], d, old(m[s..s + n]));
  }

  /** The byte loops of memset. */
  method FillBytes(m: array<byte>, s: nat, al: byte, n: nat, align: bool, base: nat) returns (k: nat)
    requires s + n <= m.Length
    modifies m
    ensures k <= n
    ensures forall j :: 0 <= j < m.Length ==> m[j] == if s <= j < s + k then al else old(m[j])
    ensures k == n || (align && (base + s + k) % 4 == 0)
  {
    k := 0;
    while k < n && !(align && (base + s + k) % 4 == 0)
      invariant k <= n
      invariant forall j :: 0 <= j < m.Length ==> m[j] == if s <= j < s + k then al else old(m[j])
    {
      m[s + k] := al;
      k := k + 1;
    }
  }

  /** memset: fills exactly `n` bytes with the low byte of `c`, whole words in the middle. */
  method Memset(m: array<byte>, s: nat, c: int, n: nat, base: nat := 0)
    requires s + n <= m.Length
    modifies m
    ensures m[..] == Stored(old(m[..]), s, seq(n, _ => c % 256))
  {
    var al: byte := c % 256;
    var k := FillBytes(m, s, al, n, true, base);
    var ecx, edx := (n - k) / 4, (n - k) % 4;
    for w := 0 to ecx
      invariant forall j :: 0 <= j < m.Length ==> m[j] == if s <= j < s + k + 4 * w then al else old(m[j])
    {
      var edi := s + k + 4 * w;
      m[edi], m[edi + 1], m[edi + 2], m[edi + 3] := al, al, al, al;
    }
    var rest := FillBytes(m, s + k + 4 * ecx, al, edx, false, base);
    StoredPointwise(old(m[..]), m[..], s, seq(n, _ => c % 256));
  }

  /** strcpy within one array, byte by byte from low to high: when the
      destination does not lie above the source, the string (and its NUL)
      arrives intact even if the two ranges overlap. */
  method StrcpyDown(m: array<byte>, d: nat, s: nat, ghost t: seq<byte>)
    requires IsCString(m[..], s, t)
    requires d <= s
    modifies m
    ensures Moved(m, d, m, s, |t| + 1)
  {
    ghost var was := m[..];
    var i := 0;
    CStringScan(was, s, t, 0);
    while m[s + i] != NUL
      invariant 0 <= i <= |t|
      invariant Moved(m, d, m, s, i)
      invariant m[s + i] == was[s + i] && (was[s + i] == NUL <==> i == |t|)
      decreases |t| - i
    {
      m[d + i] := m[s + i];
      i := i + 1;
      CStringScan(was, s, t, i);
    }
    m[d + i] := NUL;
  }

  /** strcpy of a string that lies elsewhere, with its NUL. */
  method CopyString(s: seq<byte>, buf: array<byte>, at: nat)
    requires at + |s| < buf.Length
    modifies buf
    ensures buf[..] == Stored(old(buf[..]), at, s + [NUL])
  {
    for i := 0 to |s|
      invariant forall j :: 0 <= j < buf.Length ==> buf[j] == if at <= j < at + i then s[j - at] else old(buf[j])
    {
      buf[at + i] := s[i];
    }
    buf[at + |s|] := NUL;
    StoredPointwise(old(buf[..]), buf[..], at, s + [NUL]);
  }
}
