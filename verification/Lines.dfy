/** What grep should print, and what its 1024-byte buffer and its C strings make
    of long lines and of NUL bytes. */
module Lines {
  import opened Prelude
  import opened Bytes

  /** The position of the first newline, or the length of the text if it has none. */
  ghost function LineEnd(text: seq<byte>): (n: nat)
    ensures n <= |text|
  {
    if text == [] || text[0] == NEWLINE then 0 else 1 + LineEnd(text[1..])
  }

  lemma {:induction false} LineEndSpec(text: seq<byte>)
    ensures LineEnd(text) < |text| ==> text[LineEnd(text)] == NEWLINE
    ensures forall i :: 0 <= i < LineEnd(text) ==> text[i] != NEWLINE
  {
    if text != [] && text[0] != NEWLINE {
      LineEndSpec(text[1..]);
      assert forall i :: 1 <= i < |text| ==> text[i] == text[1..][i - 1];
    }
  }

  lemma {:induction false} LineEndIs(text: seq<byte>, n: nat)
    requires n <= |text| && (n < |text| ==> text[n] == NEWLINE)
    requires forall i :: 0 <= i < n ==> text[i] != NEWLINE
    ensures LineEnd(text) == n
  {
    if n > 0 {
      LineEndIs(text[1..], n - 1);
    }
  }

  lemma LineEndOfPrefix(window: seq<byte>, rest: seq<byte>)
    ensures LineEnd(window) < |window| ==> LineEnd(window + rest) == LineEnd(window)
    ensures LineEnd(window) == |window| ==> LineEnd(window + rest) >= |window|
  {
    var text := window + rest;
    LineEndSpec(window);
    LineEndSpec(text);
    assert forall i :: 0 <= i < |window| ==> text[i] == window[i];
    if LineEnd(window) < |window| {
      LineEndIs(text, LineEnd(window));
    }
  }

  lemma ConcatParts(a: seq<byte>, b: seq<byte>, i: nat)
    requires i <= |a|
    ensures (a + b)[..i] == a[..i] && (a + b)[i..] == a[i..] + b
  {
  }

  /** The text after its first line. */
  ghost function AfterLine(text: seq<byte>): seq<byte> {
    if LineEnd(text) < |text| then text[LineEnd(text) + 1..] else []
  }

  ghost function AllLines(text: seq<byte>): seq<seq<byte>>
    decreases |text|
  {
    if text == [] then [] else [text[..LineEnd(text)]] + AllLines(AfterLine(text))
  }

  /** A line is reported when it contains the pattern; the empty pattern finds nothing. */
  ghost predicate Hit(line: seq<byte>, pattern: seq<byte>) {
    pattern != [] && Contains(line, pattern)
  }

  ghost function IfHit(line: seq<byte>, pattern: seq<byte>): seq<seq<byte>> {
    if Hit(line, pattern) then [line] else []
  }

  /** The lines of the text that contain the pattern, in order. */
  ghost function Matching(text: seq<byte>, pattern: seq<byte>): seq<seq<byte>>
    decreases |text|
  {
    if text == [] then [] else IfHit(text[..LineEnd(text)], pattern) + Matching(AfterLine(text), pattern)
  }

  /** The piece that one round examines: a line, or the first 1024 bytes of a longer one. */
  ghost function Piece(text: seq<byte>): seq<byte> {
    if LineEnd(text) < BUFSIZE then text[..LineEnd(text)] else text[..BUFSIZE]
  }

  ghost function AfterPiece(text: seq<byte>): (r: seq<byte>)
    ensures text != [] ==> |r| < |text|
  {
    if LineEnd(text) < BUFSIZE then AfterLine(text) else text[BUFSIZE..]
  }

  /** The part of a piece that is printed: its bytes before the first NUL. */
  ghost function Visible(line: seq<byte>): (r: seq<byte>)
    ensures |r| <= |line|
  {
    if line == [] || line[0] == NUL then [] else [line[0]] + Visible(line[1..])
  }

  lemma {:induction false} VisibleSpec(line: seq<byte>)
    ensures NUL !in Visible(line) && Visible(line) == line[..|Visible(line)|]
    ensures |Visible(line)| < |line| ==> line[|Visible(line)|] == NUL
    ensures Visible(line) == line <==> NUL !in line
  {
    if line != [] && line[0] != NUL {
      VisibleSpec(line[1..]);
      var rest := Visible(line[1..]);
      assert Visible(line) == [line[0]] + rest;
      assert line[..|rest| + 1] == [line[0]] + line[1..][..|rest|];
    }
  }

  /** The search finds the pattern in a piece; the empty pattern, which ends where
      it starts, is found at a NUL byte. */
  ghost predicate Found(line: seq<byte>, pattern: seq<byte>) {
    if pattern == [] then NUL in line else Contains(line, pattern)
  }

  ghost function IfFound(line: seq<byte>, pattern: seq<byte>): seq<seq<byte>> {
    if Found(line, pattern) then [Visible(line)] else []
  }

  /** The visible parts of the pieces in which the pattern is found: what the
      buffered scan reports. */
  ghost function Reported(text: seq<byte>, pattern: seq<byte>): seq<seq<byte>>
    decreases |text|
  {
    if text == [] then [] else IfFound(Piece(text), pattern) + Reported(AfterPiece(text), pattern)
  }

  // ---- Exactly when the scan is right -----------------------------------------

  /** A line that is not reported as it should be: a matching one that is longer
      than the buffer or holds a NUL byte; for the empty pattern, any with a NUL byte. */
  ghost predicate Spoiled(line: seq<byte>, pattern: seq<byte>) {
    Found(line, pattern) && (|line| > BUFSIZE || NUL in line)
  }

  ghost predicate Lost(text: seq<byte>, pattern: seq<byte>) {
    exists line :: line in AllLines(text) && Spoiled(line, pattern)
  }

  /** Lines that are not spoiled are found exactly if they match, and printed whole. */
  lemma UnspoiledLine(line: seq<byte>, pattern: seq<byte>)
    requires !Spoiled(line, pattern)
    ensures Found(line, pattern) <==> Hit(line, pattern)
    ensures IfFound(line, pattern) == IfHit(line, pattern)
  {
    VisibleSpec(line);
  }

  lemma BlockOfMiss(line: seq<byte>, pattern: seq<byte>, i: nat, j: nat)
    requires i <= j <= |line| && !Found(line, pattern)
    ensures !Found(line[i..j], pattern)
  {
    var block := line[i..j];
    if pattern != [] {
      forall k ensures !OccursAt(block, pattern, k) {
        if OccursAt(block, pattern, k) {
          SliceOfSlice(line, i, j, k, k + |pattern|);
          assert OccursAt(line, pattern, i + k);
        }
      }
    }
  }

  lemma SliceParts(s: seq<byte>, i: nat, j: nat, k: nat)
    requires i <= j <= |s| && k <= j - i
    ensures s[i..j][..k] == s[i..i + k]
    ensures s[i..j][k..] == s[i + k..j]
  {
    var a, b := s[i..j][k..], s[i + k..j];
    assert |a| == |b| && forall x :: 0 <= x < |a| ==> a[x] == b[x];
  }

  lemma {:induction false} ReportedShort(text: seq<byte>, pattern: seq<byte>)
    ensures forall line :: line in Reported(text, pattern) ==> |line| <= BUFSIZE && NUL !in line
    decreases |text|
  {
    if text != [] {
      VisibleSpec(Piece(text));
      ReportedShort(AfterPiece(text), pattern);
    }
  }

  lemma {:induction false} MatchingHasHits(text: seq<byte>, pattern: seq<byte>, line: seq<byte>)
    requires line in AllLines(text) && Hit(line, pattern)
    ensures line in Matching(text, pattern)
    decreases |text|
  {
    if line != text[..LineEnd(text)] {
      MatchingHasHits(AfterLine(text), pattern, line);
    }
  }

  /** The empty pattern matches nothing. */
  lemma {:induction false} EmptyPatternMatchesNothing(text: seq<byte>)
    ensures Matching(text, []) == []
    decreases |text|
  {
    if text != [] {
      EmptyPatternMatchesNothing(AfterLine(text));
    }
  }

  /** The empty pattern is reported to be found wherever there is a NUL byte. */
  lemma {:induction false} EmptyPatternFindsNul(text: seq<byte>)
    requires NUL in text
    ensures Reported(text, []) != []
    decreases |text|
  {
    if NUL !in Piece(text) {
      if LineEnd(text) < BUFSIZE {
        LineEndSpec(text);
        assert text == text[..LineEnd(text)] + [NEWLINE] + AfterLine(text);
      } else {
        assert text == text[..BUFSIZE] + text[BUFSIZE..];
      }
      EmptyPatternFindsNul(AfterPiece(text));
    }
  }

  lemma {:induction false} LinesFromText(text: seq<byte>, line: seq<byte>, c: byte)
    requires line in AllLines(text) && c in line
    ensures c in text
    decreases |text|
  {
    if line != text[..LineEnd(text)] {
      LinesFromText(AfterLine(text), line, c);
    }
  }

  lemma NothingLostAfter(text: seq<byte>, pattern: seq<byte>)
    requires text != [] && !Lost(text, pattern)
    ensures !Lost(AfterLine(text), pattern)
    ensures !Spoiled(text[..LineEnd(text)], pattern)
  {
    assert text[..LineEnd(text)] in AllLines(text);
    assert forall line :: line in AllLines(AfterLine(text)) ==> line in AllLines(text);
  }

  lemma CutLineEnd(text: seq<byte>)
    requires LineEnd(text) >= BUFSIZE
    ensures LineEnd(text[BUFSIZE..]) == LineEnd(text) - BUFSIZE
    ensures AfterLine(text[BUFSIZE..]) == AfterLine(text)
    ensures text[BUFSIZE..][..LineEnd(text) - BUFSIZE] == text[..LineEnd(text)][BUFSIZE..LineEnd(text)]
  {
    hide LineEnd;
    var n := LineEnd(text);
    LineEndSpec(text);
    LineEndIs(text[BUFSIZE..], n - BUFSIZE);
    CutSlices(text, BUFSIZE, n);
  }

  lemma CutSlices<T>(s: seq<T>, b: nat, n: nat)
    requires b <= n <= |s|
    ensures s[b..][..n - b] == s[..n][b..n]
    ensures n < |s| ==> s[b..][n - b + 1..] == s[n + 1..]
  {
  }

  /** Cutting a missed long line leaves its remainder, another miss, in front of the same lines. */
  lemma CutLongLine(text: seq<byte>, pattern: seq<byte>)
    requires LineEnd(text) > BUFSIZE && !Lost(text, pattern)
    ensures !Found(text[..BUFSIZE], pattern)
    ensures !Lost(text[BUFSIZE..], pattern)
    ensures Matching(text[BUFSIZE..], pattern) == Matching(text, pattern)
  {
    hide LineEnd, AfterLine, AllLines, Lost, Hit;
    var n, line, cut := LineEnd(text), text[..LineEnd(text)], text[BUFSIZE..];
    NothingLostAfter(text, pattern);
    CutLineEnd(text);
    BlockOfMiss(line, pattern, 0, BUFSIZE);
    BlockOfMiss(line, pattern, BUFSIZE, n);
    assert line[0..BUFSIZE] == text[..BUFSIZE];
    LinesOfCut(text, pattern);
    MissesDoNotMatch(line, pattern, BUFSIZE);
  }

  lemma LinesOfCut(text: seq<byte>, pattern: seq<byte>)
    requires LineEnd(text) > BUFSIZE && !Lost(AfterLine(text), pattern)
    requires !Found(text[..LineEnd(text)][BUFSIZE..LineEnd(text)], pattern)
    ensures !Lost(text[BUFSIZE..], pattern)
  {
    var n, line, cut := LineEnd(text), text[..LineEnd(text)], text[BUFSIZE..];
    CutLineEnd(text);
    forall l | l in AllLines(cut) ensures !Spoiled(l, pattern) {
      assert l == line[BUFSIZE..n] || l in AllLines(AfterLine(text));
    }
  }

  lemma MissesDoNotMatch(line: seq<byte>, pattern: seq<byte>, k: nat)
    requires k <= |line| && !Found(line, pattern) && !Found(line[k..|line|], pattern)
    ensures IfHit(line, pattern) == IfHit(line[k..|line|], pattern) == []
  {
  }

  lemma {:induction false} ReportedUnlessLost(text: seq<byte>, pattern: seq<byte>)
    requires !Lost(text, pattern)
    ensures Reported(text, pattern) == Matching(text, pattern)
    decreases |text|
  {
    if text != [] {
      NothingLostAfter(text, pattern);
      UnspoiledLine(text[..LineEnd(text)], pattern);
      var n := LineEnd(text);
      if n < BUFSIZE {
        ReportedUnlessLost(AfterLine(text), pattern);
      } else if n > BUFSIZE {
        CutLongLine(text, pattern);
        ReportedUnlessLost(text[BUFSIZE..], pattern);
      } else {
        FullLine(text, pattern);
        ReportedUnlessLost(AfterLine(text), pattern);
      }
    }
  }

  lemma NothingFound(pattern: seq<byte>)
    ensures !Found([], pattern)
  {
  }

  /** A line of exactly 1024 bytes leaves its newline behind, as an empty piece. */
  lemma FullLine(text: seq<byte>, pattern: seq<byte>)
    requires LineEnd(text) == BUFSIZE
    ensures Reported(text, pattern) == IfFound(text[..BUFSIZE], pattern) + Reported(AfterLine(text), pattern)
  {
    var rest := text[BUFSIZE..];
    CutLineEnd(text);
    NothingFound(pattern);
    if rest != [] {
      LineEndSpec(text);
      assert rest[..0] == [];
      assert Reported(rest, pattern) == Reported(AfterLine(text), pattern);
    }
  }

  /** What is lost is lost, however the text is cut in two. */
  lemma LostAnyway(text: seq<byte>, n: nat, pattern: seq<byte>)
    requires n <= |text| && Lost(text, pattern)
    ensures Reported(text[..n], pattern) + Reported(text[n..], pattern) != Matching(text, pattern)
  {
    var line :| line in AllLines(text) && Spoiled(line, pattern);
    if pattern == [] {
      LinesFromText(text, line, NUL);
      EmptyPatternMatchesNothing(text);
      assert text == text[..n] + text[n..];
      if NUL in text[..n] {
        EmptyPatternFindsNul(text[..n]);
      } else {
        EmptyPatternFindsNul(text[n..]);
      }
    } else {
      MatchingHasHits(text, pattern, line);
      ReportedShort(text[..n], pattern);
      ReportedShort(text[n..], pattern);
    }
  }

  /** The scan reports exactly the lines that contain the pattern, once each and
      in order, if and only if none of those lines is longer than the buffer or
      holds a NUL byte. */
  lemma ReportedExactly(text: seq<byte>, pattern: seq<byte>)
    ensures Reported(text, pattern) == Matching(text, pattern) <==> !Lost(text, pattern)
  {
    hide Lost, Matching, Piece, AfterPiece, IfFound;
    if !Lost(text, pattern) {
      ReportedUnlessLost(text, pattern);
    } else {
      LostAnyway(text, 0, pattern);
      assert text[..0] == [] && text[0..] == text;
      assert Reported([], pattern) == [];
    }
  }

  /** In a text without NUL bytes, only lines beyond the buffer can be lost. */
  lemma LostWithoutNul(text: seq<byte>, pattern: seq<byte>)
    requires NUL !in text
    ensures Lost(text, pattern) <==> exists line :: line in AllLines(text) && |line| > BUFSIZE && Hit(line, pattern)
  {
    forall line | line in AllLines(text) ensures NUL !in line {
      if NUL in line {
        LinesFromText(text, line, NUL);
      }
    }
  }
}
