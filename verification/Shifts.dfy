/** What NUL bytes do to grep: a partial line is shifted to the front of the buffer
    by a string copy, which stops at the first of them. */
module Shifts {
  import opened Prelude
  import opened Bytes
  import opened Lines
  import opened Cuts

  /** A partial line after its shift: up to and including its first NUL byte it is
      itself, beyond that it is what the front of the buffer held before. */
  ghost function Shifted(line: seq<byte>, below: seq<byte>): (r: seq<byte>)
    requires |line| <= |below|
    ensures |r| == |line|
  {
    var z := |Visible(line)|;
    if z == |line| then line else line[..z + 1] + below[z + 1..|line|]
  }

  /** A shift is faithful exactly if the line holds no NUL byte, or nothing but
      what was there already behind its first one. */
  lemma ShiftedExactly(line: seq<byte>, below: seq<byte>)
    requires |line| <= |below|
    ensures var z := |Visible(line)|;
      && (z == |line| <==> NUL !in line)
      && (Shifted(line, below) == line <==> z == |line| || line[z + 1..] == below[z + 1..|line|])
  {
    VisibleSpec(line);
    var z := |Visible(line)|;
    if z < |line| {
      assert line == line[..z + 1] + line[z + 1..];
      assert Shifted(line, below)[z + 1..] == below[z + 1..|line|];
    }
  }

  /** A shift that loses what follows a NUL byte. */
  lemma ShiftedExample()
    ensures Shifted([A, NUL, A], [B, B, B]) == [A, NUL, B]
  {
    VisibleSpec([A, NUL, A]);
    assert [A, NUL, A][..1] == [A];
  }

  /** Where the partial line at the end of a buffer starts. */
  ghost function TailStart(window: seq<byte>): (p: nat)
    ensures p <= |window| && (p == 0 || window[p - 1] == NEWLINE)
    ensures forall i :: p <= i < |window| ==> window[i] != NEWLINE
  {
    LineStart(window, |window|)
  }

  lemma TailStartIs(window: seq<byte>, p: nat)
    requires p <= |window| && (p == 0 || window[p - 1] == NEWLINE)
    requires forall i :: p <= i < |window| ==> window[i] != NEWLINE
    ensures p == TailStart(window)
  {
  }

  /** If the partial line of a buffer is shifted, the shift is faithful. */
  ghost predicate TailClean(window: seq<byte>) {
    TailStart(window) == 0 || NUL !in window[TailStart(window)..]
  }

  ghost function Window(text: seq<byte>): (r: seq<byte>)
    ensures |r| <= |text| && |r| <= BUFSIZE && (|r| == |text| || |r| == BUFSIZE)
  {
    if |text| < BUFSIZE then text else text[..BUFSIZE]
  }

  /** No partial line with a NUL byte is shifted: buffer by buffer, with or without
      a newline left over in the byte after the buffer. */
  ghost predicate Clean(text: seq<byte>, stale: bool)
    decreases |text|
  {
    if text == [] then true
    else
      var w := Window(text);
      var p := TailStart(w);
      if |w| == BUFSIZE && stale then Clean(text[BUFSIZE..], w[BUFSIZE - 1] == NEWLINE)
      else if p == 0 || p == |w| then Clean(text[|w|..], stale)
      else NUL !in w[p..] && Clean(text[p..], stale)
  }

  lemma {:induction false} CleanWithoutNul(text: seq<byte>, stale: bool)
    requires NUL !in text
    ensures Clean(text, stale)
    decreases |text|
  {
    if text != [] {
      var w := Window(text);
      var p := TailStart(w);
      if |w| == BUFSIZE && stale {
        CleanWithoutNul(text[BUFSIZE..], w[BUFSIZE - 1] == NEWLINE);
      } else if p == 0 || p == |w| {
        CleanWithoutNul(text[|w|..], stale);
      } else {
        CleanWithoutNul(text[p..], stale);
      }
    }
  }

  /** A text that fits the buffer is clean, whatever it holds, if it ends with a line. */
  lemma CleanIfShort(text: seq<byte>, stale: bool)
    requires |text| <= BUFSIZE && EndsLine(text)
    ensures Clean(text, stale)
  {
    if text != [] {
      assert Window(text) == text;
      TailStartIs(text, |text|);
      assert text[|text|..] == [];
    }
  }

  /** In the line x, NUL, ab the pattern ab is found, and only the x is printed. */
  lemma NulLineExample(x: byte, stale: bool)
    requires x != NUL && x != NEWLINE
    ensures var text := [x, NUL, A, B, NEWLINE];
      && Clean(text, stale)
      && Scanned(text, [A, B], stale) == [[x]]
      && Matching(text, [A, B]) == [[x, NUL, A, B]]
  {
    var text, line := [x, NUL, A, B, NEWLINE], [x, NUL, A, B];
    CleanIfShort(text, stale);
    ScannedShort(text, [A, B]);
    assert text == line + [NEWLINE];
    LineThenTail(line, [NEWLINE]);
    ReportedLine(line, [NEWLINE], [A, B]);
    ReportedShortLine(line, [A, B]);
    assert OccursAt(line, [A, B], 2);
    VisibleSpec(line);
    assert Visible(line) == [x] by {
      assert line[1..][0] == NUL;
    }
    assert Behind([NEWLINE]) == [] && Reported([], [A, B]) == [];
    assert Matching(text, [A, B]) == IfHit(line, [A, B]) + Matching([], [A, B]);
  }
}
