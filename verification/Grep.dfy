/** grep: a refill buffer with lines terminated in place and partial lines shifted down. */
module Grep {
  import opened Prelude
  import opened Bytes
  import opened Image
  import opened Descriptors
  import opened Lines
  import opened Cuts
  import opened Shifts
  import Kernel
  import Memory
  import Programs

  /** The text that reports lines of a file. */
  ghost function Render(fname: seq<byte>, lines: seq<seq<byte>>): seq<byte> {
    if lines == [] then []
    else fname + Programs.Ascii(":") + lines[0] + Programs.Ascii("\n") + Render(fname, lines[1..])
  }

  /** The report of a line, in bytes: the name, a colon, the line, a newline. */
  lemma RenderLine(fname: seq<byte>, line: seq<byte>)
    ensures Render(fname, [line]) == fname + [58] + line + [10]
  {
    assert Programs.Ascii(":") == [58] && Programs.Ascii("\n") == [10];
    assert Render(fname, []) == [];
  }

  lemma {:induction false} RenderConcat(fname: seq<byte>, a: seq<seq<byte>>, b: seq<seq<byte>>)
    ensures Render(fname, a + b) == Render(fname, a) + Render(fname, b)
  {
    if a == [] {
      assert a + b == b;
    } else {
      assert (a + b)[1..] == a[1..] + b;
      RenderConcat(fname, a[1..], b);
    }
  }

  lemma OccursAtStart(text: seq<byte>, s: seq<byte>, i: nat)
    requires i < |s|
    ensures OccursAt(text, s, 0) ==> i < |text| && text[i] == s[i]
  {
    if OccursAt(text, s, 0) {
      assert text[0..|s|][i] == s[i];
    }
  }

  /** ece391_strncmp of memory at `at`, with a NUL at `end`, against a whole string. */
  method Ece391Strncmp(m: array<byte>, at: nat, s: seq<byte>, ghost end: nat) returns (r: int)
    requires at <= end < m.Length && m[end] == NUL && NUL !in s
    ensures r == 0 <==> OccursAt(m[at..end], s, 0)
  {
    var i, n := 0, |s|;
    if 0 == n {
      return 0;
    }
    while m[at + i] == s[i]
      invariant 0 <= i < |s| && n == |s| - i && at + i <= end
      invariant forall j :: 0 <= j < i ==> m[at + j] == s[j]
      decreases n
    {
      assert s[i] in s;
      n := n - 1;
      if m[at + i] == NUL || n == 0 {
        assert m[at..end][0..|s|] == s;
        return 0;
      }
      i := i + 1;
    }
    ghost var text := m[at..end];
    OccursAtStart(text, s, i);
    return m[at + i] as int - s[i] as int;
  }

  /** The search loop: is the pattern found anywhere in the line `start..end`? Its
      first character is compared first, which for the empty pattern is the NUL. */
  method SearchLine(m: array<byte>, start: nat, end: nat, s: seq<byte>) returns (found: bool)
    requires start <= end < m.Length && m[end] == NUL && NUL !in s
    ensures found <==> Found(m[start..end], s)
  {
    ghost var line := m[start..end];
    var first := if s == [] then NUL else s[0];
    var check := start;
    while check < end
      invariant start <= check <= end
      invariant s != [] ==> forall k :: 0 <= k < check - start ==> !OccursAt(line, s, k)
      invariant s == [] ==> forall k :: 0 <= k < check - start ==> line[k] != NUL
    {
      SuffixOccurs(line, s, check - start);
      assert line[check - start..] == m[check..end];
      if first == m[check] {
        var r := Ece391Strncmp(m, check, s, end);
        if r == 0 {
          return true;
        }
      } else if s != [] {
        OccursAtStart(line[check - start..], s, 0);
      }
      check := check + 1;
    }
    return false;
  }

  lemma SuffixOccurs(line: seq<byte>, s: seq<byte>, k: nat)
    requires k <= |line|
    ensures OccursAt(line[k..], s, 0) <==> OccursAt(line, s, k)
  {
    if k + |s| <= |line| {
      SliceOfSlice(line, k, |line|, 0, |s|);
    }
  }

  /** The inner scan for the end of a line. */
  method FindLineEnd(data: array<byte>, lineStart: nat, last: nat) returns (lineEnd: nat)
    requires lineStart <= last < data.Length
    ensures lineStart <= lineEnd <= last && lineEnd - lineStart == LineEnd(View(data[..], lineStart, last))
    ensures lineEnd < last ==> data[lineEnd] == NEWLINE
    ensures forall j :: lineStart <= j < lineEnd ==> data[j] != NEWLINE
  {
    lineEnd := lineStart;
    while lineEnd < last && NEWLINE != data[lineEnd]
      invariant lineStart <= lineEnd <= last
      invariant forall j :: lineStart <= j < lineEnd ==> data[j] != NEWLINE
    {
      lineEnd := lineEnd + 1;
    }
    ghost var window := View(data[..], lineStart, last);
    assert forall i :: 0 <= i < |window| ==> window[i] == data[lineStart + i];
    LineEndIs(window, lineEnd - lineStart);
  }

  /** The four writes that report a line. */
  method PrintHit(k: Kernel.Kernel, fname: seq<byte>, line: seq<byte>)
    requires k.Valid()
    modifies k`screen
    ensures k.Valid()
    ensures k.screen == old(k.screen) + Render(fname, [line])
  {
    ghost var colon, newline := Programs.Ascii(":"), Programs.Ascii("\n");
    var w := k.Write(1, fname);
    w := k.Write(1, Programs.Ascii(":"));
    w := k.Write(1, line);
    w := k.Write(1, Programs.Ascii("\n"));
    assert Render(fname, [line]) == fname + colon + line + newline + Render(fname, []);
    FourWrites(old(k.screen), fname, colon, line, newline);
  }

  lemma FourWrites(screen: seq<byte>, a: seq<byte>, b: seq<byte>, c: seq<byte>, d: seq<byte>)
    ensures screen + a + b + c + d == screen + (a + b + c + d + [])
  {
  }

  /** Reports the line `start..end` if the pattern is found in it; what is printed
      ends at the first NUL. */
  method ReportLine(k: Kernel.Kernel, s: seq<byte>, fname: seq<byte>, data: array<byte>, start: nat, end: nat)
    requires k.Valid() && NUL !in s
    requires start <= end < data.Length && data[end] == NUL
    modifies k`screen
    ensures k.Valid()
    ensures k.screen == old(k.screen) + Render(fname, IfFound(data[start..end], s))
  {
    hide Found;
    var found := SearchLine(data, start, end, s);
    if found {
      ghost var line := data[start..end];
      VisibleSpec(line);
      assert IsCString(data[..], start, Visible(line)) by {
        assert data[start..end] == line;
      }
      var len := Strlen(data, start, Visible(line));
      assert data[start..start + len] == line[..len];
      PrintHit(k, fname, data[start..start + len]);
    } else {
      assert Render(fname, IfFound(data[start..end], s)) == [];
    }
  }

  lemma LineInView(window: seq<byte>, rest: seq<byte>)
    requires LineEnd(window) < |window| <= BUFSIZE
    ensures Piece(window + rest) == window[..LineEnd(window)]
    ensures AfterPiece(window + rest) == window[LineEnd(window) + 1..] + rest
  {
    hide LineEnd;
    LineEndOfPrefix(window, rest);
    var n := LineEnd(window);
    ConcatParts(window, rest, n);
    ConcatParts(window, rest, n + 1);
    assert LineEnd(window + rest) == n < |window + rest|;
  }

  lemma FullBufferInView(window: seq<byte>, rest: seq<byte>)
    requires LineEnd(window) == |window| == BUFSIZE
    ensures Piece(window + rest) == window
    ensures AfterPiece(window + rest) == rest
  {
    LineEndOfPrefix(window, rest);
    ConcatParts(window, rest, BUFSIZE);
    assert window[..BUFSIZE] == window && window[BUFSIZE..] + rest == rest;
  }

  lemma EndInView(window: seq<byte>)
    requires LineEnd(window) == |window| <= BUFSIZE
    ensures Piece(window) == window
    ensures AfterPiece(window) == []
  {
    assert window[..|window|] == window;
  }

  /** The text left in view after the line that ends at `n`. */
  ghost function Beyond(window: seq<byte>, n: nat): seq<byte> {
    if n < |window| then window[n + 1..] else []
  }

  /** When a line ends in the buffer, or the buffer holds all there is, or it
      holds a full 1024 bytes, the scan's next line is the next piece. */
  lemma NextPiece(window: seq<byte>, rest: seq<byte>, s: seq<byte>, fname: seq<byte>)
    requires |window| <= BUFSIZE
    requires LineEnd(window) < |window| || rest == [] || |window| == BUFSIZE
    ensures var n := LineEnd(window);
      Render(fname, Reported(window + rest, s)) ==
      Render(fname, IfFound(window[..n], s)) + Render(fname, Reported(Beyond(window, n) + rest, s))
  {
    var text, n := window + rest, LineEnd(window);
    if n < |window| {
      LineInView(window, rest);
    } else {
      assert window[..n] == window && [] + rest == rest;
      if |window| == BUFSIZE {
        FullBufferInView(window, rest);
      } else {
        assert text == window;
        EndInView(window);
      }
    }
    if text == [] {
      assert Reported(text, s) == [] && Beyond(window, n) + rest == [] && IfFound(window[..n], s) == [];
      assert Render(fname, []) + Render(fname, []) == Render(fname, []);
    } else {
      RenderConcat(fname, IfFound(Piece(text), s), Reported(AfterPiece(text), s));
    }
  }

  /** What has been printed and what the text from here on will still report. */
  ghost function Outcome(screen: seq<byte>, text: seq<byte>, s: seq<byte>, fname: seq<byte>): seq<byte> {
    screen + Render(fname, Reported(text, s))
  }

  lemma OutcomeStep(screen: seq<byte>, window: seq<byte>, rest: seq<byte>, s: seq<byte>, fname: seq<byte>)
    requires |window| <= BUFSIZE
    requires LineEnd(window) < |window| || rest == [] || |window| == BUFSIZE
    ensures var n := LineEnd(window);
      Outcome(screen + Render(fname, IfFound(window[..n], s)), Beyond(window, n) + rest, s, fname) ==
      Outcome(screen, window + rest, s, fname)
  {
    NextPiece(window, rest, s, fname);
    var n := LineEnd(window);
    var a, b := Render(fname, IfFound(window[..n], s)), Render(fname, Reported(Beyond(window, n) + rest, s));
    ConcatAssociates(screen, a, b);
  }

  /** The bytes of the buffer from `from` to `last`; none if that is backwards. */
  ghost function View(m: seq<byte>, from: nat, last: nat): (r: seq<byte>)
    requires last <= |m|
    ensures |r| == if from < last then last - from else 0
  {
    if from < last then m[from..last] else []
  }

  lemma ViewParts(m: seq<byte>, from: nat, end: nat, last: nat)
    requires from <= end <= last <= |m|
    ensures View(m, from, last)[..end - from] == m[from..end]
    ensures Beyond(View(m, from, last), end - from) == View(m, end + 1, last)
  {
    if from < last {
      SliceParts(m, from, last, end - from);
      if end < last {
        SliceParts(m, from, last, end + 1 - from);
      }
    }
  }

  /** Terminating a line in place leaves the line and the text beyond it as they were. */
  method TerminateLine(data: array<byte>, from: nat, end: nat, ghost last: nat)
    requires from <= end <= last < data.Length
    modifies data
    ensures data[end] == NUL && forall j :: 0 <= j < data.Length && j != end ==> data[j] == old(data[j])
    ensures data[from..end] == old(data[from..end])
    ensures View(data[..], end + 1, last) == old(View(data[..], end + 1, last))
  {
    data[end] := NUL;
  }

  /** A line of the buffer is terminated in place and searched. */
  method ProcessLine(k: Kernel.Kernel, s: seq<byte>, fname: seq<byte>, data: array<byte>, from: nat, end: nat,
                     ghost last: nat, ghost rest: seq<byte>)
    requires k.Valid() && NUL !in s && data != k.fs.img
    requires data.Length == BUFSIZE + 1 && from <= end <= last <= BUFSIZE
    requires end - from == LineEnd(View(data[..], from, last))
    requires end < last || rest == [] || last - from == BUFSIZE
    modifies k`screen, data
    ensures k.Valid() && old(k.screen) <= k.screen
    ensures data[end] == NUL && forall j :: 0 <= j < data.Length && j != end ==> data[j] == old(data[j])
    ensures Outcome(k.screen, View(data[..], end + 1, last) + rest, s, fname) ==
            old(Outcome(k.screen, View(data[..], from, last) + rest, s, fname))
  {
    hide Outcome, View, Beyond, Render, IfFound, LineEnd;
    ghost var screen, line := k.screen, data[from..end];
    OutcomeStep(screen, View(data[..], from, last), rest, s, fname);
    ViewParts(data[..], from, end, last);
    TerminateLine(data, from, end, last);
    ReportLine(k, s, fname, data, from, end);
    assert k.screen == screen + Render(fname, IfFound(line, s));
  }

  /** One line of the buffer: it is shifted down if it is partial, otherwise
      reported if the pattern is found in it. A newline left over in the byte after
      a full buffer makes its partial last line look complete. */
  method ScanLine(k: Kernel.Kernel, s: seq<byte>, fname: seq<byte>, data: array<byte>, lineStart: nat, last0: nat, cnt: nat,
                  ghost rest: seq<byte>) returns (next: nat, last: nat, done: bool)
    requires k.Valid() && NUL !in s && data != k.fs.img
    requires data.Length == BUFSIZE + 1 && last0 <= BUFSIZE && (lineStart < last0 || lineStart == 0)
    requires data[BUFSIZE] != NEWLINE || rest == []
    requires last0 < BUFSIZE || cnt == 0 ==> rest == []
    modifies k`screen, data
    ensures k.Valid() && old(k.screen) <= k.screen
    ensures !done ==> last == last0 && lineStart < next < last && old(data[next - 1]) == NEWLINE
    ensures !done ==> forall j :: next <= j < data.Length ==> data[j] == old(data[j])
    ensures done ==> next == 0 && last < BUFSIZE && (cnt == 0 ==> last == 0)
    ensures data[BUFSIZE] == old(data[BUFSIZE]) || data[BUFSIZE] == NUL
    ensures done && old(data[BUFSIZE]) == NEWLINE ==>
      if last0 < BUFSIZE then data[BUFSIZE] == NEWLINE
      else last == 0 && (data[BUFSIZE] == NEWLINE <==> old(data[BUFSIZE - 1]) == NEWLINE)
    ensures done && last != 0 ==>
      && 0 < lineStart < last0 && (forall j :: lineStart <= j < last0 ==> old(data[j]) != NEWLINE)
      && View(data[..], 0, last) == Shifted(old(data[lineStart..last0]), old(data[..])) && k.screen == old(k.screen)
    ensures done && last == 0 && cnt != 0 && old(data[last0]) != NEWLINE && last0 > 0 ==>
      old(data[last0 - 1]) == NEWLINE || (lineStart == 0 && forall j :: 0 <= j < last0 ==> old(data[j]) != NEWLINE)
    ensures !done || last == 0 ==>
      Outcome(k.screen, View(data[..], next, last) + rest, s, fname) ==
      old(Outcome(k.screen, View(data[..], lineStart, last0) + rest, s, fname))
  {
    hide Outcome, LineEnd, Reported, Render;
    last := last0;
    var lineEnd := FindLineEnd(data, lineStart, last);
    if NEWLINE != data[lineEnd] && 0 != cnt && lineStart != 0 {
      ShiftDown(data, lineStart, last);
      return 0, last - lineStart, true;
    }
    ProcessLine(k, s, fname, data, lineStart, lineEnd, last, rest);
    next := lineEnd + 1;
    done := next >= last;
    if done {
      assert View(data[..], next, last) == View(data[..], 0, 0);
      next, last := 0, 0;
    }
  }

  /** One round of the scan over a buffer holding `last0` bytes, `cnt` of them new. */
  method ScanBuffer(k: Kernel.Kernel, s: seq<byte>, fname: seq<byte>, data: array<byte>, last0: nat, cnt: nat,
                    ghost rest: seq<byte>) returns (last: nat)
    requires k.Valid() && NUL !in s && data != k.fs.img
    requires data.Length == BUFSIZE + 1 && last0 <= BUFSIZE
    requires data[BUFSIZE] != NEWLINE || rest == []
    requires last0 < BUFSIZE || cnt == 0 ==> rest == []
    modifies k`screen, data
    ensures k.Valid() && old(k.screen) <= k.screen
    ensures Settled(old(data[..last0]), old(data[..]), data[..], last, cnt)
    ensures last == 0 || TailClean(old(data[..last0])) ==>
      Outcome(k.screen, View(data[..], 0, last) + rest, s, fname) ==
      old(Outcome(k.screen, View(data[..], 0, last0) + rest, s, fname))
  {
    hide Outcome, LineEnd, View, TailStart, TailClean, Shifted, Settled;
    last := last0;
    var lineStart, done := 0, false;
    ghost var window, was := data[..last0], data[..];
    while !done
      invariant k.Valid() && old(k.screen) <= k.screen
      invariant !done ==> last == last0 && (lineStart < last || lineStart == 0)
      invariant !done ==> lineStart == 0 || window[lineStart - 1] == NEWLINE
      invariant !done ==> forall j :: lineStart <= j < data.Length ==> data[j] == was[j]
      invariant done ==> lineStart == 0 && last < BUFSIZE && Settled(window, was, data[..], last, cnt)
      invariant !done || last == 0 || TailClean(window) ==>
        Outcome(k.screen, View(data[..], lineStart, last) + rest, s, fname) ==
        old(Outcome(k.screen, View(data[..], 0, last0) + rest, s, fname))
      decreases !done, last - lineStart
    {
      ghost var from, below := lineStart, data[..];
      lineStart, last, done := ScanLine(k, s, fname, data, lineStart, last, cnt, rest);
      if done {
        EndOfScan(window, was, below, data[..], from, last, cnt);
      }
    }
  }

  /** What the scan of a buffer leaves in it: nothing, or its partial line, which is
      intact if it was clean; and what becomes of a newline left over after it. */
  ghost predicate Settled(window: seq<byte>, was: seq<byte>, now: seq<byte>, last: nat, cnt: nat) {
    && |window| <= BUFSIZE && |was| == |now| == BUFSIZE + 1
    && last < BUFSIZE && (cnt == 0 ==> last == 0)
    && (was[BUFSIZE] != NEWLINE ==> now[BUFSIZE] != NEWLINE)
    && (was[BUFSIZE] == NEWLINE ==>
         if |window| < BUFSIZE then now[BUFSIZE] == NEWLINE
         else last == 0 && (now[BUFSIZE] == NEWLINE <==> was[BUFSIZE - 1] == NEWLINE))
    && (last == 0 && cnt != 0 && was[|window|] != NEWLINE ==> TailStart(window) == 0 || TailStart(window) == |window|)
    && (last != 0 ==> 0 < last < |window| && last == |window| - TailStart(window)
                      && (TailClean(window) ==> View(now, 0, last) == window[TailStart(window)..]))
  }

  /** The line at which a scan ends is the partial line of the buffer, or there is none. */
  lemma EndOfScan(window: seq<byte>, was: seq<byte>, below: seq<byte>, now: seq<byte>, from: nat, last: nat, cnt: nat)
    requires |window| <= BUFSIZE && |was| == |below| == |now| == BUFSIZE + 1 && window == was[..|window|]
    requires (from < |window| || from == 0) && (from == 0 || window[from - 1] == NEWLINE)
    requires forall j :: from <= j < |was| ==> below[j] == was[j]
    requires last < BUFSIZE && (cnt == 0 ==> last == 0)
    requires now[BUFSIZE] == below[BUFSIZE] || now[BUFSIZE] == NUL
    requires below[BUFSIZE] == NEWLINE ==>
      if |window| < BUFSIZE then now[BUFSIZE] == NEWLINE
      else last == 0 && (now[BUFSIZE] == NEWLINE <==> below[BUFSIZE - 1] == NEWLINE)
    requires last != 0 ==>
      && 0 < from < |window| && (forall j :: from <= j < |window| ==> below[j] != NEWLINE)
      && View(now, 0, last) == Shifted(below[from..|window|], below)
    requires last == 0 && cnt != 0 && below[|window|] != NEWLINE && window != [] ==>
      below[|window| - 1] == NEWLINE || (from == 0 && forall j :: 0 <= j < |window| ==> below[j] != NEWLINE)
    ensures Settled(window, was, now, last, cnt)
    ensures last != 0 && TailClean(window) ==> View(now, 0, last) == View(below, from, |window|)
  {
    hide TailStart, Shifted;
    if window != [] && window[|window| - 1] == NEWLINE {
      TailStartIs(window, |window|);
    }
    if forall j :: from <= j < |window| ==> below[j] != NEWLINE {
      TailStartIs(window, from);
      assert below[from..|window|] == window[from..];
      ShiftedExactly(below[from..|window|], below);
    }
    ViewLength(now, last);
  }

  lemma ViewLength(m: seq<byte>, last: nat)
    requires last <= |m|
    ensures |View(m, 0, last)| == last
  {
  }

  /** A partial line moves to the front of the buffer, by a string copy onto itself,
      which ends at its first NUL. */
  method ShiftDown(data: array<byte>, lineStart: nat, last: nat)
    requires data.Length == BUFSIZE + 1 && 0 < lineStart <= last <= BUFSIZE
    modifies data
    ensures View(data[..], 0, last - lineStart) == Shifted(old(data[lineStart..last]), old(data[..]))
    ensures data[BUFSIZE] == if last < BUFSIZE then old(data[BUFSIZE]) else NUL
  {
    ghost var line, below := data[lineStart..last], data[..];
    VisibleSpec(line);
    data[last] := NUL;
    assert data[lineStart..last] == line;
    assert IsCString(data[..], lineStart, Visible(line));
    Memory.StrcpyDown(data, 0, lineStart, Visible(line));
    ShiftedBytes(line, below, data[..]);
  }

  lemma ShiftedBytes(line: seq<byte>, below: seq<byte>, m: seq<byte>)
    requires |line| < |below| == |m|
    requires var z := |Visible(line)|;
      && (forall j :: 0 <= j < z ==> m[j] == line[j])
      && (z < |line| ==> m[z] == NUL && forall j :: z < j < |line| ==> m[j] == below[j])
    ensures View(m, 0, |line|) == Shifted(line, below)
  {
    hide Visible;
    VisibleSpec(line);
    var z, view := |Visible(line)|, View(m, 0, |line|);
    assert forall j :: 0 <= j < |line| ==> view[j] == m[j];
    if z < |line| {
      assert view[..z + 1] == line[..z + 1];
      assert view[z + 1..] == below[z + 1..|line|];
    }
  }

  /** The refill: as many bytes as fit after `last`, short only at the end of the file. */
  method FillBuffer(k: Kernel.Kernel, fd: int, fname: seq<byte>, data: array<byte>, last: nat) returns (cnt: int)
    requires k.Valid() && 2 <= fd < OPS_SIZE && Reading(k, fd, fname)
    requires data.Length == BUFSIZE + 1 && last < BUFSIZE && data != k.fs.img
    modifies k`dirReadCount, k.fde, data
    ensures k.Valid() && Reading(k, fd, fname) && k.dirReadCount == old(k.dirReadCount)
    ensures forall j :: 0 <= j < OPS_SIZE && j != fd ==> k.fde[j] == old(k.fde[j])
    ensures var file, pos := Text(k.vol, fname), old(k.fde[fd]).filePos;
      && cnt == Min(BUFSIZE - last, |file| - pos)
      && k.fde[fd].filePos == pos + cnt
      && (forall j :: last <= j < last + cnt ==> data[j] == file[j - last + pos])
      && (forall j :: 0 <= j < data.Length && !(last <= j < last + cnt) ==> data[j] == old(data[j]))
  {
    if k.fde[fd].fop == RtcOps {
      cnt := k.Read(fd, data, last, BUFSIZE - last);
    } else {
      cnt := FillFromFile(k, fd, fname, data, last);
    }
  }

  method FillFromFile(k: Kernel.Kernel, fd: int, fname: seq<byte>, data: array<byte>, last: nat) returns (cnt: int)
    requires k.Valid() && 2 <= fd < OPS_SIZE && Reading(k, fd, fname) && OnFile(k.vol, k.fde[fd])
    requires data.Length == BUFSIZE + 1 && last < BUFSIZE && data != k.fs.img
    modifies k`dirReadCount, k.fde, data
    ensures k.Valid() && Reading(k, fd, fname) && k.dirReadCount == old(k.dirReadCount)
    ensures forall j :: 0 <= j < OPS_SIZE && j != fd ==> k.fde[j] == old(k.fde[j])
    ensures var file, pos := Text(k.vol, fname), old(k.fde[fd]).filePos;
      && cnt == Min(BUFSIZE - last, |file| - pos)
      && k.fde[fd].filePos == pos + cnt
      && (forall j :: last <= j < last + cnt ==> data[j] == file[j - last + pos])
      && (forall j :: 0 <= j < data.Length && !(last <= j < last + cnt) ==> data[j] == old(data[j]))
  {
    ghost var before, was := k.State(), data[..];
    ReadStepOnFile(k.vol, before, fd, BUFSIZE - last);
    cnt := k.Read(fd, data, last, BUFSIZE - last);
    ghost var reply := ReadStep(k.vol, before, fd, BUFSIZE - last).1;
    if reply.data == [] {
      assert data[..] == was;
    } else {
      Memory.StoredReads(was, data[..], last, reply.data);
    }
  }

  /** What reading a directory entry delivers: a file's contents, or nothing from the clock. */
  ghost function Text(vol: seq<File>, fname: seq<byte>): seq<byte>
    requires Lookup(vol, fname).Some?
  {
    Lookup(vol, fname).value.contents
  }

  /** The descriptor reads the named file, or the clock. */
  ghost predicate Reading(k: Kernel.Kernel, fd: int, fname: seq<byte>)
    requires k.Valid() && 0 <= fd < OPS_SIZE
    reads k`dirReadCount, k.fde, k.fs, k.fs.img, k.fs.dirEntries
  {
    && InUse(k.fde[fd]) && k.fde[fd].fileName == fname && Lookup(k.vol, fname).Some?
    && (OnFile(k.vol, k.fde[fd]) || (k.fde[fd].fop == RtcOps && k.fde[fd].filePos == 0 && Text(k.vol, fname) == []))
  }

  /** What has been printed, and what the scan of the text ahead will still report. */
  ghost function Outlook(screen: seq<byte>, text: seq<byte>, s: seq<byte>, fname: seq<byte>, stale: bool): seq<byte> {
    screen + Render(fname, Scanned(text, s, stale))
  }

  /** The text in the buffer and the unread file. */
  ghost function Ahead(k: Kernel.Kernel, fd: int, fname: seq<byte>, data: array<byte>, last: nat): seq<byte>
    requires k.Valid() && 0 <= fd < OPS_SIZE && Reading(k, fd, fname) && last <= data.Length
    reads k`dirReadCount, k.fde, k.fs, k.fs.img, k.fs.dirEntries, data
  {
    View(data[..], 0, last) + Text(k.vol, fname)[k.fde[fd].filePos..]
  }

  /** The outlook from the buffer and the unread file. */
  ghost function Progress(k: Kernel.Kernel, fd: int, s: seq<byte>, fname: seq<byte>, data: array<byte>, last: nat): seq<byte>
    requires k.Valid() && 0 <= fd < OPS_SIZE && Reading(k, fd, fname) && last <= data.Length == BUFSIZE + 1
    reads k`dirReadCount, k`screen, k.fde, k.fs, k.fs.img, k.fs.dirEntries, data
  {
    Outlook(k.screen, Ahead(k, fd, fname, data, last), s, fname, data[BUFSIZE] == NEWLINE)
  }

  /** The buffer between rounds holds a partial line; while a newline is left over
      after it, there is none unless the file is at its end. */
  ghost predicate Ready(k: Kernel.Kernel, fd: int, fname: seq<byte>, data: array<byte>, last: nat)
    requires k.Valid() && 0 <= fd < OPS_SIZE && Reading(k, fd, fname)
    reads k`dirReadCount, k.fde, k.fs, k.fs.img, k.fs.dirEntries, data
  {
    && data.Length == BUFSIZE + 1 && last < BUFSIZE
    && (data[BUFSIZE] == NEWLINE ==> last == 0 || k.fde[fd].filePos == |Text(k.vol, fname)|)
  }

  /** A scanned buffer, with the text behind it. */
  lemma OutlookAfterScan(screen0: seq<byte>, window: seq<byte>, screen: seq<byte>, left: seq<byte>, rest: seq<byte>,
                         s: seq<byte>, fname: seq<byte>, stale0: bool, stale: bool)
    requires Outcome(screen, left + if stale0 then [] else rest, s, fname) ==
             Outcome(screen0, window + if stale0 then [] else rest, s, fname)
    requires |window| <= BUFSIZE && |left| < BUFSIZE && (!stale0 ==> !stale)
    requires stale0 ==>
      if |window| < BUFSIZE then stale && rest == [] else left == [] && (stale <==> window[BUFSIZE - 1] == NEWLINE)
    ensures Outlook(screen, left + rest, s, fname, stale) == Outlook(screen0, window + rest, s, fname, stale0)
  {
    hide Scanned, Reported, Render;
    if !stale0 {
      ScannedPlainly(left + rest, s);
      ScannedPlainly(window + rest, s);
    } else if |window| < BUFSIZE {
      assert left + [] == left && window + [] == window;
      ScannedShort(left, s);
      ScannedShort(window, s);
    } else {
      assert left + [] == [] && window + [] == window && left + rest == rest;
      ScannedBuffer(window, rest, s);
      ScannedShort([], s);
      NothingReported(s, fname);
      RenderConcat(fname, Reported(window, s), Scanned(rest, s, stale));
      ConcatAssociates(screen0, Render(fname, Reported(window, s)), Render(fname, Scanned(rest, s, stale)));
    }
  }

  lemma NothingReported(s: seq<byte>, fname: seq<byte>)
    ensures Reported([], s) == [] && Render(fname, []) == []
  {
  }

  /** What a round makes of a clean text: the partial line and the rest are clean again. */
  lemma CleanAfterScan(window: seq<byte>, left: seq<byte>, rest: seq<byte>, stale0: bool, stale: bool)
    requires Clean(window + rest, stale0) && |window| <= BUFSIZE && (|window| < BUFSIZE ==> rest == [])
    requires !stale0 ==> !stale
    requires stale0 ==>
      if |window| < BUFSIZE then stale else left == [] && (stale <==> window[BUFSIZE - 1] == NEWLINE)
    requires left == [] || (0 < TailStart(window) < |window| && left == window[TailStart(window)..])
    requires left == [] && |window| == BUFSIZE && !stale0 ==> TailStart(window) == 0 || TailStart(window) == |window|
    ensures Clean(left + rest, stale)
  {
    CleanNothing(stale);
    CleanBuffer(window, rest, stale0);
    hide TailStart, Clean;
    assert [] + rest == rest;
  }

  lemma CleanNothing(stale: bool)
    ensures Clean([], stale)
  {
  }

  /** What a clean text says of its first buffer. */
  lemma CleanBuffer(window: seq<byte>, rest: seq<byte>, stale: bool)
    requires Clean(window + rest, stale) && |window| <= BUFSIZE && (|window| < BUFSIZE ==> rest == [])
    ensures var p := TailStart(window);
      window != [] ==>
        if |window| == BUFSIZE && stale then Clean(rest, window[BUFSIZE - 1] == NEWLINE)
        else if p == 0 || p == |window| then Clean(rest, stale)
        else NUL !in window[p..] && Clean(window[p..] + rest, stale)
  {
    hide TailStart;
    var text, p := window + rest, TailStart(window);
    ConcatParts(window, rest, |window|);
    ConcatParts(window, rest, p);
    assert window[|window|..] + rest == rest;
    assert Window(text) == window;
  }

  lemma TailIsClean(window: seq<byte>, rest: seq<byte>, stale: bool)
    requires Clean(window + rest, stale) && |window| <= BUFSIZE && (|window| < BUFSIZE ==> rest == [])
    ensures TailClean(window) || (stale && |window| == BUFSIZE)
  {
    CleanBuffer(window, rest, stale);
    hide Clean;
    if TailStart(window) == |window| {
      assert window[|window|..] == [];
    }
  }

  /** One round of do_one_file: a refill and a scan. While what is ahead is clean,
      the outlook stays the same; the screen only grows in any case. */
  method Round(k: Kernel.Kernel, fd: int, s: seq<byte>, fname: seq<byte>, data: array<byte>, last0: nat)
    returns (cnt: int, last: nat)
    requires k.Valid() && 2 <= fd < OPS_SIZE && Reading(k, fd, fname) && Ready(k, fd, fname, data, last0)
    requires NUL !in s && data != k.fs.img
    modifies k`dirReadCount, k`screen, k.fde, data
    ensures k.Valid() && Reading(k, fd, fname) && Ready(k, fd, fname, data, last) && k.dirReadCount == old(k.dirReadCount)
    ensures forall j :: 0 <= j < OPS_SIZE && j != fd ==> k.fde[j] == old(k.fde[j])
    ensures cnt == 0 ==> last == 0 && k.fde[fd].filePos == |Text(k.vol, fname)|
    ensures cnt != 0 ==> k.fde[fd].filePos > old(k.fde[fd].filePos)
    ensures old(k.screen) <= k.screen
    ensures old(Clean(Ahead(k, fd, fname, data, last0), data[BUFSIZE] == NEWLINE)) ==>
      && Clean(Ahead(k, fd, fname, data, last), data[BUFSIZE] == NEWLINE)
      && Progress(k, fd, s, fname, data, last) == old(Progress(k, fd, s, fname, data, last0))
  {
    hide Outcome, Outlook, Clean, TailStart, TailClean;
    ghost var file, pos, pending := Text(k.vol, fname), k.fde[fd].filePos, View(data[..], 0, last0);
    ghost var stale := data[BUFSIZE] == NEWLINE;
    cnt := FillBuffer(k, fd, fname, data, last0);
    Refilled(pending, data[..], last0, cnt, file, pos);
    ghost var rest, window, screen := file[pos + cnt..], View(data[..], 0, last0 + cnt), k.screen;
    assert window == data[..last0 + cnt];
    last := ScanBuffer(k, s, fname, data, last0 + cnt, cnt, if stale then [] else rest);
    if Clean(window + rest, stale) {
      RoundIsClean(screen, window, k.screen, View(data[..], 0, last), rest, s, fname, stale, data[BUFSIZE] == NEWLINE);
    }
  }

  /** The effect of a round on a clean text. */
  lemma RoundIsClean(screen0: seq<byte>, window: seq<byte>, screen: seq<byte>, left: seq<byte>, rest: seq<byte>,
                     s: seq<byte>, fname: seq<byte>, stale0: bool, stale: bool)
    requires Clean(window + rest, stale0) && |window| <= BUFSIZE && (|window| < BUFSIZE ==> rest == [])
    requires |left| < BUFSIZE && (!stale0 ==> !stale)
    requires stale0 ==>
      if |window| < BUFSIZE then stale else left == [] && (stale <==> window[BUFSIZE - 1] == NEWLINE)
    requires left == [] || TailClean(window) ==>
      Outcome(screen, left + (if stale0 then [] else rest), s, fname) ==
      Outcome(screen0, window + (if stale0 then [] else rest), s, fname)
    requires TailClean(window) ==> left == [] || (0 < TailStart(window) < |window| && left == window[TailStart(window)..])
    requires left == [] && |window| == BUFSIZE && !stale0 ==> TailStart(window) == 0 || TailStart(window) == |window|
    ensures Clean(left + rest, stale)
    ensures Outlook(screen, left + rest, s, fname, stale) == Outlook(screen0, window + rest, s, fname, stale0)
  {
    hide Outcome, Outlook, Clean, TailStart, TailClean;
    TailIsClean(window, rest, stale0);
    CleanAfterScan(window, left, rest, stale0, stale);
    OutlookAfterScan(screen0, window, screen, left, rest, s, fname, stale0, stale);
  }

  /** The loop of do_one_file: rounds until a read reports the end. */
  method ScanFile(k: Kernel.Kernel, fd: int, s: seq<byte>, fname: seq<byte>, data: array<byte>)
    requires k.Valid() && 2 <= fd < OPS_SIZE && Reading(k, fd, fname)
    requires NUL !in s && data != k.fs.img
    requires k.fde[fd].filePos == 0 && data.Length == BUFSIZE + 1
    modifies k`dirReadCount, k`screen, k.fde, data
    ensures k.Valid() && Reading(k, fd, fname) && k.dirReadCount == old(k.dirReadCount)
    ensures forall j :: 0 <= j < OPS_SIZE && j != fd ==> k.fde[j] == old(k.fde[j])
    ensures old(k.screen) <= k.screen
    ensures Clean(Text(k.vol, fname), old(data[BUFSIZE]) == NEWLINE) ==>
      k.screen == old(k.screen) + Render(fname, Scanned(Text(k.vol, fname), s, old(data[BUFSIZE]) == NEWLINE))
  {
    hide Outlook, Clean;
    var last: nat := 0;
    ghost var file, stale := Text(k.vol, fname), data[BUFSIZE] == NEWLINE;
    assert View(data[..], 0, 0) + file[0..] == file;
    while true
      invariant k.Valid() && Reading(k, fd, fname) && Ready(k, fd, fname, data, last) && k.dirReadCount == old(k.dirReadCount)
      invariant forall j :: 0 <= j < OPS_SIZE && j != fd ==> k.fde[j] == old(k.fde[j])
      invariant old(k.screen) <= k.screen
      invariant Clean(file, stale) ==>
        && Clean(Ahead(k, fd, fname, data, last), data[BUFSIZE] == NEWLINE)
        && Progress(k, fd, s, fname, data, last) == Outlook(old(k.screen), file, s, fname, stale)
      decreases |file| - k.fde[fd].filePos
    {
      var cnt;
      cnt, last := Round(k, fd, s, fname, data, last);
      if 0 == cnt {
        break;
      }
    }
    assert View(data[..], 0, 0) + file[|file|..] == [];
    if Clean(file, stale) {
      OutlookAtEnd(k.screen, old(k.screen), file, s, fname, data[BUFSIZE] == NEWLINE, stale);
    }
  }

  /** A refill moves bytes from the file to the buffer without changing the text ahead. */
  lemma Refilled(pending: seq<byte>, m: seq<byte>, last: nat, cnt: nat, file: seq<byte>, pos: nat)
    requires last + cnt <= |m| && pos + cnt <= |file| && pending == View(m, 0, last)
    requires forall j :: last <= j < last + cnt ==> m[j] == file[j - last + pos]
    ensures pending + file[pos..] == View(m, 0, last + cnt) + file[pos + cnt..]
  {
    var a, b := pending + file[pos..], View(m, 0, last + cnt) + file[pos + cnt..];
    assert forall x :: 0 <= x < |a| ==> a[x] == b[x];
  }

  lemma OutlookAtEnd(screen: seq<byte>, screen0: seq<byte>, file: seq<byte>, s: seq<byte>, fname: seq<byte>,
                     stale: bool, stale0: bool)
    requires Outlook(screen, [], s, fname, stale) == Outlook(screen0, file, s, fname, stale0)
    ensures screen == screen0 + Render(fname, Scanned(file, s, stale0))
  {
    ScannedShort([], s);
    NothingReported(s, fname);
  }

  /** do_one_file: searches one regular file, or the clock, for the pattern. `data`
      is the buffer on the stack, of which only the last byte's old contents matter
      if the file is clean; for every file the program ends and only adds output. */
  method DoOneFile(k: Kernel.Kernel, s: seq<byte>, fname: seq<byte>, data: array<byte>) returns (r: int)
    requires k.Valid() && NUL !in s && Copyable(k.vol, fname) && data != k.fs.img && data.Length == BUFSIZE + 1
    requires Lookup(k.vol, fname).Some? ==> Searchable(Lookup(k.vol, fname).value)
    modifies k`dirReadCount, k`screen, k.fde, data
    ensures k.Valid() && k.dirReadCount == old(k.dirReadCount) && Programs.OthersUndisturbed(k)
    ensures old(k.screen) <= k.screen && Used(k.State()) == old(Used(k.State()))
    ensures old(Programs.OpenFails(k.vol, k.State(), fname)) ==>
      r == -1 && k.screen == old(k.screen) + Programs.Ascii("file open failed\n") && k.State() == old(k.State())
    ensures !old(Programs.OpenFails(k.vol, k.State(), fname)) ==>
      && r == 0 && Lookup(k.vol, fname).Some?
      && var stale := old(data[BUFSIZE]) == NEWLINE;
      Clean(Text(k.vol, fname), stale) ==>
        k.screen == old(k.screen) + Render(fname, Scanned(Text(k.vol, fname), s, stale))
  {
    hide Render, Scanned, Clean;
    ghost var before := k.State();
    var fd := OpenForReading(k, fname);
    if fd == -1 {
      var w := k.Write(1, Programs.Ascii("file open failed\n"));
      return -1;
    }
    ScanFile(k, fd, s, fname, data);
    assert Used(k.State()) == Used(before) + {fd};
    CloseFrees(k.vol, k.State(), fd);
    var c := k.Close(fd);
    if -1 == c {
      return -1;
    }
    assert Used(k.State()) == Used(before);
    return 0;
  }

  /** A regular file, or the clock. */
  predicate Searchable(f: File) {
    f.kind != KIND_DIRECTORY
  }

  method OpenForReading(k: Kernel.Kernel, fname: seq<byte>) returns (fd: int)
    requires k.Valid() && Copyable(k.vol, fname)
    requires Lookup(k.vol, fname).Some? ==> Searchable(Lookup(k.vol, fname).value)
    modifies k.fde
    ensures k.Valid()
    ensures fd == -1 <==> old(Programs.OpenFails(k.vol, k.State(), fname))
    ensures fd == -1 ==> k.fde[..] == old(k.fde[..])
    ensures fd != -1 ==>
      && 2 <= fd < OPS_SIZE && fd !in old(Used(k.State()))
      && Reading(k, fd, fname) && k.fde[fd].filePos == 0
      && forall j :: 0 <= j < OPS_SIZE && j != fd ==> k.fde[j] == old(k.fde[j])
  {
    ghost var before := k.State();
    fd := k.Open(fname);
    OpenIsLowestFree(k.vol, before, fname);
    if fd != -1 {
      LookupIsStored(k.vol, fname);
      LookupIsGood(k.vol, fname);
      Programs.FreshDescriptor(k.vol, before, fname);
    }
  }
}
