/** The hosted system calls: the command tokeniser, which cuts its buffer up in
    place, and the joiner that hands the arguments back. */
module Emulate {
  import opened Prelude
  import opened Bytes
  import Memory

  const SLASH: byte := 47
  const LONGEST := 1023
  const MAX_ARGS := 1024            // the places for arguments, and for the NULL after them

  // ---- Words -------------------------------------------------------------------

  predicate Ends(c: byte) {
    c == SPACE || c == NEWLINE
  }

  /** The length of the word at the start of `s`. */
  function WordEnd(s: seq<byte>): (e: nat)
    ensures e <= |s|
    ensures e < |s| ==> Ends(s[e])
    ensures forall k :: 0 <= k < e ==> !Ends(s[k])
  {
    if s == [] || Ends(s[0]) then 0 else 1 + WordEnd(s[1..])
  }

  /** The number of spaces at the start of `s`. */
  function Spaces(s: seq<byte>): (n: nat)
    ensures n <= |s|
    ensures n < |s| ==> s[n] != SPACE
    ensures forall k :: 0 <= k < n ==> s[k] == SPACE
  {
    if s == [] || s[0] != SPACE then 0 else 1 + Spaces(s[1..])
  }

  /** What follows the word at the start of `s` and the character that ends it. */
  function AfterWord(s: seq<byte>): (r: seq<byte>)
    ensures |r| <= |s| && (s != [] ==> |r| < |s|)
  {
    if WordEnd(s) == |s| then [] else s[WordEnd(s) + 1..]
  }

  /** The arguments in `s`: a newline ends a word like a space does, but where a
      word should start it ends the command. */
  function Words(s: seq<byte>): seq<seq<byte>>
    decreases |s|
  {
    var t := s[Spaces(s)..];
    if t == [] || t[0] == NEWLINE then [] else [t[..WordEnd(t)]] + Words(AfterWord(t))
  }

  lemma WordsUnfold(s: seq<byte>)
    ensures var t := s[Spaces(s)..];
      if t == [] || t[0] == NEWLINE then Words(s) == []
      else Words(s) == [t[..WordEnd(t)]] + Words(AfterWord(t)) && |AfterWord(t)| < |s|
  {
  }

  // ---- The tokeniser ---------------------------------------------------------------

  /** `args` are the places of the strings `words` in memory, none of them reaching beyond `limit`. */
  ghost predicate Placed(m: seq<byte>, args: seq<nat>, words: seq<seq<byte>>, limit: nat) {
    |args| == |words| && forall i :: 0 <= i < |args| ==> IsCString(m, args[i], words[i]) && args[i] + |words[i]| <= limit
  }

  /** The command without its program name. */
  function Program(command: seq<byte>): seq<byte> {
    [DOT, SLASH] + command[..WordEnd(command)]
  }

  lemma CutKeeps(m: seq<byte>, args: seq<nat>, words: seq<seq<byte>>, scan: nat)
    requires Placed(m, args, words, scan) && scan < |m|
    ensures Placed(m[scan := NUL], args, words, scan)
  {
  }

  /** The start of ece391_execute: the program name and the arguments become
      strings inside the one buffer. */
  method Tokenise(command: seq<byte>, buf: array<byte>) returns (r: int, args: seq<nat>)
    requires NUL !in command && buf.Length == LONGEST + 3
    modifies buf
    ensures r == if |command| > LONGEST then FAIL else SUCCESS
    ensures r == SUCCESS ==> Placed(buf[..], args, [[DOT, SLASH] + command[..WordEnd(command)]] + Words(AfterWord(command)), buf.Length)
    ensures |args| <= MAX_ARGS / 2
  {
    if |command| > LONGEST {
      return FAIL, [];
    }
    CopyCommand(command, buf);
    var scan := ScanWord(buf, 2, command);
    args := [0];
    r := SUCCESS;
    CStringScan(buf[..], 2, command, WordEnd(command));
    if buf[scan] != NUL {
      scan := CutWord(buf, scan, 0, [DOT, SLASH] + command, WordEnd(command) + 2);
      AfterProgram(command);
      args := ParseArguments(buf, scan, args, [Program(command)], AfterWord(command));
    } else {
      assert Program(command) == [DOT, SLASH] + command && Words([]) == [];
    }
    FewArguments(command, buf[..], args);
  }

  lemma FewArguments(command: seq<byte>, m: seq<byte>, args: seq<nat>)
    requires |command| <= LONGEST && Placed(m, args, [Program(command)] + Words(AfterWord(command)), |m|)
    ensures |args| <= MAX_ARGS / 2
  {
    WordsAreWords(AfterWord(command));
    if command != [] {
      assert |AfterWord(command)| < |command|;
    }
  }

  /** The string "./" followed by the command. */
  method CopyCommand(command: seq<byte>, buf: array<byte>)
    requires NUL !in command && |command| + 2 < buf.Length
    modifies buf
    ensures IsCString(buf[..], 0, [DOT, SLASH] + command) && IsCString(buf[..], 2, command)
  {
    buf[0], buf[1] := DOT, SLASH;
    for i := 0 to |command|
      invariant buf[0] == DOT && buf[1] == SLASH
      invariant forall k :: 2 <= k < i + 2 ==> buf[k] == command[k - 2]
    {
      buf[i + 2] := command[i];
    }
    buf[|command| + 2] := NUL;
  }

  /** Moves on to the end of the word at `at`. */
  method ScanWord(buf: array<byte>, at: nat, ghost s: seq<byte>) returns (scan: nat)
    requires IsCString(buf[..], at, s)
    ensures scan == at + WordEnd(s)
  {
    scan := at;
    CStringScan(buf[..], at, s, 0);
    while buf[scan] != NUL && !Ends(buf[scan])
      invariant at <= scan <= at + WordEnd(s)
      invariant buf[scan] == NUL <==> scan == at + |s|
      invariant scan < at + |s| ==> buf[scan] == s[scan - at]
      decreases at + |s| - scan
    {
      scan := scan + 1;
      CStringScan(buf[..], at, s, scan - at);
    }
  }

  method SkipSpaces(buf: array<byte>, at: nat, ghost s: seq<byte>) returns (scan: nat)
    requires IsCString(buf[..], at, s)
    ensures scan == at + Spaces(s) && IsCString(buf[..], scan, s[Spaces(s)..])
  {
    scan := at;
    CStringScan(buf[..], at, s, 0);
    while buf[scan] == SPACE
      invariant at <= scan <= at + Spaces(s)
      invariant buf[scan] == NUL <==> scan == at + |s|
      invariant scan < at + |s| ==> buf[scan] == s[scan - at]
      decreases at + |s| - scan
    {
      scan := scan + 1;
      CStringScan(buf[..], at, s, scan - at);
    }
  }

  lemma AfterProgram(command: seq<byte>)
    requires WordEnd(command) < |command|
    ensures var s := [DOT, SLASH] + command;
      s[..WordEnd(command) + 2] == Program(command) && s[WordEnd(command) + 3..] == AfterWord(command)
  {
    var prefix := [DOT, SLASH];
    SlicesAfter(prefix, command, WordEnd(command));
    SlicesAfter(prefix, command, WordEnd(command) + 1);
  }

  lemma SlicesAfter<T>(p: seq<T>, s: seq<T>, e: nat)
    requires e <= |s|
    ensures (p + s)[..|p| + e] == p + s[..e] && (p + s)[|p| + e..] == s[e..]
  {
  }

  /** Ends the string at `at` after `e` characters; the rest of it is a string of its own. */
  method CutWord(buf: array<byte>, scan: nat, ghost at: nat, ghost s: seq<byte>, ghost e: nat) returns (next: nat)
    requires IsCString(buf[..], at, s) && e < |s| && scan == at + e
    modifies buf
    ensures next == scan + 1 && buf[..] == old(buf[..])[scan := NUL]
    ensures IsCString(buf[..], at, s[..e]) && IsCString(buf[..], next, s[e + 1..])
  {
    buf[scan] := NUL;
    next := scan + 1;
    assert forall k :: 0 <= k < |s| ==> s[k] in s;
  }

  /** The loop over the arguments. */
  method ParseArguments(buf: array<byte>, at: nat, args0: seq<nat>, ghost words0: seq<seq<byte>>, ghost s: seq<byte>)
    returns (args: seq<nat>)
    requires IsCString(buf[..], at, s) && Placed(buf[..], args0, words0, at)
    modifies buf
    ensures Placed(buf[..], args, words0 + Words(s), buf.Length)
  {
    var scan := at;
    args := args0;
    ghost var words, rest := words0, s;
    hide Words, WordEnd, Spaces, AfterWord, IsCString;
    while true
      invariant IsCString(buf[..], scan, rest) && Placed(buf[..], args, words, scan)
      invariant words + Words(rest) == words0 + Words(s)
      decreases |rest|
    {
      scan := SkipSpaces(buf, scan, rest);
      WordsUnfold(rest);
      rest := rest[Spaces(rest)..];
      CStringScan(buf[..], scan, rest, 0);
      if buf[scan] == NUL || buf[scan] == NEWLINE {
        CutKeeps(buf[..], args, words, scan);
        buf[scan] := NUL;
        return;
      }
      scan, args := OneArgument(buf, scan, args, words, rest);
      PushWord(words, rest[..WordEnd(rest)], Words(AfterWord(rest)));
      words := words + [rest[..WordEnd(rest)]];
      rest := AfterWord(rest);
    }
  }

  lemma PushWord<T>(ws: seq<T>, w: T, more: seq<T>)
    ensures ws + [w] + more == ws + ([w] + more)
  {
  }

  /** One argument is recorded and ended. */
  method OneArgument(buf: array<byte>, at: nat, args0: seq<nat>, ghost words: seq<seq<byte>>, ghost s: seq<byte>)
    returns (scan: nat, args: seq<nat>)
    requires IsCString(buf[..], at, s) && Placed(buf[..], args0, words, at)
    modifies buf
    ensures IsCString(buf[..], scan, AfterWord(s))
    ensures Placed(buf[..], args, words + [s[..WordEnd(s)]], scan)
  {
    args := args0 + [at];
    scan := ScanWord(buf, at, s);
    CStringScan(buf[..], at, s, WordEnd(s));
    if buf[scan] != NUL {
      CutKeeps(buf[..], args0, words, scan);
      scan := CutWord(buf, scan, at, s, WordEnd(s));
    } else {
      assert s[..WordEnd(s)] == s;
    }
  }

  // ---- The joiner --------------------------------------------------------------------

  /** The arguments with single spaces between them. */
  function Join(args: seq<seq<byte>>): seq<byte> {
    if args == [] then []
    else if |args| == 1 then args[0]
    else args[0] + [SPACE] + Join(args[1..])
  }

  function TotalLength(args: seq<seq<byte>>): nat {
    if args == [] then 0 else |args[0]| + TotalLength(args[1..])
  }

  /** One byte separates each argument from the next. */
  lemma {:induction false} JoinLength(args: seq<seq<byte>>)
    ensures |Join(args)| == TotalLength(args) + if args == [] then 0 else |args| - 1
  {
    if |args| == 1 {
      assert TotalLength(args[1..]) == 0;
    } else if args != [] {
      JoinLength(args[1..]);
    }
  }

  predicate IsWord(w: seq<byte>) {
    w != [] && forall k :: 0 <= k < |w| ==> !Ends(w[k])
  }

  predicate AllWords(ws: seq<seq<byte>>) {
    forall i :: 0 <= i < |ws| ==> IsWord(ws[i])
  }

  lemma {:induction false} WordsAreWords(s: seq<byte>)
    ensures AllWords(Words(s))
    ensures 2 * |Words(s)| <= |s| + 1
    decreases |s|
  {
    var t := s[Spaces(s)..];
    if t != [] && t[0] != NEWLINE {
      WordsAreWords(AfterWord(t));
      var rest := Words(AfterWord(t));
      assert Words(s) == [t[..WordEnd(t)]] + rest;
    }
  }

  lemma NoWords(s: seq<byte>)
    requires Spaces(s) == |s| || s[Spaces(s)] == NEWLINE
    ensures Words(s) == []
  {
  }

  lemma WordFirst(w: seq<byte>, tail: seq<byte>)
    requires IsWord(w) && (tail != [] ==> Ends(tail[0]))
    ensures Spaces(w + tail) == 0 && WordEnd(w + tail) == |w|
    ensures (w + tail)[..|w|] == w
    ensures AfterWord(w + tail) == if tail == [] then [] else tail[1..]
    ensures Words(w + tail) == [w] + Words(if tail == [] then [] else tail[1..])
  {
    var s := w + tail;
    assert s[0] == w[0] && !Ends(w[0]);
    assert forall k :: 0 <= k < |w| ==> s[k] == w[k];
    assert tail != [] ==> s[|w|] == tail[0];
    assert s[0..] == s;
  }

  /** Joined arguments, read again, are the same arguments. */
  lemma {:induction false} WordsOfJoin(ws: seq<seq<byte>>)
    requires AllWords(ws)
    ensures Words(Join(ws)) == ws
  {
    hide Words, WordEnd, Spaces, AfterWord, IsWord;
    NoWords([]);
    if |ws| == 1 {
      WordFirst(ws[0], []);
      assert ws[0] + [] == ws[0];
    } else if ws != [] {
      WordsOfJoin(ws[1..]);
      var tail := [SPACE] + Join(ws[1..]);
      WordFirst(ws[0], tail);
      assert Join(ws) == ws[0] + tail && tail[1..] == Join(ws[1..]);
    }
  }

  /** Tokenising, joining and tokenising again gives the same argument list. */
  lemma Retokenised(s: seq<byte>)
    ensures Words(Join(Words(s))) == Words(s)
  {
    WordsAreWords(s);
    WordsOfJoin(Words(s));
  }

  /** An argument list survives joining and tokenising exactly when every
      argument is non-empty and free of spaces and newlines. */
  lemma SurvivesExactly(ws: seq<seq<byte>>)
    ensures Words(Join(ws)) == ws <==> AllWords(ws)
  {
    if AllWords(ws) {
      WordsOfJoin(ws);
    }
    WordsAreWords(Join(ws));
  }

  predicate AllSpaces(s: seq<byte>) {
    forall k :: 0 <= k < |s| ==> s[k] == SPACE
  }

  /** `s` is the words `ws` with spaces before, between and after them. */
  ghost predicate SpacedOut(s: seq<byte>, ws: seq<seq<byte>>)
    decreases |ws|, 1
  {
    if ws == [] then AllSpaces(s) else exists i :: SpacedFrom(s, ws, i)
  }

  ghost predicate SpacedFrom(s: seq<byte>, ws: seq<seq<byte>>, i: int)
    requires ws != []
    decreases |ws|, 0
  {
    && 0 <= i <= |s| - |ws[0]| && AllSpaces(s[..i]) && StartsWithWord(s[i..], ws[0])
    && SpacedOut(s[i..][|ws[0]|..], ws[1..])
  }

  /** A word stands at the start of `s`, and a space or nothing follows it. */
  predicate StartsWithWord(s: seq<byte>, w: seq<byte>) {
    IsWord(w) && |w| <= |s| && s[..|w|] == w && (|w| < |s| ==> s[|w|] == SPACE)
  }

  /** Without newlines the arguments are exactly the maximal runs of non-spaces. */
  lemma WordsAreMaximalRuns(s: seq<byte>, ws: seq<seq<byte>>)
    requires NEWLINE !in s
    ensures SpacedOut(s, ws) <==> Words(s) == ws
  {
    if SpacedOut(s, ws) {
      RunsToWords(s, ws);
    }
    if Words(s) == ws {
      WordsToRuns(s);
    }
  }

  lemma {:induction false} RunsToWords(s: seq<byte>, ws: seq<seq<byte>>)
    requires NEWLINE !in s && SpacedOut(s, ws)
    ensures Words(s) == ws
    decreases |ws|
  {
    var t := s[Spaces(s)..];
    if ws == [] {
      NoWords(s);
    } else {
      var i :| SpacedFrom(s, ws, i);
      OnlySplit(s, ws, i);
      NextWord(s);
      RunsToWords(t[WordEnd(t)..], ws[1..]);
      hide Words, WordEnd, Spaces;
      assert ws == [ws[0]] + ws[1..];
    }
  }

  lemma {:induction false} WordsToRuns(s: seq<byte>)
    requires NEWLINE !in s
    ensures SpacedOut(s, Words(s))
    decreases |s|
  {
    var n := Spaces(s);
    var t := s[n..];
    if t == [] {
      NoWords(s);
    } else {
      hide SpacedOut, WordEnd, Spaces;
      NextWord(s);
      WordsToRuns(t[WordEnd(t)..]);
      SpacedNext(s, Words(s));
    }
  }

  lemma SpacedNext(s: seq<byte>, ws: seq<seq<byte>>)
    requires NEWLINE !in s && Spaces(s) < |s| && ws != []
    requires var t := s[Spaces(s)..];
      WordEnd(t) > 0 && ws[0] == t[..WordEnd(t)] && SpacedOut(t[WordEnd(t)..], ws[1..])
    ensures SpacedOut(s, ws)
  {
    hide Words, SpacedOut, WordEnd, Spaces, AllSpaces, StartsWithWord;
    FirstRun(s);
    assert SpacedFrom(s, ws, Spaces(s));
    SpacedHere(s, ws, Spaces(s));
  }

  lemma FirstRun(s: seq<byte>)
    requires NEWLINE !in s && WordEnd(s[Spaces(s)..]) > 0
    ensures var t := s[Spaces(s)..];
      AllSpaces(s[..Spaces(s)]) && StartsWithWord(t, t[..WordEnd(t)])
  {
    var t := s[Spaces(s)..];
    assert WordEnd(t) < |t| ==> t[WordEnd(t)] in s;
  }

  lemma SpacedHere(s: seq<byte>, ws: seq<seq<byte>>, n: nat)
    requires ws != [] && SpacedFrom(s, ws, n)
    ensures SpacedOut(s, ws)
  {
  }

  /** Where the first word can be: after the leading spaces, as far as it goes. */
  lemma OnlySplit(s: seq<byte>, ws: seq<seq<byte>>, i: int)
    requires ws != [] && SpacedFrom(s, ws, i)
    ensures i == Spaces(s) < |s| && ws[0] == s[i..][..WordEnd(s[i..])]
    ensures SpacedOut(s[i..][WordEnd(s[i..])..], ws[1..])
  {
    var w, t := ws[0], s[i..];
    assert forall k :: 0 <= k < |w| ==> t[k] == w[k];
    assert forall k :: 0 <= k < i ==> s[k] == s[..i][k];
    assert !Ends(t[0]);
    assert WordEnd(t) == |w|;
  }

  /** A newline after a word ends the word, and the arguments go on behind it; a
      newline where a word should start ends them. */
  lemma {:induction false} WordsAtNewline(a: seq<byte>, b: seq<byte>)
    requires NEWLINE !in a
    ensures Words(a + ([NEWLINE] + b)) == Words(a) + Resumed(a, b)
    decreases |a|
  {
    hide Words, Spaces, WordEnd, AfterWord, Resumed;
    var tail := [NEWLINE] + b;
    var t := a[Spaces(a)..];
    SpacesBefore(a, tail);
    PartsOfConcat(a, tail, Spaces(a));
    WordsUnfold(a);
    WordsUnfold(a + tail);
    ResumedAfter(a, b);
    if t == [] {
      assert (t + tail)[0] == NEWLINE;
    } else {
      assert t[0] in a && (t + tail)[0] == t[0];
      WordBeforeNewline(t, b);
      ResumedAfter(t, b);
      if WordEnd(t) < |t| {
        WordsAtNewline(t[WordEnd(t) + 1..], b);
        ConcatAssociates([t[..WordEnd(t)]], Words(t[WordEnd(t) + 1..]), Resumed(a, b));
      } else {
        NoWords([]);
      }
    }
  }

  /** The arguments behind a newline that follows `a`. */
  function Resumed(a: seq<byte>, b: seq<byte>): seq<seq<byte>> {
    if a == [] || a[|a| - 1] == SPACE then [] else Words(b)
  }

  lemma ResumedAfter(a: seq<byte>, b: seq<byte>)
    ensures Spaces(a) == |a| ==> Resumed(a, b) == []
    ensures forall i :: 0 <= i < |a| ==> Resumed(a[i..], b) == Resumed(a, b)
    ensures WordEnd(a) < |a| && a[WordEnd(a)] == SPACE ==> Resumed(a[WordEnd(a) + 1..], b) == Resumed(a, b)
    ensures a != [] && WordEnd(a) == |a| ==> Resumed(a, b) == Words(b)
  {
    hide Words;
  }

  lemma SpacesBefore(a: seq<byte>, b: seq<byte>)
    requires b != [] && b[0] != SPACE
    ensures Spaces(a + b) == Spaces(a)
    ensures Spaces(a) == |a| && a != [] ==> a[|a| - 1] == SPACE
  {
    var s := a + b;
    assert forall k :: 0 <= k < |a| ==> s[k] == a[k];
    assert s[|a|] == b[0];
  }

  lemma WordEndIs(s: seq<byte>, e: nat)
    requires e <= |s| && (e < |s| ==> Ends(s[e])) && forall k :: 0 <= k < e ==> !Ends(s[k])
    ensures WordEnd(s) == e
  {
  }

  lemma WordBeforeNewline(t: seq<byte>, b: seq<byte>)
    requires NEWLINE !in t && t != [] && t[0] != SPACE
    ensures var s, e := t + ([NEWLINE] + b), WordEnd(t);
      && WordEnd(s) == e > 0 && s[..e] == t[..e]
      && (e < |t| ==> t[e] == SPACE && AfterWord(t) == t[e + 1..] && AfterWord(s) == t[e + 1..] + ([NEWLINE] + b))
      && (e == |t| ==> AfterWord(t) == [] && AfterWord(s) == b && t[|t| - 1] != SPACE)
  {
    var tail := [NEWLINE] + b;
    var s, e := t + tail, WordEnd(t);
    assert t[0] in t;
    assert e < |t| ==> t[e] in t;
    WordEndIs(s, e);
    hide WordEnd;
    if e < |t| {
      PartsOfConcat(t, tail, e);
      PartsOfConcat(t, tail, e + 1);
    } else {
      PartsOfConcat(t, tail, e);
      assert s[e + 1..] == tail[1..] == b;
    }
  }

  lemma PartsOfConcat<T>(a: seq<T>, b: seq<T>, i: nat)
    requires i <= |a|
    ensures (a + b)[..i] == a[..i] && (a + b)[i..] == a[i..] + b
  {
  }

  lemma NextWord(s: seq<byte>)
    requires NEWLINE !in s && Spaces(s) < |s|
    ensures var t := s[Spaces(s)..];
      WordEnd(t) > 0 && Words(s) == [t[..WordEnd(t)]] + Words(t[WordEnd(t)..])
  {
    WordsUnfold(s);
    var t := s[Spaces(s)..];
    assert t[0] in s;
    var tail := t[WordEnd(t)..];
    SkipsSeparator(tail);
    hide Words;
    if tail != [] {
      assert tail[0] in s;
      assert AfterWord(t) == tail[1..];
    }
  }

  lemma SkipsSeparator(s: seq<byte>)
    ensures s != [] && s[0] == SPACE ==> Words(s) == Words(s[1..])
  {
    if s != [] && s[0] == SPACE {
      assert s[Spaces(s)..] == s[1..][Spaces(s[1..])..];
    }
  }

  lemma {:induction false} JoinSplit(args: seq<seq<byte>>, g: nat)
    requires 0 < g < |args|
    ensures Join(args) == Join(args[..g]) + [SPACE] + Join(args[g..])
  {
    if g > 1 {
      JoinSplit(args[1..], g - 1);
      assert args[1..][..g - 1] == args[..g][1..] && args[1..][g - 1..] == args[g..];
    } else {
      assert args[..1] == [args[0]];
    }
  }

  /** Where the argument after the first `g` starts in the joined text. */
  function Offset(args: seq<seq<byte>>, g: nat): nat
    requires g <= |args|
  {
    if g == 0 then 0 else |Join(args[..g])| + 1
  }

  /** The place of one argument, and of the space after it, in the joined text. */
  lemma PieceOfJoin(args: seq<seq<byte>>, g: nat)
    requires g < |args|
    ensures var at, len := Offset(args, g), |args[g]|;
      && |Join(args[..g + 1])| == at + len <= |Join(args)|
      && Join(args)[at..at + len] == args[g]
      && if g + 1 < |args| then at + len < |Join(args)| && Join(args)[at + len] == SPACE else at + len == |Join(args)|
    ensures Offset(args, g + 1) == Offset(args, g) + |args[g]| + 1
  {
    var first := args[..g + 1];
    assert first[g..] == [args[g]] && first[..g] == args[..g];
    if g > 0 {
      JoinSplit(first, g);
    }
    if g + 1 < |args| {
      JoinSplit(args, g + 1);
    } else {
      assert first == args;
    }
  }

  /** Some of the first arguments fill `nbytes` bytes exactly, leaving none for a terminator. */
  ghost predicate Fills(args: seq<seq<byte>>, nbytes: int) {
    exists g :: FillsAt(args, nbytes, g)
  }

  ghost predicate FillsAt(args: seq<seq<byte>>, nbytes: int, g: int) {
    0 <= g < |args| && |Join(args[..g + 1])| == nbytes
  }

  /** Two bytes offered for an argument of two bytes: the call fails and has
      overwritten the byte after them. */
  lemma FilledExample(c: byte, d: byte)
    ensures Fills([[c, d]], 2) && |Join([[c, d]])| + 1 > 2
  {
    assert [[c, d]][..1] == [[c, d]];
    assert FillsAt([[c, d]], 2, 0);
  }

  lemma {:induction false} JoinGrows(args: seq<seq<byte>>, g: nat, h: nat)
    requires g < h < |args|
    ensures |Join(args[..g + 1])| < |Join(args[..h + 1])| <= |Join(args)|
    decreases h - g
  {
    PieceOfJoin(args, h);
    if g < h - 1 {
      JoinGrows(args, g, h - 1);
    }
  }

  /** ece391_getargs: the joined arguments go to `buf`, of which the caller offers
      `nbytes` bytes. The byte after those is overwritten, and the call fails,
      when the arguments up to some point fill them exactly. */
  method Getargs(argv: seq<seq<byte>>, buf: array<byte>, nbytes: int) returns (r: int)
    requires argv != [] && forall i :: 0 <= i < |argv| ==> NUL !in argv[i]
    requires nbytes < buf.Length
    modifies buf
    ensures r == if |Join(argv[1..])| + 1 <= nbytes then SUCCESS else FAIL
    ensures r == SUCCESS ==> IsCString(buf[..], 0, Join(argv[1..]))
    ensures forall k :: 0 <= k < buf.Length && k > nbytes ==> buf[k] == old(buf[k])
    ensures 0 <= nbytes ==> if Fills(argv[1..], nbytes) then buf[nbytes] == NUL else buf[nbytes] == old(buf[nbytes])
  {
    ghost var args := argv[1..];
    var idx, at, room := 1, 0, nbytes;
    JoinFacts(args, nbytes);
    CopiedNone(buf[..], args);
    hide Join, Fills, FillsAt, IsCString, Copied, Offset;
    while idx < |argv|
      invariant 1 <= idx <= |argv| && room == nbytes - at && (at > 0 ==> room >= 0)
      invariant at == if idx < |argv| then Offset(args, idx - 1) else |Join(args)|
      invariant Copied(buf[..], at, args)
      invariant forall k :: 0 <= k < buf.Length && k >= nbytes ==> buf[k] == if k == nbytes == at && idx == |argv| > 1 then NUL else old(buf[k])
    {
      var len := |argv[idx]|;
      if len > room {
        NotFilled(args, nbytes, idx - 1);
        return FAIL;
      }
      var more := idx + 1 < |argv|;
      var fits := AddArgument(buf, at, argv[idx], more, room, args, idx - 1);
      if !fits {
        FilledAt(args, nbytes, idx - 1);
        return FAIL;
      }
      at, room := at + len, room - len;
      if more {
        at, room := at + 1, room - 1;
      }
      idx := idx + 1;
    }
    if room < 1 {
      return FAIL;
    }
    CopiedTerminated(buf[..], at, args);
    buf[at] := NUL;
    JoinIsCString(buf[..], args);
    return SUCCESS;
  }

  /** One argument and, if there are more and room is left, the space after it. */
  method AddArgument(buf: array<byte>, at: nat, s: seq<byte>, more: bool, room: int, ghost args: seq<seq<byte>>, ghost g: nat)
    returns (fits: bool)
    requires g < |args| && s == args[g] && at == Offset(args, g) && (more <==> g + 1 < |args|)
    requires |s| <= room && at + room < buf.Length && Copied(buf[..], at, args)
    modifies buf
    ensures fits == (!more || |s| < room)
    ensures fits ==>
      var next := at + |s| + if more then 1 else 0;
      Copied(buf[..], next, args) && next == if more then Offset(args, g + 1) else |Join(args)|
    ensures |s| == room ==> buf[at + room] == NUL
    ensures forall k :: at + room <= k < buf.Length && !(k == at + |s|) ==> buf[k] == old(buf[k])
  {
    hide Join, Copied, Offset;
    PieceOfJoin(args, g);
    PutPiece(buf, at, s, args, g);
    if !more {
      return true;
    }
    if room - |s| < 1 {
      return false;
    }
    PutSpace(buf, at + |s|, args);
    return true;
  }

  /** One argument is copied to its place in the joined text. */
  method PutPiece(buf: array<byte>, at: nat, s: seq<byte>, ghost args: seq<seq<byte>>, ghost g: nat)
    requires g < |args| && s == args[g] && at == Offset(args, g)
    requires at + |s| < buf.Length && Copied(buf[..], at, args)
    modifies buf
    ensures Copied(buf[..], at + |s|, args) && buf[at + |s|] == NUL
    ensures forall k :: at + |s| < k < buf.Length ==> buf[k] == old(buf[k])
  {
    PieceOfJoin(args, g);
    Memory.CopyString(s, buf, at);
    assert buf[..at + |s|] == old(buf[..])[..at] + s;
  }

  method PutSpace(buf: array<byte>, at: nat, ghost args: seq<seq<byte>>)
    requires at < buf.Length && at < |Join(args)| && Join(args)[at] == SPACE && Copied(buf[..], at, args)
    modifies buf
    ensures Copied(buf[..], at + 1, args)
    ensures forall k :: 0 <= k < buf.Length && k != at ==> buf[k] == old(buf[k])
  {
    buf[at] := SPACE;
  }

  lemma CopiedNone(m: seq<byte>, args: seq<seq<byte>>)
    ensures Copied(m, 0, args)
  {
  }

  lemma CopiedTerminated(m: seq<byte>, at: nat, args: seq<seq<byte>>)
    requires Copied(m, at, args) && at < |m|
    ensures Copied(m[at := NUL], at, args)
  {
  }

  lemma JoinFacts(args: seq<seq<byte>>, nbytes: int)
    ensures Offset(args, 0) == 0
    ensures args == [] ==> Join(args) == [] && !Fills(args, nbytes)
    ensures args != [] && |Join(args)| == nbytes ==> Fills(args, nbytes)
    ensures |Join(args)| < nbytes ==> !Fills(args, nbytes)
  {
    if args != [] && |Join(args)| == nbytes {
      assert args[..|args| - 1 + 1] == args;
      assert FillsAt(args, nbytes, |args| - 1);
    }
    if |Join(args)| < nbytes {
      forall h ensures !FillsAt(args, nbytes, h) {
        if 0 <= h < |args| {
          PieceOfJoin(args, h);
        }
      }
    }
  }

  lemma FilledAt(args: seq<seq<byte>>, nbytes: int, g: nat)
    requires g < |args| && Offset(args, g) + |args[g]| == nbytes
    ensures Fills(args, nbytes) && |Join(args)| >= nbytes
  {
    PieceOfJoin(args, g);
    assert FillsAt(args, nbytes, g);
  }

  lemma {:induction false} JoinHasNoNul(args: seq<seq<byte>>)
    requires forall i :: 0 <= i < |args| ==> NUL !in args[i]
    ensures NUL !in Join(args)
  {
    if |args| > 1 {
      JoinHasNoNul(args[1..]);
    }
  }

  lemma JoinIsCString(m: seq<byte>, args: seq<seq<byte>>)
    requires forall i :: 0 <= i < |args| ==> NUL !in args[i]
    requires Copied(m, |Join(args)|, args) && |Join(args)| < |m| && m[|Join(args)|] == NUL
    ensures IsCString(m, 0, Join(args))
  {
    JoinHasNoNul(args);
    var s := Join(args);
    assert forall k :: 0 <= k < |s| ==> m[k] == m[..|s|][k];
  }


  ghost predicate Copied(m: seq<byte>, at: nat, args: seq<seq<byte>>) {
    at <= |m| && at <= |Join(args)| && m[..at] == Join(args)[..at]
  }

  /** If the next argument does not fit after the arguments so far, no number of
      arguments fills the room exactly. */
  lemma NotFilled(args: seq<seq<byte>>, nbytes: int, g: nat)
    requires g < |args| && Offset(args, g) + |args[g]| > nbytes && (g > 0 ==> Offset(args, g) <= nbytes)
    ensures |Join(args)| + 1 > nbytes && !Fills(args, nbytes)
  {
    PieceOfJoin(args, g);
    forall h ensures !FillsAt(args, nbytes, h) {
      if 0 <= h < g - 1 {
        JoinGrows(args, h, g - 1);
      } else if g < h < |args| {
        JoinGrows(args, g, h);
      }
    }
  }
}
