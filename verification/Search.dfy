/** The grep program: every file of the directory is searched in turn. */
module Search {
  import opened Prelude
  import opened Bytes
  import opened Image
  import opened Descriptors
  import opened Lines
  import opened Cuts
  import opened Shifts
  import Kernel
  import Programs
  import Grep

  /** Names that start with a dot are taken for directories and passed over. */
  predicate Hidden(f: File) {
    f.name != [] && f.name[0] == DOT
  }

  /** What the program prints for one entry if its file is clean; `stale` says
      whether the byte after the buffer on the stack happened to be a newline. */
  ghost function Report(f: File, s: seq<byte>, stale: bool): seq<byte> {
    if Hidden(f) then [] else Grep.Render(f.name, Scanned(f.contents, s, stale))
  }

  /** The output for one entry, and the byte after the buffer that it was made with. */
  datatype Part = Part(stale: bool, output: seq<byte>)

  ghost predicate Fits(f: File, s: seq<byte>, part: Part) {
    Hidden(f) || Clean(f.contents, part.stale) ==> part.output == Report(f, s, part.stale)
  }

  ghost function Output(parts: seq<Part>): seq<byte> {
    if parts == [] then [] else Output(parts[..|parts| - 1]) + parts[|parts| - 1].output
  }

  /** A walk over the entries from `from` on, one part for each. */
  ghost predicate Walk(vol: seq<File>, from: nat, s: seq<byte>, parts: seq<Part>) {
    from + |parts| <= |vol| && forall i :: 0 <= i < |parts| ==> Fits(vol[from + i], s, parts[i])
  }

  /** The lines of the directory's files that contain the pattern, file by file. */
  ghost function AllMatches(vol: seq<File>, from: nat, s: seq<byte>, n: nat): seq<byte>
    requires from + n <= |vol|
  {
    if n == 0 then []
    else
      var f := vol[from + n - 1];
      AllMatches(vol, from, s, n - 1)
      + if f.name != [] && f.name[0] == DOT then [] else Grep.Render(f.name, Matching(f.contents, s))
  }

  /** No line of the file is lost, cut, or shifted with a NUL byte in it. */
  ghost predicate Safe(f: File, s: seq<byte>, stale: bool) {
    Clean(f.contents, stale) && !Lost(f.contents, s) && !(stale && CutsHit(f.contents, s))
  }

  /** If no file of a walk has a line that is lost, cut or damaged, exactly the
      matching lines of every file are printed; and of every clean file exactly
      the matching lines are reported only if none of its lines is lost or cut. */
  lemma {:induction false} WalkIsExact(vol: seq<File>, from: nat, s: seq<byte>, parts: seq<Part>)
    requires Walk(vol, from, s, parts)
    ensures (forall i :: 0 <= i < |parts| ==> Hidden(vol[from + i]) || Safe(vol[from + i], s, parts[i].stale)) ==>
      Output(parts) == AllMatches(vol, from, s, |parts|)
    ensures forall i :: 0 <= i < |parts| && Clean(vol[from + i].contents, parts[i].stale) ==>
      (Scanned(vol[from + i].contents, s, parts[i].stale) == Matching(vol[from + i].contents, s) <==>
       Safe(vol[from + i], s, parts[i].stale))
  {
    hide Scanned, Matching, Lost, CutsHit, Clean, Grep.Render;
    if parts != [] {
      var n := |parts| - 1;
      WalkIsExact(vol, from, s, parts[..n]);
      ScannedExactly(vol[from + n].contents, s, parts[n].stale);
    }
  }

  /** Every entry of the directory is found by its name. */
  lemma EntryFound(k: Kernel.Kernel, i: nat)
    requires k.Valid() && i < |k.vol|
    ensures Lookup(k.vol, k.vol[i].name) == Some(k.vol[i]) && Copyable(k.vol, k.vol[i].name)
  {
    var img, name := k.fs.image, DentryOf(k.fs.image, i).name;
    assert Entry(i);
    FindAgreesWithIndex(img, i);
    FindIsLookup(img, k.vol, name);
    assert k.vol[0..] == k.vol;
    LookupIsGood(k.vol, k.vol[i].name);
  }

  /** An open directory, at which a program reads. */
  ghost predicate AtDirectory(k: Kernel.Kernel, fd: int)
    requires k.Valid()
    reads k`dirReadCount, k.fde, k.fs, k.fs.img, k.fs.dirEntries
  {
    2 <= fd < OPS_SIZE && Programs.Opened(k.vol, k.fde[fd], Programs.DIRECTORY) && k.fde[fd].fop == DirectoryOps
  }

  /** All entries but the passed-over ones can be searched. */
  predicate AllSearchable(vol: seq<File>) {
    forall f :: f in vol && !Hidden(f) ==> Grep.Searchable(f)
  }

  /** One round: the next name is read and, unless it is passed over, its file searched. */
  method SearchNext(k: Kernel.Kernel, fd: int, s: seq<byte>, buf: array<byte>)
    returns (cnt: int, r: int, ghost part: Part)
    requires k.Valid() && AtDirectory(k, fd) && NUL !in s && AllSearchable(k.vol)
    requires buf != k.fs.img && buf.Length == Programs.SBUFSIZE
    modifies k, k.fde, buf
    ensures k.Valid() && AtDirectory(k, fd) && Used(k.State()) == old(Used(k.State())) && Programs.OthersUndisturbed(k)
    ensures cnt == 0 <==> old(k.dirReadCount) >= |k.vol|
    ensures cnt == 0 ==> k.dirReadCount == 0 && k.screen == old(k.screen) && r == 0
    ensures cnt != 0 ==>
      var f := k.vol[old(k.dirReadCount)];
      && k.dirReadCount == old(k.dirReadCount) + 1
      && k.screen == old(k.screen) + part.output
      && if |old(Used(k.State()))| == OPS_SIZE && !Hidden(f)
         then r == -1 && part.output == Programs.Ascii("file open failed\n")
         else r == 0 && Fits(f, s, part)
  {
    ghost var i, screen := k.dirReadCount, k.screen;
    r, part := 0, Part(false, []);
    cnt := Programs.ReadName(k, fd, buf, Programs.SBUFSIZE - 1);
    if cnt == 0 {
      return;
    }
    if DOT == buf[0] {
      assert buf[..cnt][0] == buf[0];
      return;
    }
    EntryFound(k, i);
    OpenSucceedsIffRoom(k.vol, k.State(), k.vol[i].name);
    hide Clean, Scanned, Grep.Render;
    var data := new byte[BUFSIZE + 1];
    ghost var stale := data[BUFSIZE] == NEWLINE;
    r := Grep.DoOneFile(k, s, buf[..cnt], data);
    part := Part(stale, k.screen[|screen|..]);
  }

  /** The program. `search` is the argument, if it could be read. With two free
      descriptors every file is searched; with one, the first file to be searched
      cannot be opened; with none, neither can the directory. */
  method SearchDirectory(k: Kernel.Kernel, search: Option<seq<byte>>) returns (r: int, ghost parts: seq<Part>)
    requires k.Valid() && AllSearchable(k.vol) && (search.Some? ==> NUL !in search.value)
    requires Lookup(k.vol, Programs.DIRECTORY).Some? ==> Lookup(k.vol, Programs.DIRECTORY).value.kind == KIND_DIRECTORY
    modifies k, k.fde
    ensures k.Valid() && Programs.OthersUndisturbed(k) && old(k.screen) <= k.screen
    ensures search.None? ==> r == 3 && k.screen == old(k.screen) + Programs.Ascii("could not read argument\n")
    ensures search.Some? && old(Programs.OpenFails(k.vol, k.State(), Programs.DIRECTORY)) ==>
      r == 2 && k.screen == old(k.screen) + Programs.Ascii("directory open failed\n")
    ensures search.Some? && !old(Programs.OpenFails(k.vol, k.State(), Programs.DIRECTORY)) ==>
      Walked(k.vol, old(k.dirReadCount), search.value, |old(Used(k.State()))| < OPS_SIZE - 1, parts, r,
             old(k.screen), k.screen)
    ensures r == 0 ==> k.dirReadCount == 0
  {
    parts := [];
    if search.None? {
      var w := k.Write(1, Programs.Ascii("could not read argument\n"));
      return 3, [];
    }
    ghost var before := k.State();
    var fd := k.Open(Programs.DIRECTORY);
    if fd == -1 {
      var w := k.Write(1, Programs.Ascii("directory open failed\n"));
      return 2, [];
    }
    Programs.FreshDescriptor(k.vol, before, Programs.DIRECTORY);
    OpenIsLowestFree(k.vol, before, Programs.DIRECTORY);
    assert |Used(k.State())| == |Used(before)| + 1;
    r, parts := SearchAll(k, fd, search.value);
  }

  /** What a walk over the entries from `from` on leaves on the screen. */
  ghost predicate Walked(vol: seq<File>, from: nat, s: seq<byte>, room: bool, parts: seq<Part>, r: int,
                         screen0: seq<byte>, screen: seq<byte>)
  {
    if from > |vol| then r == 0 && screen == screen0
    else if room || AllHidden(vol, from, |vol|) then
      r == 0 && from + |parts| == |vol| && Walk(vol, from, s, parts) && screen == screen0 + Output(parts)
    else r == 3 && screen == screen0 + Programs.Ascii("file open failed\n")
  }

  ghost predicate AllHidden(vol: seq<File>, from: nat, to: nat)
    requires to <= |vol|
  {
    forall i :: from <= i < to ==> Hidden(vol[i])
  }

  /** The loop of the program. */
  method SearchAll(k: Kernel.Kernel, fd: int, s: seq<byte>) returns (r: int, ghost parts: seq<Part>)
    requires k.Valid() && AtDirectory(k, fd) && NUL !in s && AllSearchable(k.vol)
    modifies k, k.fde
    ensures k.Valid() && Programs.OthersUndisturbed(k) && old(k.screen) <= k.screen
    ensures Walked(k.vol, old(k.dirReadCount), s, |old(Used(k.State()))| < OPS_SIZE, parts, r, old(k.screen), k.screen)
    ensures r == 0 ==> k.dirReadCount == 0
  {
    hide SoFar, Walked, Walk, Output, AllHidden, Report, Fits;
    var buf := new byte[Programs.SBUFSIZE];
    parts := [];
    ghost var from, room, screen0 := k.dirReadCount, |Used(k.State())| < OPS_SIZE, k.screen;
    FullIffEightUsed(k.State());
    Start(k.vol, from, s, room, screen0);
    while true
      invariant k.Valid() && AtDirectory(k, fd) && Programs.OthersUndisturbed(k) && old(k.screen) <= k.screen
      invariant Used(k.State()) == old(Used(k.State()))
      invariant k.dirReadCount == from + |parts|
      invariant SoFar(k.vol, from, s, room, parts, screen0, k.screen)
      decreases |k.vol| - k.dirReadCount
    {
      ghost var screen := k.screen;
      var cnt, result;
      ghost var part;
      cnt, result, part := SearchNext(k, fd, s, buf);
      if 0 == cnt {
        AtEnd(k.vol, from, s, room, parts, screen0, k.screen);
        return 0, parts;
      }
      if 0 != result {
        Stopped(k.vol, from, s, room, parts, screen0, screen);
        return 3, parts;
      }
      Next(k.vol, from, s, room, parts, screen0, screen, part);
      parts := parts + [part];
    }
  }

  /** The walk has passed as many entries as there are parts. */
  ghost predicate SoFar(vol: seq<File>, from: nat, s: seq<byte>, room: bool, parts: seq<Part>,
                        screen0: seq<byte>, screen: seq<byte>)
  {
    if from > |vol| then parts == [] && screen == screen0
    else
      && Walk(vol, from, s, parts) && screen == screen0 + Output(parts)
      && (room || AllHidden(vol, from, from + |parts|))
  }

  lemma Start(vol: seq<File>, from: nat, s: seq<byte>, room: bool, screen0: seq<byte>)
    ensures SoFar(vol, from, s, room, [], screen0, screen0)
  {
    assert screen0 + [] == screen0;
  }

  lemma Next(vol: seq<File>, from: nat, s: seq<byte>, room: bool, parts: seq<Part>,
             screen0: seq<byte>, screen: seq<byte>, part: Part)
    requires SoFar(vol, from, s, room, parts, screen0, screen) && from + |parts| < |vol|
    requires (room || Hidden(vol[from + |parts|])) && Fits(vol[from + |parts|], s, part)
    ensures SoFar(vol, from, s, room, parts + [part], screen0, screen + part.output)
  {
    hide Fits;
    assert (parts + [part])[..|parts|] == parts;
    ConcatAssociates(screen0, Output(parts), part.output);
  }

  lemma AtEnd(vol: seq<File>, from: nat, s: seq<byte>, room: bool, parts: seq<Part>, screen0: seq<byte>, screen: seq<byte>)
    requires SoFar(vol, from, s, room, parts, screen0, screen) && from + |parts| >= |vol|
    ensures Walked(vol, from, s, room, parts, 0, screen0, screen)
  {
  }

  lemma Stopped(vol: seq<File>, from: nat, s: seq<byte>, room: bool, parts: seq<Part>, screen0: seq<byte>, screen: seq<byte>)
    requires SoFar(vol, from, s, room, parts, screen0, screen) && from + |parts| < |vol|
    requires !room && !Hidden(vol[from + |parts|])
    ensures Walked(vol, from, s, room, parts, 3, screen0, screen + Programs.Ascii("file open failed\n"))
  {
    HiddenSoFar(vol, from, s, parts);
    assert screen0 + [] == screen0;
  }

  lemma {:induction false} HiddenSoFar(vol: seq<File>, from: nat, s: seq<byte>, parts: seq<Part>)
    requires Walk(vol, from, s, parts) && AllHidden(vol, from, from + |parts|)
    ensures Output(parts) == []
  {
    if parts != [] {
      var n := |parts| - 1;
      HiddenSoFar(vol, from, s, parts[..n]);
      assert Hidden(vol[from + n]) && Fits(vol[from + n], s, parts[n]);
    }
  }
}
