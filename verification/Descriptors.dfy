/** The file descriptor table of one process, as a value, and what any
    interleaving of open, read and close calls does to it. */
module Descriptors {
  import opened Prelude
  import opened Bytes
  import opened Image

  const OPS_SIZE := 8

  /** Which table of file operations a descriptor points to. */
  datatype Fops = NullOps | TerminalOps | RtcOps | DirectoryOps | FileOps

  datatype FdEntry = FdEntry(fop: Fops, fileName: seq<byte>, filePos: nat, inUse: nat)

  predicate InUse(e: FdEntry) {
    e.inUse % 2 == 1
  }

  /** The table, and the static counter behind directory reads. */
  datatype Files = Files(fds: seq<FdEntry>, dirReadCount: nat)

  datatype Call = Open(name: seq<byte>) | Read(fd: int, nbytes: nat) | Close(fd: int)

  datatype Reply = Reply(value: int, data: seq<byte>)

  const FAILED := Reply(-1, [])

  function LowestFree(fds: seq<FdEntry>, i: nat := 0): (r: nat)
    requires i <= |fds|
    ensures i <= r <= |fds|
    ensures r < |fds| ==> !InUse(fds[r])
    ensures forall k :: i <= k < r ==> InUse(fds[k])
    decreases |fds| - i
  {
    if i == |fds| || !InUse(fds[i]) then i else LowestFree(fds, i + 1)
  }

  /** The operations for an entry of each kind; an unknown kind keeps what the slot had. */
  function FopsFor(kind: byte, stale: Fops): Fops {
    if kind == KIND_RTC then RtcOps
    else if kind == KIND_DIRECTORY then DirectoryOps
    else if kind == KIND_FILE then FileOps
    else stale
  }

  ghost predicate IsFile(vol: seq<File>, name: seq<byte>) {
    Lookup(vol, name).Some? && Lookup(vol, name).value.kind == KIND_FILE
  }

  /** The contents of the named regular file. */
  ghost function Contents(vol: seq<File>, name: seq<byte>): seq<byte>
    requires IsFile(vol, name)
  {
    Lookup(vol, name).value.contents
  }

  /** A descriptor of a regular file of the volume, positioned within it. */
  ghost predicate OnFile(vol: seq<File>, e: FdEntry) {
    e.fop == FileOps && IsFile(vol, e.fileName) && e.filePos <= |Contents(vol, e.fileName)|
  }

  /** Entries have one of the three kinds. */
  ghost predicate KnownKinds(vol: seq<File>) {
    forall f :: f in vol ==> f.kind <= KIND_FILE
  }

  ghost function OpenStep(vol: seq<File>, files: Files, name: seq<byte>): (Files, Reply)
    requires |files.fds| == OPS_SIZE
  {
    var location := LowestFree(files.fds);
    if location == OPS_SIZE || Lookup(vol, name).None? then (files, FAILED)
    else
      var entry := FdEntry(FopsFor(Lookup(vol, name).value.kind, files.fds[location].fop), name, 0, 1);
      (files.(fds := files.fds[location := entry]), Reply(location, []))
  }

  ghost function CloseStep(files: Files, fd: int): (Files, Reply)
    requires |files.fds| == OPS_SIZE
  {
    if fd <= 1 || fd >= OPS_SIZE || !InUse(files.fds[fd]) || files.fds[fd].fop == NullOps then (files, FAILED)
    else
      var entry := files.fds[fd].(fop := NullOps, filePos := 0, inUse := 0);
      (files.(fds := files.fds[fd := entry]), Reply(0, []))
  }

  /** Reading standard input or a slot that was never opened is not described
      here: it does not change the table. */
  ghost function ReadStep(vol: seq<File>, files: Files, fd: int, nbytes: nat): (Files, Reply)
    requires |files.fds| == OPS_SIZE
  {
    if fd < 0 || fd >= OPS_SIZE || !InUse(files.fds[fd]) || fd == 1 then (files, FAILED)
    else
      var e := files.fds[fd];
      if e.fop == DirectoryOps then
        if files.dirReadCount >= |vol| then (files.(dirReadCount := 0), Reply(0, []))
        else
          var name := vol[files.dirReadCount].name;
          (files.(dirReadCount := files.dirReadCount + 1), Reply(|name|, name))
      else if OnFile(vol, e) then
        var file := Contents(vol, e.fileName);
        var n := Min(nbytes, |file| - e.filePos);
        (files.(fds := files.fds[fd := e.(filePos := e.filePos + n)]), Reply(n, file[e.filePos..e.filePos + n]))
      else (files, Reply(0, []))
  }

  /** A read of an open regular file, spelled out. */
  lemma ReadStepOnFile(vol: seq<File>, files: Files, fd: int, nbytes: nat)
    requires |files.fds| == OPS_SIZE && 0 <= fd < OPS_SIZE && fd != 1
    requires InUse(files.fds[fd]) && OnFile(vol, files.fds[fd])
    ensures var e := files.fds[fd];
      var file := Contents(vol, e.fileName);
      var n := Min(nbytes, |file| - e.filePos);
      ReadStep(vol, files, fd, nbytes) ==
        (files.(fds := files.fds[fd := e.(filePos := e.filePos + n)]), Reply(n, file[e.filePos..e.filePos + n]))
  {
  }

  ghost function Step(vol: seq<File>, files: Files, call: Call): (r: (Files, Reply))
    requires |files.fds| == OPS_SIZE
    ensures |r.0.fds| == OPS_SIZE
  {
    match call
    case Open(name) => OpenStep(vol, files, name)
    case Read(fd, nbytes) => ReadStep(vol, files, fd, nbytes)
    case Close(fd) => CloseStep(files, fd)
  }

  ghost function Run(vol: seq<File>, files: Files, calls: seq<Call>): (r: Files)
    requires |files.fds| == OPS_SIZE
    ensures |r.fds| == OPS_SIZE
  {
    if calls == [] then files
    else Step(vol, Run(vol, files, calls[..|calls| - 1]), calls[|calls| - 1]).0
  }

  lemma RunNothing(vol: seq<File>, files: Files)
    requires |files.fds| == OPS_SIZE
    ensures Run(vol, files, []) == files
  {
  }

  lemma RunNext(vol: seq<File>, files: Files, calls: seq<Call>, k: nat)
    requires |files.fds| == OPS_SIZE && k < |calls|
    ensures Run(vol, files, calls[..k + 1]) == Step(vol, Run(vol, files, calls[..k]), calls[k]).0
  {
    assert calls[..k + 1][..k] == calls[..k];
  }

  // ---- Allocation of descriptors ----------------------------------------------

  /** Descriptors 0 and 1 are the terminal. */
  ghost predicate StdioOpen(files: Files) {
    && |files.fds| == OPS_SIZE
    && forall fd :: 0 <= fd <= 1 ==> InUse(files.fds[fd]) && files.fds[fd].fop == TerminalOps
  }

  ghost function Used(files: Files): (r: set<int>)
    requires |files.fds| == OPS_SIZE
  {
    set fd | 0 <= fd < OPS_SIZE && InUse(files.fds[fd])
  }

  /** The replies of the run's last call, if it was of the given sort and succeeded. */
  ghost predicate Succeeds(vol: seq<File>, files: Files, call: Call)
    requires |files.fds| == OPS_SIZE
  {
    Step(vol, files, call).1.value != -1
  }

  ghost function Opens(vol: seq<File>, files: Files, calls: seq<Call>): nat
    requires |files.fds| == OPS_SIZE
  {
    if calls == [] then 0
    else
      var init, last := calls[..|calls| - 1], calls[|calls| - 1];
      Opens(vol, files, init) + if last.Open? && Succeeds(vol, Run(vol, files, init), last) then 1 else 0
  }

  ghost function Closes(vol: seq<File>, files: Files, calls: seq<Call>): nat
    requires |files.fds| == OPS_SIZE
  {
    if calls == [] then 0
    else
      var init, last := calls[..|calls| - 1], calls[|calls| - 1];
      Closes(vol, files, init) + if last.Close? && Succeeds(vol, Run(vol, files, init), last) then 1 else 0
  }

  /** Open hands out the lowest free descriptor, and fails exactly when there is
      none or the name is not in the directory; a failed call changes nothing. */
  lemma OpenIsLowestFree(vol: seq<File>, files: Files, name: seq<byte>)
    requires StdioOpen(files)
    ensures var (after, reply) := Step(vol, files, Open(name));
      && (reply.value == -1 <==>
           (forall k :: 0 <= k < OPS_SIZE ==> k in Used(files)) ||
           forall f :: f in vol ==> f.name != name)
      && (reply.value == -1 ==> after == files)
      && (reply.value != -1 ==>
           && 2 <= reply.value < OPS_SIZE
           && reply.value !in Used(files)
           && (forall k :: 0 <= k < reply.value ==> k in Used(files))
           && Used(after) == Used(files) + {reply.value}
           && after.fds[reply.value].fileName == name && after.fds[reply.value].filePos == 0
           && after.dirReadCount == files.dirReadCount
           && forall k :: 0 <= k < OPS_SIZE && k != reply.value ==> after.fds[k] == files.fds[k])
    ensures StdioOpen(Step(vol, files, Open(name)).0)
  {
    LookupIsStored(vol, name);
    var location := LowestFree(files.fds);
    assert forall k :: 0 <= k < location ==> k in Used(files);
    assert location < OPS_SIZE ==> location !in Used(files);
    var (after, reply) := Step(vol, files, Open(name));
    if reply.value != -1 {
      assert 0 in Used(files) && 1 in Used(files);
      assert Used(after) == Used(files) + {reply.value};
    }
  }

  lemma CloseFrees(vol: seq<File>, files: Files, fd: int)
    requires StdioOpen(files)
    ensures var (after, reply) := Step(vol, files, Close(fd));
      && (reply.value == 0 || reply.value == -1)
      && (reply.value == 0 <==> 2 <= fd < OPS_SIZE && InUse(files.fds[fd]) && files.fds[fd].fop != NullOps)
      && (reply.value == -1 ==> after == files)
      && after.dirReadCount == files.dirReadCount
      && (reply.value == 0 ==> forall k :: 0 <= k < OPS_SIZE && k != fd ==> after.fds[k] == files.fds[k])
      && (reply.value == 0 ==> 2 <= fd < OPS_SIZE && fd in Used(files) && Used(after) == Used(files) - {fd})
    ensures StdioOpen(Step(vol, files, Close(fd)).0)
  {
    var (after, reply) := Step(vol, files, Close(fd));
    if reply.value == 0 {
      assert Used(after) == Used(files) - {fd};
    }
  }

  /** A read fails exactly on a descriptor that is out of range, not in use, or
      standard output, and changes nothing then. */
  lemma ReadFailsExactly(vol: seq<File>, files: Files, fd: int, nbytes: nat)
    requires |files.fds| == OPS_SIZE
    ensures var (after, reply) := Step(vol, files, Read(fd, nbytes));
      && (reply.value == -1 <==> fd < 0 || fd >= OPS_SIZE || fd == 1 || !InUse(files.fds[fd]))
      && (reply.value == -1 ==> after == files && reply.data == [])
  {
  }

  lemma ReadKeepsUsed(vol: seq<File>, files: Files, fd: int, nbytes: nat)
    requires StdioOpen(files)
    ensures var after := Step(vol, files, Read(fd, nbytes)).0;
      Used(after) == Used(files) && StdioOpen(after)
  {
  }

  /** Over every run, descriptors 0 and 1 stay open terminals and the slots in
      use are those at the start plus successful opens minus successful closes. */
  lemma {:induction false} SlotsConserved(vol: seq<File>, files: Files, calls: seq<Call>)
    requires StdioOpen(files)
    ensures var after := Run(vol, files, calls);
      && StdioOpen(after)
      && |Used(after)| + Closes(vol, files, calls) == |Used(files)| + Opens(vol, files, calls)
  {
    if calls != [] {
      var init, last := calls[..|calls| - 1], calls[|calls| - 1];
      SlotsConserved(vol, files, init);
      var before := Run(vol, files, init);
      match last
      case Open(name) => OpenIsLowestFree(vol, before, name);
      case Read(fd, nbytes) => ReadKeepsUsed(vol, before, fd, nbytes);
      case Close(fd) => CloseFrees(vol, before, fd);
    }
  }

  function Repeated(name: seq<byte>, k: nat): (calls: seq<Call>)
    ensures |calls| == k
  {
    if k == 0 then [] else Repeated(name, k - 1) + [Open(name)]
  }

  lemma FullIffEightUsed(files: Files)
    requires |files.fds| == OPS_SIZE
    ensures |Used(files)| <= OPS_SIZE
    ensures |Used(files)| == OPS_SIZE <==> forall k :: 0 <= k < OPS_SIZE ==> k in Used(files)
  {
    var all := {0, 1, 2, 3, 4, 5, 6, 7};
    SubsetSize(Used(files), all);
    if forall k :: 0 <= k < OPS_SIZE ==> k in Used(files) {
      assert all <= Used(files);
    }
  }

  lemma OpenSucceedsIffRoom(vol: seq<File>, files: Files, name: seq<byte>)
    requires StdioOpen(files) && Lookup(vol, name).Some?
    ensures |Used(files)| <= OPS_SIZE
    ensures Succeeds(vol, files, Open(name)) <==> |Used(files)| < OPS_SIZE
  {
    FullIffEightUsed(files);
    OpenIsLowestFree(vol, files, name);
  }

  /** Opening the same name again and again succeeds until the table is full. */
  lemma {:induction false} OpensUntilFull(vol: seq<File>, files: Files, name: seq<byte>, k: nat)
    requires StdioOpen(files) && Lookup(vol, name).Some?
    ensures Opens(vol, files, Repeated(name, k)) == Min(k, OPS_SIZE - |Used(files)|)
    ensures Closes(vol, files, Repeated(name, k)) == 0
  {
    OpenSucceedsIffRoom(vol, files, name);
    if k > 0 {
      var init := Repeated(name, k - 1);
      OpensUntilFull(vol, files, name, k - 1);
      assert Repeated(name, k)[..k - 1] == init;
      SlotsConserved(vol, files, init);
      OpenSucceedsIffRoom(vol, Run(vol, files, init), name);
    }
  }

  lemma OnlyStdioUsed(files: Files)
    requires StdioOpen(files)
    ensures |Used(files)| == 2 <==> forall fd :: 2 <= fd < OPS_SIZE ==> !InUse(files.fds[fd])
  {
    assert {0, 1} <= Used(files);
    SubsetSize({0, 1}, Used(files));
    forall fd | 2 <= fd < OPS_SIZE && |Used(files)| == 2 ensures !InUse(files.fds[fd]) {
      assert fd !in Used(files);
    }
    if forall fd :: 2 <= fd < OPS_SIZE ==> !InUse(files.fds[fd]) {
      assert Used(files) <= {0, 1};
    }
  }

  /** The table-exhaustion test opens a present name seven times and expects one
      failure. A process starts with whatever its six other slots held on the
      kernel stack, since the routine meant to clear them works on a copy; the
      expectation is met exactly when none of those slots reads as in use. */
  lemma SeventhOpenFails(vol: seq<File>, files: Files, name: seq<byte>)
    requires StdioOpen(files) && Lookup(vol, name).Some?
    ensures 7 - Opens(vol, files, Repeated(name, 7)) == 1 <==>
            forall fd :: 2 <= fd < OPS_SIZE ==> !InUse(files.fds[fd])
  {
    OpensUntilFull(vol, files, name, 7);
    OnlyStdioUsed(files);
    OpenSucceedsIffRoom(vol, files, name);
  }

  /** Such a table: one slot still reads as in use, and two of the seven opens fail. */
  lemma StaleSlotExample(vol: seq<File>, name: seq<byte>)
    requires Lookup(vol, name).Some?
    ensures var terminal, free := FdEntry(TerminalOps, [], 0, 1), FdEntry(NullOps, [], 0, 0);
      var stale := free.(inUse := 1);
      var files := Files([terminal, terminal, free, stale, free, free, free, free], 0);
      StdioOpen(files) && 7 - Opens(vol, files, Repeated(name, 7)) == 2
  {
    var terminal, free := FdEntry(TerminalOps, [], 0, 1), FdEntry(NullOps, [], 0, 0);
    var files := Files([terminal, terminal, free, free.(inUse := 1), free, free, free, free], 0);
    assert Used(files) == {0, 1, 3};
    OpensUntilFull(vol, files, name, 7);
  }

  // ---- Directory reads ----------------------------------------------------------

  function Reads(fd: int, j: nat): (calls: seq<Call>)
    ensures |calls| == j
  {
    if j == 0 then [] else Reads(fd, j - 1) + [Read(fd, 0)]
  }

  /** From a counter at the start, read number j of a directory yields entry
      j mod (n + 1), or nothing when that is n: each name once a round, in order. */
  lemma {:induction false} DirectoryCycles(vol: seq<File>, files: Files, fd: int, j: nat)
    requires |files.fds| == OPS_SIZE && 0 <= fd < OPS_SIZE && fd != 1 && files.dirReadCount == 0
    requires InUse(files.fds[fd]) && files.fds[fd].fop == DirectoryOps
    ensures var before, i := Run(vol, files, Reads(fd, j)), j % (|vol| + 1);
      && before == files.(dirReadCount := i)
      && ReadStep(vol, before, fd, 0).1 == if i == |vol| then Reply(0, []) else Reply(|vol[i].name|, vol[i].name)
  {
    if j > 0 {
      DirectoryCycles(vol, files, fd, j - 1);
      RemainderOfSum(j - 1, 1, |vol| + 1);
      assert Reads(fd, j)[..j - 1] == Reads(fd, j - 1);
      assert Reads(fd, j)[j - 1] == Read(fd, 0);
    }
  }

  // ---- Streams ----------------------------------------------------------------

  /** The life of one descriptor so far: what was opened, the bytes that its
      reads have returned since, and how many were asked for. */
  datatype Stream = Idle | Streaming(name: seq<byte>, bytes: seq<byte>, asked: nat)

  ghost function NextStream(prev: Stream, call: Call, reply: Reply, fd: int): Stream {
    match call
    case Open(name) => if reply.value == fd then Streaming(name, [], 0) else prev
    case Close(c) => if c == fd && reply.value == 0 then Idle else prev
    case Read(c, nbytes) =>
      if c == fd && prev.Streaming? then Streaming(prev.name, prev.bytes + reply.data, prev.asked + nbytes) else prev
  }

  ghost function Track(vol: seq<File>, files: Files, calls: seq<Call>, fd: int): Stream
    requires |files.fds| == OPS_SIZE
  {
    if calls == [] then Idle
    else
      var init, last := calls[..|calls| - 1], calls[|calls| - 1];
      NextStream(Track(vol, files, init, fd), last, Step(vol, Run(vol, files, init), last).1, fd)
  }

  /** The descriptor stands where its stream says, and the stream is a prefix of the file. */
  ghost predicate InStep(vol: seq<File>, e: FdEntry, stream: Stream)
    requires stream.Streaming?
  {
    && InUse(e)
    && e.fileName == stream.name
    && Lookup(vol, stream.name).Some?
    && (IsFile(vol, stream.name) ==>
      && OnFile(vol, e)
      && e.filePos == Min(stream.asked, |Contents(vol, stream.name)|)
      && stream.bytes == Contents(vol, stream.name)[..e.filePos])
    && (!IsFile(vol, stream.name) ==> e.fop == RtcOps || e.fop == DirectoryOps)
  }

  lemma OpenKeepsStream(vol: seq<File>, files: Files, name: seq<byte>, fd: int, prev: Stream)
    requires KnownKinds(vol) && StdioOpen(files) && 2 <= fd < OPS_SIZE
    requires prev.Streaming? ==> InStep(vol, files.fds[fd], prev)
    ensures var (after, reply) := OpenStep(vol, files, name);
      var next := NextStream(prev, Open(name), reply, fd);
      next.Streaming? ==> InStep(vol, after.fds[fd], next)
  {
    LookupIsStored(vol, name);
  }

  lemma ReadKeepsStream(vol: seq<File>, files: Files, c: int, nbytes: nat, fd: int, prev: Stream)
    requires StdioOpen(files) && 2 <= fd < OPS_SIZE
    requires prev.Streaming? ==> InStep(vol, files.fds[fd], prev)
    ensures var (after, reply) := ReadStep(vol, files, c, nbytes);
      var next := NextStream(prev, Read(c, nbytes), reply, fd);
      next.Streaming? ==> InStep(vol, after.fds[fd], next)
  {
    if c != fd {
      assert ReadStep(vol, files, c, nbytes).0.fds[fd] == files.fds[fd];
    } else if prev.Streaming? && IsFile(vol, prev.name) {
      PrefixGrows(Contents(vol, prev.name), prev.asked, nbytes);
    }
  }

  lemma PrefixGrows(file: seq<byte>, asked: nat, nbytes: nat)
    ensures var pos := Min(asked, |file|);
      var n := Min(nbytes, |file| - pos);
      pos + n == Min(asked + nbytes, |file|) && file[..pos] + file[pos..pos + n] == file[..pos + n]
  {
  }

  lemma CloseKeepsStream(vol: seq<File>, files: Files, c: int, fd: int, prev: Stream)
    requires StdioOpen(files) && 2 <= fd < OPS_SIZE
    requires prev.Streaming? ==> InStep(vol, files.fds[fd], prev)
    ensures var (after, reply) := CloseStep(files, c);
      var next := NextStream(prev, Close(c), reply, fd);
      next.Streaming? ==> InStep(vol, after.fds[fd], next)
  {
  }

  /** For any interleaving of opens, reads and closes, the bytes a descriptor has
      returned since a regular file was opened on it are exactly the first
      min(asked, length) bytes of that file, and its position is within the file. */
  lemma {:induction false} StreamsArePrefixes(vol: seq<File>, files: Files, calls: seq<Call>, fd: int)
    requires KnownKinds(vol) && StdioOpen(files) && 2 <= fd < OPS_SIZE
    ensures var stream := Track(vol, files, calls, fd);
      stream.Streaming? ==> InStep(vol, Run(vol, files, calls).fds[fd], stream)
  {
    if calls != [] {
      var init, last := calls[..|calls| - 1], calls[|calls| - 1];
      StreamsArePrefixes(vol, files, init, fd);
      SlotsConserved(vol, files, init);
      var before, prev := Run(vol, files, init), Track(vol, files, init, fd);
      match last
      case Open(name) => OpenKeepsStream(vol, before, name, fd, prev);
      case Read(c, nbytes) => ReadKeepsStream(vol, before, c, nbytes, fd, prev);
      case Close(c) => CloseKeepsStream(vol, before, c, fd, prev);
    }
  }
}
