/** The user programs cat and ls, running on the kernel's system calls. */
module Programs {
  import opened Prelude
  import opened Bytes
  import opened Image
  import opened Descriptors
  import Memory
  import Kernel

  const SBUFSIZE := 33
  // The name of the directory itself.
  const DIRECTORY: seq<byte> := [DOT]

  function Ascii(s: string): (r: seq<byte>)
    ensures |r| == |s|
  {
    seq(|s|, i requires 0 <= i < |s| => if s[i] < 128 as char then s[i] as int else 0)
  }

  /** Directory names from entry `c` on, each followed by `sep`. */
  ghost function Names(vol: seq<File>, c: nat, sep: seq<byte>): seq<byte>
    decreases |vol| - c
  {
    if c >= |vol| then [] else vol[c].name + sep + Names(vol, c + 1, sep)
  }

  /** What the reads of an open descriptor have still to deliver. */
  ghost function Remaining(vol: seq<File>, files: Files, fd: int): seq<byte>
    requires |files.fds| == OPS_SIZE && 0 <= fd < OPS_SIZE
  {
    var e := files.fds[fd];
    if e.fop == DirectoryOps then Names(vol, files.dirReadCount, [])
    else if OnFile(vol, e) then Contents(vol, e.fileName)[e.filePos..]
    else []
  }

  /** A bound on the number of reads before the end is reported. */
  ghost function Distance(vol: seq<File>, files: Files, fd: int): nat
    requires |files.fds| == OPS_SIZE && 0 <= fd < OPS_SIZE
  {
    var e := files.fds[fd];
    if e.fop == DirectoryOps then (if files.dirReadCount >= |vol| then 0 else |vol| - files.dirReadCount)
    else if OnFile(vol, e) then |Contents(vol, e.fileName)| - e.filePos
    else 0
  }

  /** A descriptor that open has just handed out, or one on which only reads have happened since. */
  ghost predicate Opened(vol: seq<File>, e: FdEntry, name: seq<byte>) {
    && InUse(e)
    && e.fileName == name
    && Lookup(vol, name).Some?
    && e.fop == FopsFor(Lookup(vol, name).value.kind, NullOps)
    && (e.fop == RtcOps || e.fop == DirectoryOps || OnFile(vol, e))
  }

  /** One read takes its bytes off the front of what remains, and reports 0
      exactly at the end. */
  lemma ReadTakesRemaining(vol: seq<File>, files: Files, fd: int, name: seq<byte>, nbytes: nat)
    requires StdioOpen(files) && 2 <= fd < OPS_SIZE && Opened(vol, files.fds[fd], name) && nbytes > 0
    requires forall i :: 0 <= i < |vol| ==> GoodFile(vol[i])
    ensures var (after, reply) := ReadStep(vol, files, fd, nbytes);
      && reply.value == |reply.data|
      && (reply.value == 0 <==> Remaining(vol, files, fd) == [])
      && (reply.value == 0 ==> after == if files.fds[fd].fop == DirectoryOps then files.(dirReadCount := 0) else files)
      && (reply.value > 0 ==>
           && Remaining(vol, files, fd) == reply.data + Remaining(vol, after, fd)
           && Distance(vol, after, fd) < Distance(vol, files, fd))
      && Opened(vol, after.fds[fd], name)
      && forall k :: 0 <= k < OPS_SIZE && k != fd ==> after.fds[k] == files.fds[k]
  {
    var e := files.fds[fd];
    if e.fop == DirectoryOps {
      if files.dirReadCount < |vol| {
        assert GoodFile(vol[files.dirReadCount]);
        assert vol[files.dirReadCount].name + [] == vol[files.dirReadCount].name;
      }
    } else if OnFile(vol, e) {
      ReadStepOnFile(vol, files, fd, nbytes);
      var file := Contents(vol, e.fileName);
      var n := Min(nbytes, |file| - e.filePos);
      assert file[e.filePos..] == file[e.filePos..e.filePos + n] + file[e.filePos + n..];
      if n == 0 {
        assert files.fds[fd := e] == files.fds;
      }
    }
  }

  /** Everything that reads on a freshly opened entry deliver: a file's contents;
      for the directory, the names from the shared counter on; for the clock, nothing. */
  ghost function Delivery(vol: seq<File>, name: seq<byte>, dirReadCount: nat): seq<byte>
    requires Lookup(vol, name).Some?
  {
    var f := Lookup(vol, name).value;
    if f.kind == KIND_FILE then f.contents
    else if f.kind == KIND_DIRECTORY then Names(vol, dirReadCount, [])
    else []
  }

  ghost predicate OpenFails(vol: seq<File>, files: Files, name: seq<byte>)
    requires |files.fds| == OPS_SIZE
  {
    OpenStep(vol, files, name).1.value == -1
  }

  lemma FreshDescriptor(vol: seq<File>, files: Files, name: seq<byte>)
    requires StdioOpen(files) && !OpenFails(vol, files, name)
    requires forall i :: 0 <= i < |vol| ==> GoodFile(vol[i])
    ensures var (after, reply) := OpenStep(vol, files, name);
      && 2 <= reply.value < OPS_SIZE
      && !InUse(files.fds[reply.value])
      && Opened(vol, after.fds[reply.value], name)
      && Remaining(vol, after, reply.value) == Delivery(vol, name, files.dirReadCount)
  {
    OpenIsLowestFree(vol, files, name);
    LookupIsStored(vol, name);
    var f := Lookup(vol, name).value;
    assert GoodFile(f);
    var (after, reply) := OpenStep(vol, files, name);
    if f.kind == KIND_FILE {
      assert Remaining(vol, after, reply.value) == f.contents[0..];
    }
  }

  /** The slots that a program leaves as it found them: all but the free one it opened. */
  twostate predicate OthersUndisturbed(k: Kernel.Kernel)
    reads k.fde
  {
    && k.fde.Length == OPS_SIZE
    && forall fd :: 0 <= fd < OPS_SIZE && old(InUse(k.fde[fd])) ==> k.fde[fd] == old(k.fde[fd])
  }

  /** A read on an open descriptor, as cat sees it. */
  method ReadChunk(k: Kernel.Kernel, fd: int, name: seq<byte>, buf: array<byte>, nbytes: int) returns (cnt: int)
    requires k.Valid() && 2 <= fd < OPS_SIZE && Opened(k.vol, k.fde[fd], name)
    requires buf != k.fs.img && FNAME_LENGTH <= nbytes <= buf.Length && nbytes < 0x8000_0000
    modifies k`dirReadCount, k.fde, buf
    ensures k.Valid() && Opened(k.vol, k.fde[fd], name)
    ensures forall j :: 0 <= j < OPS_SIZE && j != fd ==> k.fde[j] == old(k.fde[j])
    ensures 0 <= cnt <= buf.Length
    ensures cnt == 0 <==> old(Remaining(k.vol, k.State(), fd)) == []
    ensures cnt > 0 ==>
      && old(Remaining(k.vol, k.State(), fd)) == buf[..cnt] + Remaining(k.vol, k.State(), fd)
      && Distance(k.vol, k.State(), fd) < old(Distance(k.vol, k.State(), fd))
  {
    ghost var before, was := k.State(), buf[..];
    ReadTakesRemaining(k.vol, before, fd, name, nbytes);
    cnt := k.Read(fd, buf, 0, nbytes);
    ghost var reply := ReadStep(k.vol, before, fd, nbytes).1;
    if reply.data != [] {
      Memory.StoredReads(was, buf[..], 0, k.Delivered(before.fds[fd].fop, reply));
      assert buf[..cnt] == reply.data;
    }
  }

  /** A read of the directory, as ls sees it. */
  method ReadName(k: Kernel.Kernel, fd: int, buf: array<byte>, nbytes: int) returns (cnt: int)
    requires k.Valid() && 2 <= fd < OPS_SIZE && Opened(k.vol, k.fde[fd], DIRECTORY) && k.fde[fd].fop == DirectoryOps
    requires buf != k.fs.img && FNAME_LENGTH <= nbytes <= buf.Length && nbytes < 0x8000_0000
    modifies k`dirReadCount, k.fde, buf
    ensures k.Valid() && k.fde[..] == old(k.fde[..])
    ensures if old(k.dirReadCount) >= |k.vol| then cnt == 0 && k.dirReadCount == 0
            else 0 < cnt < FNAME_LENGTH && k.dirReadCount == old(k.dirReadCount) + 1
                 && buf[..cnt] == k.vol[old(k.dirReadCount)].name
  {
    ghost var before, was := k.State(), buf[..];
    assert k.dirReadCount < |k.vol| ==> GoodFile(k.vol[k.dirReadCount]);
    cnt := k.Read(fd, buf, 0, nbytes);
    ghost var reply := ReadStep(k.vol, before, fd, nbytes).1;
    if reply.data != [] {
      Memory.StoredReads(was, buf[..], 0, reply.data + [NUL]);
      assert buf[..cnt] == reply.data;
    }
  }

  /** cat: opens the named entry and copies it to the terminal, chunk by chunk. */
  method Cat(k: Kernel.Kernel, name: seq<byte>) returns (r: int)
    requires k.Valid() && Copyable(k.vol, name)
    modifies k, k.fde
    ensures k.Valid() && OthersUndisturbed(k)
    ensures old(OpenFails(k.vol, k.State(), name)) ==>
      r == 2 && k.screen == old(k.screen) + Ascii("file not found\n")
    ensures !old(OpenFails(k.vol, k.State(), name)) ==>
      r == 0 && k.screen == old(k.screen) + Delivery(k.vol, name, old(k.dirReadCount))
  {
    var buf := new byte[BUFSIZE];
    ghost var before := k.State();
    var fd := k.Open(name);
    if fd == -1 {
      var w := k.Write(1, Ascii("file not found\n"));
      return 2;
    }
    FreshDescriptor(k.vol, before, name);
    r := CopyOut(k, fd, name, buf);
  }

  /** One round of cat: a read and, unless it reported the end, a write. */
  method CopyChunk(k: Kernel.Kernel, fd: int, name: seq<byte>, buf: array<byte>) returns (cnt: int, w: int)
    requires k.Valid() && 2 <= fd < OPS_SIZE && Opened(k.vol, k.fde[fd], name)
    requires buf != k.fs.img && buf.Length == BUFSIZE
    modifies k, k.fde, buf
    ensures k.Valid() && Opened(k.vol, k.fde[fd], name) && w == 0
    ensures forall j :: 0 <= j < OPS_SIZE && j != fd ==> k.fde[j] == old(k.fde[j])
    ensures cnt == 0 ==> old(Remaining(k.vol, k.State(), fd)) == [] && k.screen == old(k.screen)
    ensures cnt != 0 ==>
      && k.screen + Remaining(k.vol, k.State(), fd) == old(k.screen) + old(Remaining(k.vol, k.State(), fd))
      && Distance(k.vol, k.State(), fd) < old(Distance(k.vol, k.State(), fd))
  {
    w := 0;
    cnt := ReadChunk(k, fd, name, buf, BUFSIZE);
    if cnt != 0 {
      ghost var printed, chunk, files := k.screen, buf[..cnt], k.State();
      w := k.Write(1, buf[..cnt]);
      assert k.State() == files && k.screen == printed + chunk;
    }
  }

  /** The loop of cat: everything that remains goes to the terminal. */
  method CopyOut(k: Kernel.Kernel, fd: int, name: seq<byte>, buf: array<byte>) returns (r: int)
    requires k.Valid() && 2 <= fd < OPS_SIZE && Opened(k.vol, k.fde[fd], name)
    requires buf != k.fs.img && buf.Length == BUFSIZE
    modifies k, k.fde, buf
    ensures k.Valid() && r == 0
    ensures k.screen == old(k.screen) + old(Remaining(k.vol, k.State(), fd))
    ensures forall j :: 0 <= j < OPS_SIZE && j != fd ==> k.fde[j] == old(k.fde[j])
  {
    while true
      invariant k.Valid() && Opened(k.vol, k.fde[fd], name)
      invariant k.screen + Remaining(k.vol, k.State(), fd) == old(k.screen) + old(Remaining(k.vol, k.State(), fd))
      invariant forall j :: 0 <= j < OPS_SIZE && j != fd ==> k.fde[j] == old(k.fde[j])
      decreases Distance(k.vol, k.State(), fd)
    {
      var cnt, w := CopyChunk(k, fd, name, buf);
      if cnt == 0 {
        break;
      }
      if w == -1 {
        return 3;
      }
    }
    return 0;
  }

  /** ls: prints the directory, one name a line, and leaves the shared counter at
      the start; a counter left in the middle hides the names before it. */
  method Ls(k: Kernel.Kernel) returns (r: int)
    requires k.Valid()
    requires Lookup(k.vol, DIRECTORY).Some? ==> Lookup(k.vol, DIRECTORY).value.kind == KIND_DIRECTORY
    modifies k, k.fde
    ensures k.Valid() && OthersUndisturbed(k)
    ensures old(OpenFails(k.vol, k.State(), DIRECTORY)) ==>
      r == 2 && k.screen == old(k.screen) + Ascii("directory open failed\n")
    ensures !old(OpenFails(k.vol, k.State(), DIRECTORY)) ==>
      && r == 0
      && k.screen == old(k.screen) + Names(k.vol, old(k.dirReadCount), [NEWLINE])
      && k.dirReadCount == 0
  {
    var buf := new byte[SBUFSIZE];
    ghost var before := k.State();
    var fd := k.Open(DIRECTORY);
    if fd == -1 {
      var w := k.Write(1, Ascii("directory open failed\n"));
      return 2;
    }
    FreshDescriptor(k.vol, before, DIRECTORY);
    r := ListNames(k, fd, buf);
  }

  /** One round of ls: a name is read and, unless that was the end, printed on a line. */
  method ListName(k: Kernel.Kernel, fd: int, buf: array<byte>) returns (cnt: int, w: int)
    requires k.Valid() && 2 <= fd < OPS_SIZE && Opened(k.vol, k.fde[fd], DIRECTORY) && k.fde[fd].fop == DirectoryOps
    requires buf != k.fs.img && buf.Length == SBUFSIZE
    modifies k, k.fde, buf
    ensures k.Valid() && Opened(k.vol, k.fde[fd], DIRECTORY) && k.fde[fd].fop == DirectoryOps && w == 0
    ensures forall j :: 0 <= j < OPS_SIZE && j != fd ==> k.fde[j] == old(k.fde[j])
    ensures if old(k.dirReadCount) >= |k.vol| then cnt == 0 && k.dirReadCount == 0 && k.screen == old(k.screen)
            else cnt != 0 && k.dirReadCount == old(k.dirReadCount) + 1
                 && k.screen == old(k.screen) + (k.vol[old(k.dirReadCount)].name + [NEWLINE])
  {
    w := 0;
    cnt := ReadName(k, fd, buf, SBUFSIZE - 1);
    if cnt != 0 {
      buf[cnt] := NEWLINE;
      w := k.Write(1, buf[..cnt + 1]);
    }
  }

  /** The loop of ls. */
  method ListNames(k: Kernel.Kernel, fd: int, buf: array<byte>) returns (r: int)
    requires k.Valid() && 2 <= fd < OPS_SIZE && Opened(k.vol, k.fde[fd], DIRECTORY) && k.fde[fd].fop == DirectoryOps
    requires buf != k.fs.img && buf.Length == SBUFSIZE
    modifies k, k.fde, buf
    ensures k.Valid() && r == 0 && k.dirReadCount == 0
    ensures k.screen == old(k.screen) + Names(k.vol, old(k.dirReadCount), [NEWLINE])
    ensures forall j :: 0 <= j < OPS_SIZE && j != fd ==> k.fde[j] == old(k.fde[j])
  {
    while true
      invariant k.Valid() && Opened(k.vol, k.fde[fd], DIRECTORY) && k.fde[fd].fop == DirectoryOps
      invariant k.screen + Names(k.vol, k.dirReadCount, [NEWLINE]) ==
                old(k.screen) + Names(k.vol, old(k.dirReadCount), [NEWLINE])
      invariant forall j :: 0 <= j < OPS_SIZE && j != fd ==> k.fde[j] == old(k.fde[j])
      decreases |k.vol| - k.dirReadCount
    {
      var cnt, w := ListName(k, fd, buf);
      if cnt == 0 {
        break;
      }
      if w == -1 {
        return 3;
      }
    }
    return 0;
  }
}
