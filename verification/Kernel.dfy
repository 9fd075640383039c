/** The file system calls of the running process, on its descriptor table. */
module Kernel {
  import opened Prelude
  import opened Bytes
  import opened Image
  import opened Descriptors
  import FileSystem
  import Memory

  /** Calls on which the model says what happens: names that are not copied too far,
      and reads of files, directories, the clock or bad descriptors. */
  ghost predicate CanPerform(vol: seq<File>, files: Files, call: Call)
    requires |files.fds| == OPS_SIZE
  {
    match call
    case Open(name) => Copyable(vol, name)
    case Close(_) => true
    case Read(fd, nbytes) =>
      nbytes < 0x8000_0000 &&
      (0 <= fd < OPS_SIZE && fd != 1 && InUse(files.fds[fd]) ==>
        files.fds[fd].fop == RtcOps || files.fds[fd].fop == DirectoryOps || OnFile(vol, files.fds[fd]))
  }

  ghost predicate Performable(vol: seq<File>, files: Files, calls: seq<Call>)
    requires |files.fds| == OPS_SIZE
  {
    forall i :: 0 <= i < |calls| ==> CanPerform(vol, Run(vol, files, calls[..i]), calls[i])
  }

  /** A reply's value is the number of bytes it carries, or a failure that carries none. */
  lemma ReplyCountsData(vol: seq<File>, files: Files, fd: int, nbytes: nat)
    requires |files.fds| == OPS_SIZE
    ensures var reply := ReadStep(vol, files, fd, nbytes).1;
      if reply.value > 0 then |reply.data| == reply.value else reply.data == []
  {
  }

  class Kernel {
    const fs: FileSystem.FileSystem
    ghost const vol: seq<File>      // the files on the disk
    const fde: array<FdEntry>
    var dirReadCount: nat
    var screen: seq<byte>           // everything written to standard output

    ghost predicate Valid()
      reads this`dirReadCount, fde, fs, fs.img, fs.dirEntries
    {
      && fs.Valid()
      && WellFormed(fs.image)
      && Holds(fs.image, vol)
      && (forall i :: 0 <= i < |vol| ==> GoodFile(vol[i]))
      && fde.Length == OPS_SIZE
      && StdioOpen(State())
    }

    ghost function State(): Files
      reads this`dirReadCount, fde
    {
      Files(fde[..], dirReadCount)
    }

    /** A new process: standard input and output are terminals, and the other
        slots hold whatever was on the stack, because init_fd clears a copy. */
    constructor (fileSystem: FileSystem.FileSystem, stale: seq<FdEntry>, counter: nat)
      requires fileSystem.Valid() && WellFormed(fileSystem.image) && |stale| == OPS_SIZE
      ensures Valid() && fs == fileSystem && vol == Volume(fs.image) && screen == [] && dirReadCount == counter
      ensures forall fd :: 2 <= fd < OPS_SIZE ==> fde[fd] == stale[fd]
      ensures fresh(fde)
    {
      fs, dirReadCount, screen := fileSystem, counter, [];
      vol := Volume(fileSystem.image);
      VolumeGood(fileSystem.image, Volume(fileSystem.image));
      fde := new FdEntry[OPS_SIZE](i requires 0 <= i < OPS_SIZE => stale[i]);
      new;
      fde[0] := FdEntry(TerminalOps, stale[0].fileName, 0, 1);
      fde[1] := FdEntry(TerminalOps, stale[1].fileName, 0, 1);
    }

    /** check_use: outside the table this reads whatever memory lies there. */
    method CheckUse(fd: int) returns (r: nat)
      requires Valid()
      ensures 0 <= fd < OPS_SIZE ==> r == fde[fd].inUse
    {
      if 0 <= fd < OPS_SIZE {
        r := fde[fd].inUse;
      } else {
        r := *;
      }
    }

    // ---- open and close -----------------------------------------------------------

    /** open. */
    method Open(name: seq<byte>) returns (r: int)
      requires Valid() && Copyable(vol, name)
      modifies fde
      ensures Valid()
      ensures (State(), Reply(r, [])) == OpenStep(vol, old(State()), name)
    {
      var location := 0;
      while true
        invariant unchanged(fde)
        invariant 0 <= location <= OPS_SIZE
        invariant LowestFree(fde[..]) == LowestFree(fde[..], location)
        decreases OPS_SIZE - location
      {
        if location == OPS_SIZE {
          return -1;
        }
        var use := CheckUse(location);
        if use % 2 == 0 {
          break;
        }
        location := location + 1;
      }
      var kind := fs.KindOf(name, vol);
      if kind.None? {
        return -1;
      }
      fde[location] := FdEntry(FopsFor(kind.value, fde[location].fop), name, 0, 1);
      return location;
    }

    /** close: the slot is inspected before the descriptor's range is checked,
        but a descriptor out of range is refused whatever that inspection read. */
    method Close(fd: int) returns (r: int)
      requires Valid()
      modifies fde
      ensures Valid()
      ensures (State(), Reply(r, [])) == CloseStep(old(State()), fd)
    {
      var use := CheckUse(fd);
      if use % 2 == 0 {
        return -1;
      }
      if fd <= 1 || fd >= OPS_SIZE {
        return -1;
      }
      if fde[fd].fop == NullOps {
        return -1;
      }
      fde[fd] := fde[fd].(fop := NullOps, filePos := 0, inUse := 0);
      return 0;
    }

    // ---- read and write -----------------------------------------------------------

    /** read_file: the position is kept in the descriptor, the inode is found
        again by name on every call. */
    method ReadFile(fd: int, buf: array<byte>, at: nat, nbytes: nat) returns (r: int)
      requires Valid() && 2 <= fd < OPS_SIZE && InUse(fde[fd]) && OnFile(vol, fde[fd])
      requires buf != fs.img && nbytes < 0x8000_0000
      requires at + Min(nbytes, |Contents(vol, fde[fd].fileName)| - fde[fd].filePos) <= buf.Length
      modifies fde, buf
      ensures Valid()
      ensures var file, pos := Contents(vol, old(fde[fd]).fileName), old(fde[fd]).filePos;
        && r == Min(nbytes, |file| - pos)
        && buf[..] == Memory.Stored(old(buf[..]), at, file[pos..pos + r])
        && fde[..] == old(fde[..])[fd := old(fde[fd]).(filePos := pos + r)]
    {
      LookupIsGood(vol, fde[fd].fileName);
      r := fs.ReadNamed(fde[fd].fileName, fde[fd].filePos, buf, at, nbytes, vol);
      fde[fd] := fde[fd].(filePos := fde[fd].filePos + r);
    }

    /** read_directory: the next name of the directory, ignoring the requested
        size; the end of the directory starts the counter again. */
    method ReadDirectory(buf: array<byte>, at: nat) returns (r: int)
      requires Valid() && buf != fs.img && at + FNAME_LENGTH <= buf.Length
      modifies this`dirReadCount, buf
      ensures Valid()
      ensures if old(dirReadCount) >= |vol| then r == 0 && dirReadCount == 0 && unchanged(buf)
              else var name := vol[old(dirReadCount)].name;
                && r == |name| < FNAME_LENGTH
                && dirReadCount == old(dirReadCount) + 1
                && buf[..] == Memory.Stored(old(buf[..]), at, name + [NUL])
    {
      var name := fs.NameOf(dirReadCount, vol);
      if name.None? {
        dirReadCount := 0;
        return 0;
      }
      Memory.CopyString(name.value, buf, at);
      dirReadCount := dirReadCount + 1;
      return |name.value|;
    }

    /** What a read on this descriptor is defined on: a regular file with room in
        the buffer, a directory with room for any name, or a bad descriptor. */
    ghost predicate CanRead(fd: int, buf: array<byte>, at: nat, nbytes: int)
      requires Valid()
      reads this`dirReadCount, fde, fs, fs.img, fs.dirEntries
    {
      && 0 <= nbytes < 0x8000_0000
      && buf != fs.img
      && (0 <= fd < OPS_SIZE && fd != 1 && InUse(fde[fd]) ==>
        || (fde[fd].fop == RtcOps)
        || (fde[fd].fop == DirectoryOps && at + FNAME_LENGTH <= buf.Length)
        || (OnFile(vol, fde[fd]) && at + Min(nbytes, |Contents(vol, fde[fd].fileName)| - fde[fd].filePos) <= buf.Length))
    }

    /** What the buffer receives: a file's bytes, or a directory name and its NUL. */
    ghost function Delivered(fop: Fops, reply: Reply): seq<byte> {
      if fop == DirectoryOps && reply.value > 0 then reply.data + [NUL] else reply.data
    }

    /** read, for a file, a directory or the clock; reading the clock waits for a
        tick and returns 0. */
    method Read(fd: int, buf: array?<byte>, at: nat, nbytes: int) returns (r: int)
      requires Valid() && (buf != null ==> CanRead(fd, buf, at, nbytes))
      modifies this`dirReadCount, fde, buf
      ensures Valid()
      ensures buf == null ==> r == -1 && State() == old(State())
      ensures buf != null ==>
        var (after, reply) := ReadStep(vol, old(State()), fd, nbytes);
        State() == after && r == reply.value
      ensures buf != null ==>
        var reply := ReadStep(vol, old(State()), fd, nbytes).1;
        if reply.data == [] then buf[..] == old(buf[..])
        else buf[..] == Memory.Stored(old(buf[..]), at, Delivered(old(fde[..])[fd].fop, reply))
    {
      if buf == null || fd < 0 || fd >= OPS_SIZE {
        return -1;
      }
      var use := CheckUse(fd);
      if use % 2 == 0 || fd == 1 {
        return -1;
      }
      if fde[fd].fop == DirectoryOps {
        r := ReadDirectory(buf, at);
      } else if fde[fd].fop == FileOps {
        ReadStepOnFile(vol, State(), fd, nbytes);
        r := ReadFile(fd, buf, at, nbytes);
      } else {
        r := 0;
      }
    }

    /** write: files and directories are read-only, standard input refuses, and a
        terminal takes all the bytes and reports 0. */
    method Write(fd: int, data: seq<byte>) returns (r: int)
      requires Valid()
      requires 0 < fd < OPS_SIZE && InUse(fde[fd]) ==> fde[fd].fop in {TerminalOps, DirectoryOps, FileOps}
      modifies this`screen
      ensures Valid() && State() == old(State())
      ensures (r, screen) == if 0 < fd < OPS_SIZE && InUse(fde[fd]) && fde[fd].fop == TerminalOps
                             then (0, old(screen) + data) else (-1, old(screen))
    {
      if fd < 0 || fd >= OPS_SIZE {
        return -1;
      }
      var use := CheckUse(fd);
      if use % 2 == 0 || fd == 0 || fde[fd].fop != TerminalOps {
        return -1;
      }
      screen := screen + data;
      return 0;
    }

    // ---- Whole runs ---------------------------------------------------------------

    /** Any sequence of opens, reads and closes is the run of the table, and its
        replies are those of the run. */
    method Perform(calls: seq<Call>) returns (replies: seq<Reply>)
      requires Valid() && Performable(vol, State(), calls)
      modifies this`dirReadCount, fde
      ensures Valid() && State() == Run(vol, old(State()), calls) && |replies| == |calls|
      ensures forall i :: 0 <= i < |calls| ==>
        replies[i] == Step(vol, Run(vol, old(State()), calls[..i]), calls[i]).1
    {
      hide Run, Step;
      replies := [];
      ghost var start := State();
      RunNothing(vol, start);
      assert calls[..0] == [];
      for i := 0 to |calls|
        invariant Valid() && State() == Run(vol, start, calls[..i]) && |replies| == i
        invariant forall j :: 0 <= j < i ==> replies[j] == Step(vol, Run(vol, start, calls[..j]), calls[j]).1
      {
        RunNext(vol, start, calls, i);
        var reply := PerformOne(calls[i]);
        replies := replies + [reply];
      }
      assert calls[..|calls|] == calls;
    }

    method PerformOne(call: Call) returns (reply: Reply)
      requires Valid() && CanPerform(vol, State(), call)
      modifies this`dirReadCount, fde
      ensures Valid() && (State(), reply) == Step(vol, old(State()), call)
    {
      match call {
        case Open(name) =>
          var r := Open(name);
          reply := Reply(r, []);
        case Close(fd) =>
          var r := Close(fd);
          reply := Reply(r, []);
        case Read(fd, nbytes) =>
          reply := PerformRead(fd, nbytes);
      }
    }

    /** A read into a buffer with room for what was asked for, and for a name. */
    method PerformRead(fd: int, nbytes: nat) returns (reply: Reply)
      requires Valid() && CanPerform(vol, State(), Call.Read(fd, nbytes))
      modifies this`dirReadCount, fde
      ensures Valid() && (State(), reply) == ReadStep(vol, old(State()), fd, nbytes)
    {
      ghost var before := State();
      var buf := new byte[nbytes + FNAME_LENGTH];
      ghost var was := buf[..];
      var r := Read(fd, buf, 0, nbytes);
      ghost var expected := ReadStep(vol, before, fd, nbytes).1;
      ReplyCountsData(vol, before, fd, nbytes);
      if r <= 0 {
        return Reply(r, []);
      }
      Memory.StoredReads(was, buf[..], 0, Delivered(before.fds[fd].fop, expected));
      assert buf[..r] == expected.data;
      reply := Reply(r, buf[..r]);
    }
  }
}
