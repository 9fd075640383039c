/** The kernel's access to the image: parsing the boot block, directory lookup,
    and gathering a file's bytes from blocks scattered over the disk. */
module FileSystem {
  import opened Prelude
  import opened Bytes
  import opened Image
  import Memory

  /** Within one block, consecutive bytes of a file are consecutive on the disk. */
  lemma BlockSlice(m: seq<byte>, inode: nat, check: nat, offset: nat, n: nat)
    requires GoodInode(m, inode) && KB4 * check < FileLength(m, inode)
    requires offset + n <= KB4 && KB4 * check + offset + n <= FileLength(m, inode)
    ensures var src := BlockAt(m, inode, check) + offset;
      m[src..src + n] == FileBytes(m, inode)[KB4 * check + offset..KB4 * check + offset + n]
  {
    var src := BlockAt(m, inode, check) + offset;
    var from := KB4 * check + offset;
    var slice, part := m[src..src + n], FileBytes(m, inode)[from..from + n];
    forall j | 0 <= j < n ensures slice[j] == part[j] {
      FileByteOnDisk(m, inode, check, offset + j);
    }
  }

  /** Where a round of the gathering loop stands: with no whole block left the
      rest lies in one block, otherwise the block can be read to its end. */
  lemma RoundFits(check: nat, offset: nat, readBytes: nat, total: nat)
    requires offset <= KB4 && KB4 * check + offset + readBytes == total && readBytes > 0
    ensures total / KB4 <= check ==> offset + readBytes <= KB4
    ensures total / KB4 > check ==> readBytes >= KB4 - offset
    ensures KB4 * check < total
  {
    if total / KB4 > check {
      assert KB4 * (check + 1) <= KB4 * (total / KB4);
    }
  }

  lemma KeptInAByte(n: nat)
    requires n < 256
    ensures n % 256 == n
  {
  }

  class FileSystem {
    const img: array<byte>
    ghost const image: seq<byte>    // what is on the disk
    var numDirEntries: nat
    var numInodes: nat
    var numDataBlocks: nat
    const dirEntries: array<nat>
    var inodeBlocks: nat
    var dataBlocks: nat

    ghost predicate Valid()
      reads this, img, dirEntries
    {
      && img[..] == image
      && Complete(image)
      && numDirEntries == Word(image, 0)
      && numInodes == Word(image, 4)
      && numDataBlocks == Word(image, 8)
      && dirEntries.Length == MAX_DENTRIES
      && (forall i :: 0 <= i < MAX_DENTRIES ==> dirEntries[i] == DentryAt(i))
      && inodeBlocks == KB4
      && dataBlocks == DataStart(image)
    }

    /** The word stored at a position of the image. */
    method LoadWord(at: nat) returns (w: nat)
      requires at + 4 <= img.Length
      ensures w == Word(img[..], at)
    {
      w := img[at] as int + 0x100 * img[at + 1] as int + 0x1_0000 * img[at + 2] as int + 0x100_0000 * img[at + 3] as int;
      ghost var m := img[..];
      assert Word(m, at + 3, at + 4) == m[at + 3];
      assert Word(m, at + 2, at + 4) == m[at + 2] as int + 0x100 * Word(m, at + 3, at + 4);
      assert Word(m, at + 1, at + 4) == m[at + 1] as int + 0x100 * Word(m, at + 2, at + 4);
    }

    /** filesys_init: walks a pointer over the boot block. */
    constructor (disk: array<byte>)
      requires Complete(disk[..])
      ensures Valid() && img == disk && image == disk[..]
      ensures fresh(dirEntries)
    {
      img, image := disk, disk[..];
      dirEntries := new nat[MAX_DENTRIES];
      inodeBlocks, dataBlocks := 0, 0;
      numDirEntries, numInodes, numDataBlocks := 0, 0, 0;
      new;
      var ptr := 0;
      numDirEntries := LoadWord(ptr);
      ptr := ptr + 4;
      numInodes := LoadWord(ptr);
      ptr := ptr + 4;
      numDataBlocks := LoadWord(ptr);
      ptr := ptr + 4;
      ptr := ptr + 4 * 13;
      var d := 0;
      while d < MAX_DENTRIES
        invariant 0 <= d <= MAX_DENTRIES && ptr == DentryAt(d)
        invariant unchanged(img)
        invariant numDirEntries == Word(image, 0) && numInodes == Word(image, 4) && numDataBlocks == Word(image, 8)
        invariant forall i :: 0 <= i < d ==> dirEntries[i] == DentryAt(i)
      {
        dirEntries[d] := ptr;
        ptr := ptr + DENTRY_SIZE;
        d := d + 1;
      }
      inodeBlocks := ptr;
      dataBlocks := inodeBlocks + numInodes * KB4;
    }

    // ---- Reading data ---------------------------------------------------------

    /** read_data: fills `buf` from index `at` with up to `length` bytes of a file. */
    method ReadData(inode: nat, offset: nat, buf: array<byte>, at: nat, length: nat) returns (r: int)
      requires Valid() && HasInode(image, inode) && buf != img
      requires FileLength(image, inode) <= KB4 * MAX_DBLOCKS_PER_FILE ==>
        && GoodInode(image, inode)
        && offset <= FileLength(image, inode)
        && offset + length < TWO_TO_THE_32
        && at + Min(length, FileLength(image, inode) - offset) <= buf.Length
      modifies buf
      ensures FileLength(image, inode) > KB4 * MAX_DBLOCKS_PER_FILE ==> r == -1 && unchanged(buf)
      ensures FileLength(image, inode) <= KB4 * MAX_DBLOCKS_PER_FILE ==>
        && r == Min(length, FileLength(image, inode) - offset)
        && buf[..] == Memory.Stored(old(buf[..]), at, FileBytes(image, inode)[offset..offset + r])
    {
      ghost var m := image;
      var inodePtr := KB4 * (inode + 1);
      var fileLength := LoadWord(inodePtr);
      if fileLength > KB4 * MAX_DBLOCKS_PER_FILE {
        return -1;
      }
      var lengthCheck := (fileLength - offset) % TWO_TO_THE_32;
      var adjustedLength, sizeTotal := length, offset + length;
      if offset + length > fileLength {
        adjustedLength := fileLength - offset;
        sizeTotal := offset + adjustedLength;
      }
      if lengthCheck <= 0 {
        assert buf[..] == Memory.Stored(buf[..], at, FileBytes(m, inode)[offset..offset]);
        return 0;
      }
      Gather(inode, offset, buf, at, adjustedLength);
      return adjustedLength;
    }

    /** The block loops of read_data. When `offset0` is a non-zero multiple of the
        block size the first round copies nothing, from the end of the block before. */
    method Gather(inode: nat, offset0: nat, buf: array<byte>, at: nat, length: nat)
      requires Valid() && GoodInode(image, inode) && buf != img
      requires offset0 + length <= FileLength(image, inode) && at + length <= buf.Length
      modifies buf
      ensures buf[..] == Memory.Stored(old(buf[..]), at, FileBytes(image, inode)[offset0..offset0 + length])
    {
      ghost var file := FileBytes(image, inode);
      var offset, check, blockCt, readBytes, buffer := offset0, 0, (offset0 + length) / KB4, length, at;
      while offset > KB4
        invariant 0 <= offset && 0 <= check
        invariant offset0 == KB4 * check + offset
        invariant blockCt == (offset0 + length) / KB4 - check
      {
        offset := offset - KB4;
        check := check + 1;
        blockCt := blockCt - 1;
      }
      while readBytes > 0
        invariant 0 <= readBytes <= length && 0 <= check && 0 <= offset <= KB4
        invariant readBytes > 0 ==>
          && KB4 * check + offset == offset0 + length - readBytes
          && blockCt == (offset0 + length) / KB4 - check
          && buffer - at == length - readBytes
        invariant forall j :: at <= j < at + length - readBytes ==> buf[j] == file[j - at + offset0]
        invariant forall j :: 0 <= j < buf.Length && !(at <= j < at + length - readBytes) ==> buf[j] == old(buf[j])
        decreases readBytes > 0, blockCt
      {
        RoundFits(check, offset, readBytes, offset0 + length);
        if blockCt <= 0 {
          CopyFromBlock(inode, check, offset, buf, buffer, readBytes);
          readBytes := 0;
        } else {
          blockCt := blockCt - 1;
          CopyFromBlock(inode, check, offset, buf, buffer, KB4 - offset);
          buffer := buffer + KB4 - offset;
          readBytes := readBytes - (KB4 - offset);
          offset := 0;
          check := check + 1;
        }
      }
      Memory.StoredPointwise(old(buf[..]), buf[..], at, file[offset0..offset0 + length]);
    }

    /** One memcpy out of the data block that holds part `check` of the file. */
    method CopyFromBlock(inode: nat, check: nat, offset: nat, buf: array<byte>, buffer: nat, n: nat)
      requires Valid() && GoodInode(image, inode) && buf != img
      requires offset + n <= KB4 && KB4 * check + offset + n <= FileLength(image, inode)
      requires KB4 * check < FileLength(image, inode) && buffer + n <= buf.Length
      modifies buf
      ensures forall j :: buffer <= j < buffer + n ==>
        buf[j] == FileBytes(image, inode)[j - buffer + KB4 * check + offset]
      ensures forall j :: 0 <= j < buf.Length && !(buffer <= j < buffer + n) ==> buf[j] == old(buf[j])
    {
      BlockSlice(image, inode, check, offset, n);
      var number := LoadWord(KB4 * (inode + 1) + 4 + 4 * check);
      var src := dataBlocks + KB4 * number + offset;
      Memory.Memcpy(buf, buffer, img, src, n);
      Memory.StoredReads(old(buf[..]), buf[..], buffer, img[src..src + n]);
    }
  
    // ---- Directory ------------------------------------------------------------

    /** The entry at a position of the boot block, copied out field by field. */
    method CopyDentry(check: nat, name: seq<byte>) returns (d: Dentry)
      requires Valid() && check < numDirEntries && name == DentryOf(image, check).name
      ensures d == DentryOf(image, check)
    {
      var ptr := dirEntries[check];
      ptr := ptr + FNAME_LENGTH;
      var kind := img[ptr];
      ptr := ptr + FS_FIELD_SIZE;
      var inode := LoadWord(ptr);
      d := Dentry(name, kind, inode);
    }

    /** strlen on the name field of an entry. */
    method NameLength(check: nat) returns (len: nat)
      requires Valid() && check < numDirEntries && GoodDentry(image, DentryOf(image, check))
      ensures len == |DentryOf(image, check).name|
      ensures img[DentryAt(check)..DentryAt(check) + len] == DentryOf(image, check).name
    {
      ghost var name := DentryOf(image, check).name;
      NameIsCString(image, DentryAt(check), DentryAt(check) + FNAME_LENGTH);
      len := Strlen(img, dirEntries[check], name);
    }

    /** The two-step name comparison: lengths, each kept in a byte, then contents. */
    method CompareName(fname: seq<byte>, check: nat) returns (compare: int)
      requires Valid() && check < numDirEntries && GoodDentry(image, DentryOf(image, check))
      requires NUL !in fname
      ensures compare == 0 <==> DentryOf(image, check).name == Cut(fname)
    {
      var fnameLen := |fname| % 256;
      var len := NameLength(check);
      var dentryFilenameLen := len % 256;
      KeptInAByte(len);
      compare := 1;
      if dentryFilenameLen == fnameLen {
        compare := Strncmp(fname, img, dirEntries[check], fnameLen);
      }
    }

    /** The search of read_dentry_by_name, for a name of any length: the first
        entry that carries the compared part, or the number of entries. */
    method SearchName(fname: seq<byte>) returns (check: nat)
      requires Valid() && WellFormed(image) && NUL !in fname
      ensures check <= numDirEntries && (check < numDirEntries <==> Find(image, Cut(fname)).Some?)
      ensures check < numDirEntries ==>
        DentryOf(image, check).name == Cut(fname) && Find(image, Cut(fname)) == Some(DentryOf(image, check))
    {
      ghost var m := image;
      check := 0;
      while check < numDirEntries
        invariant check <= numDirEntries && Find(m, Cut(fname)) == Find(m, Cut(fname), check)
      {
        assert GoodDentry(m, DentryOf(m, check));
        var compare := CompareName(fname, check);
        if compare == 0 {
          return;
        }
        check := check + 1;
      }
    }

    /** read_dentry_by_name: the first entry that carries the name. */
    method ReadDentryByName(fname: seq<byte>) returns (r: Option<Dentry>)
      requires Valid() && WellFormed(image) && NUL !in fname
      requires |fname| < 256 || Find(image, Cut(fname)).None?
      ensures r == Find(image, fname)
    {
      CutAgrees(image, fname);
      var check := SearchName(fname);
      if check == numDirEntries {
        return None;
      }
      var d := CopyDentry(check, fname);
      return Some(d);
    }

    /** read_dentry_by_index. */
    method ReadDentryByIndex(index: nat) returns (r: Option<Dentry>)
      requires Valid() && WellFormed(image)
      ensures r == if index < Word(image, 0) then Some(DentryOf(image, index)) else None
    {
      if index >= numDirEntries {
        return None;
      }
      assert GoodDentry(image, DentryOf(image, index));
      var len := NameLength(index);
      var at := dirEntries[index];
      var d := CopyDentry(index, img[at..at + len]);
      return Some(d);
    }
  
    // ---- The image as a volume ------------------------------------------------

    /** The kind of the named entry, if there is one. */
    method KindOf(name: seq<byte>, ghost vol: seq<File>) returns (r: Option<byte>)
      requires Valid() && WellFormed(image) && Holds(image, vol) && Copyable(vol, name)
      ensures r == match Lookup(vol, name) case None => None case Some(f) => Some(f.kind)
    {
      FindIsLookup(image, vol, Cut(name));
      FindIsLookup(image, vol, name);
      assert vol[0..] == vol;
      var found := ReadDentryByName(name);
      r := if found.None? then None else Some(found.value.kind);
    }

    /** Finds a regular file by name and reads from it, as every file read does. */
    method ReadNamed(name: seq<byte>, offset: nat, buf: array<byte>, at: nat, nbytes: nat, ghost vol: seq<File>)
      returns (r: int)
      requires Valid() && WellFormed(image) && Holds(image, vol) && Copyable(vol, name)
      requires var f := Lookup(vol, name);
        && f.Some? && f.value.kind == KIND_FILE && offset <= |f.value.contents|
        && at + Min(nbytes, |f.value.contents| - offset) <= buf.Length
      requires buf != img && nbytes < 0x8000_0000
      modifies buf
      ensures var file := Lookup(vol, name).value.contents;
        && r == Min(nbytes, |file| - offset)
        && buf[..] == Memory.Stored(old(buf[..]), at, file[offset..offset + r])
    {
      FindIsLookup(image, vol, Cut(name));
      FindIsLookup(image, vol, name);
      assert vol[0..] == vol;
      var found := ReadDentryByName(name);
      r := ReadData(found.value.inode, offset, buf, at, nbytes);
    }

    /** The name of a directory entry. */
    method NameOf(index: nat, ghost vol: seq<File>) returns (r: Option<seq<byte>>)
      requires Valid() && WellFormed(image) && Holds(image, vol)
      ensures r == if index < |vol| then Some(vol[index].name) else None
    {
      var found := ReadDentryByIndex(index);
      assert Entry(index);
      r := if found.None? then None else Some(found.value.name);
    }
  }
}
