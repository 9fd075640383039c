/** The read-only file system image: a boot block with up to 63 directory
    entries, then the inodes, then the data blocks, all 4 KB each. */
module Image {
  import opened Prelude
  import opened Bytes

  const MAX_DENTRIES := 63
  const DENTRY_SIZE := 64
  const FNAME_LENGTH := 32
  const FS_FIELD_SIZE := 4
  const MAX_DBLOCKS_PER_FILE := 1023

  /** One more than the largest value of a number of bytes. */
  function Range(n: nat): nat
    requires n <= 4
  {
    if n == 0 then 1 else if n == 1 then 0x100 else if n == 2 then 0x1_0000 else if n == 3 then 0x100_0000 else TWO_TO_THE_32
  }

  /** The little-endian word at `at..end`, four bytes unless stated. */
  function Word(img: seq<byte>, at: nat, end: nat := at + 4): (w: nat)
    requires at <= end <= at + 4 && end <= |img|
    ensures w < Range(end - at)
    decreases |img|, end - at
  {
    if at == end then 0 else img[at] as int + 0x100 * Word(img, at + 1, end)
  }

  /** The boot block, the inodes and the data blocks it announces are all there. */
  ghost predicate Complete(img: seq<byte>) {
    && |img| >= KB4
    && Word(img, 0) <= MAX_DENTRIES
    && |img| >= DataStart(img) + KB4 * Word(img, 8)
  }

  ghost function DataStart(img: seq<byte>): nat
    requires |img| >= KB4
  {
    KB4 + KB4 * Word(img, 4)
  }

  // ---- Files ----------------------------------------------------------------

  function InodeAt(ino: nat): nat {
    KB4 * (ino + 1)
  }

  ghost predicate HasInode(img: seq<byte>, ino: nat) {
    Complete(img) && ino < Word(img, 4)
  }

  ghost function FileLength(img: seq<byte>, ino: nat): nat
    requires HasInode(img, ino)
  {
    Word(img, InodeAt(ino))
  }

  ghost function BlockNumber(img: seq<byte>, ino: nat, k: nat): nat
    requires HasInode(img, ino) && k < MAX_DBLOCKS_PER_FILE
  {
    Word(img, InodeAt(ino) + 4 + 4 * k)
  }

  /** The file's length is representable and its blocks exist, in any order on disk. */
  ghost predicate GoodInode(img: seq<byte>, ino: nat) {
    && HasInode(img, ino)
    && FileLength(img, ino) <= KB4 * MAX_DBLOCKS_PER_FILE
    && forall k :: 0 <= k < MAX_DBLOCKS_PER_FILE && KB4 * k < FileLength(img, ino) ==> BlockNumber(img, ino, k) < Word(img, 8)
  }

  /** Where block `k` of a file lies on the disk. */
  ghost function BlockAt(img: seq<byte>, ino: nat, k: nat): (at: nat)
    requires GoodInode(img, ino) && KB4 * k < FileLength(img, ino)
    ensures at + KB4 <= |img|
  {
    DataStart(img) + KB4 * BlockNumber(img, ino, k)
  }

  /** The blocks of a file, in inode order. */
  ghost function Blocks(img: seq<byte>, ino: nat): (r: seq<seq<byte>>)
    requires GoodInode(img, ino)
    ensures AllOfSize(r, KB4)
  {
    seq(BlockCount(img, ino), k requires 0 <= k < BlockCount(img, ino) => img[BlockAt(img, ino, k)..][..KB4])
  }

  ghost function BlockCount(img: seq<byte>, ino: nat): (n: nat)
    requires GoodInode(img, ino)
    ensures KB4 * n >= FileLength(img, ino) > KB4 * (n - 1)
  {
    (FileLength(img, ino) + KB4 - 1) / KB4
  }

  /** The contents of a file: its blocks joined in inode order, cut at its length. */
  ghost function FileBytes(img: seq<byte>, ino: nat): (r: seq<byte>)
    requires GoodInode(img, ino)
    ensures |r| == FileLength(img, ino)
  {
    Flat(Blocks(img, ino), KB4)[..FileLength(img, ino)]
  }

  /** Every byte of a file is the byte that its inode's block list addresses. */
  lemma FileByteOnDisk(img: seq<byte>, ino: nat, k: nat, r: nat)
    requires GoodInode(img, ino) && r < KB4 && KB4 * k + r < FileLength(img, ino)
    ensures FileBytes(img, ino)[KB4 * k + r] == img[BlockAt(img, ino, k) + r]
  {
    var blocks := Blocks(img, ino);
    FlatAt(blocks, KB4, k, r);
    assert blocks[k] == img[BlockAt(img, ino, k)..][..KB4];
  }

  // ---- Directory --------------------------------------------------------------

  function DentryAt(i: nat): nat {
    DENTRY_SIZE + DENTRY_SIZE * i
  }

  /** The bytes from `at` up to a NUL or `end`, whichever comes first. */
  ghost function NameAt(img: seq<byte>, at: nat, end: nat): (r: seq<byte>)
    requires at <= end <= |img|
    ensures |r| <= end - at
    decreases |img|, end - at
  {
    if at == end || img[at] == NUL then [] else [img[at]] + NameAt(img, at + 1, end)
  }

  /** A name that ends before its field does is a C string. */
  lemma {:induction false} NameIsCString(img: seq<byte>, at: nat, end: nat)
    requires at <= end <= |img|
    ensures NUL !in NameAt(img, at, end)
    ensures |NameAt(img, at, end)| < end - at ==> IsCString(img, at, NameAt(img, at, end))
    decreases end - at
  {
    if at < end && img[at] != NUL {
      NameIsCString(img, at + 1, end);
      var rest := NameAt(img, at + 1, end);
      assert NameAt(img, at, end) == [img[at]] + rest;
    }
  }

  datatype Dentry = Dentry(name: seq<byte>, kind: byte, inode: nat)

  ghost function DentryOf(img: seq<byte>, i: nat): Dentry
    requires Complete(img) && i < Word(img, 0)
  {
    var at := DentryAt(i);
    Dentry(NameAt(img, at, at + FNAME_LENGTH), img[at + FNAME_LENGTH], Word(img, at + FNAME_LENGTH + FS_FIELD_SIZE))
  }

  /** Directory entry kinds. */
  const KIND_RTC: byte := 0
  const KIND_DIRECTORY: byte := 1
  const KIND_FILE: byte := 2

  /** Names are NUL terminated within their field, non-empty and distinct;
      entries of kind 2 are files whose inodes are good. */
  ghost predicate WellFormed(img: seq<byte>) {
    && Complete(img)
    && (forall i :: 0 <= i < Word(img, 0) ==> GoodDentry(img, DentryOf(img, i)))
    && (forall i, j :: 0 <= i < j < Word(img, 0) ==> DentryOf(img, i).name != DentryOf(img, j).name)
  }

  ghost predicate GoodDentry(img: seq<byte>, d: Dentry) {
    && 0 < |d.name| < FNAME_LENGTH
    && d.kind <= KIND_FILE
    && (d.kind == KIND_FILE ==> GoodInode(img, d.inode))
  }

  /** The first entry from `i` on that carries the name. */
  ghost function Find(img: seq<byte>, name: seq<byte>, i: nat := 0): Option<Dentry>
    requires Complete(img) && i <= Word(img, 0)
    decreases Word(img, 0) - i
  {
    if i == Word(img, 0) then None
    else if DentryOf(img, i).name == name then Some(DentryOf(img, i))
    else Find(img, name, i + 1)
  }

  /** Lookup by name succeeds on every stored name and agrees with lookup by index. */
  lemma {:induction false} FindAgreesWithIndex(img: seq<byte>, j: nat, i: nat := 0)
    requires WellFormed(img) && i <= j < Word(img, 0)
    ensures Find(img, DentryOf(img, j).name, i) == Some(DentryOf(img, j))
    decreases j - i
  {
    if i < j {
      FindAgreesWithIndex(img, j, i + 1);
    }
  }

  /** Lookup by name fails on every name that is not stored. */
  lemma {:induction false} FindOnlyStoredNames(img: seq<byte>, name: seq<byte>, i: nat := 0)
    requires Complete(img) && i <= Word(img, 0)
    ensures Find(img, name, i).None? <==> forall j :: i <= j < Word(img, 0) ==> DentryOf(img, j).name != name
    decreases Word(img, 0) - i
  {
    if i < Word(img, 0) {
      FindOnlyStoredNames(img, name, i + 1);
    }
  }

  /** The part of a name that lookup compares: its length is kept in a byte. */
  function Cut(name: seq<byte>): (r: seq<byte>)
    ensures |name| < 256 ==> r == name
    ensures |r| < 256
  {
    name[..|name| % 256]
  }

  /** Lookup of the compared part agrees with lookup of the name exactly when
      the name is short or the part is not found either. */
  lemma CutAgrees(img: seq<byte>, name: seq<byte>)
    requires WellFormed(img)
    ensures Find(img, Cut(name)) == Find(img, name) <==> |name| < 256 || Find(img, Cut(name)).None?
  {
    if |name| >= 256 {
      FindOnlyStoredNames(img, name);
      assert forall j :: 0 <= j < Word(img, 0) ==> GoodDentry(img, DentryOf(img, j));
    }
  }

  /** Such a name: a stored one with 256 further bytes is not in the directory,
      and is taken for the stored one. */
  lemma LongNameExample(img: seq<byte>, j: nat, more: seq<byte>)
    requires WellFormed(img) && j < Word(img, 0) && |more| == 256
    ensures var name := DentryOf(img, j).name + more;
      Find(img, name).None? && Find(img, Cut(name)) == Some(DentryOf(img, j))
  {
    var stored := DentryOf(img, j).name;
    assert GoodDentry(img, DentryOf(img, j));
    assert Cut(stored + more) == stored;
    FindAgreesWithIndex(img, j);
    CutAgrees(img, stored + more);
    FindOnlyStoredNames(img, stored + more);
    assert forall i :: 0 <= i < Word(img, 0) ==> GoodDentry(img, DentryOf(img, i));
  }

  /** A small image: the boot block alone, with one entry, the directory itself. */
  function SmallImage(): (img: seq<byte>)
    ensures |img| == KB4
  {
    seq(KB4, i => if i == 0 then 1 else if i == DENTRY_SIZE then DOT else if i == DENTRY_SIZE + FNAME_LENGTH then KIND_DIRECTORY else NUL)
  }

  lemma SmallImageWords(at: nat)
    requires at + 4 <= KB4 && (at == 0 || at == 4 || at == 8)
    ensures Word(SmallImage(), at) == if at == 0 then 1 else 0
  {
    var img := SmallImage();
    assert Word(img, at + 3, at + 4) == img[at + 3];
    assert Word(img, at + 2, at + 4) == img[at + 2] as int + 0x100 * Word(img, at + 3, at + 4);
    assert Word(img, at + 1, at + 4) == img[at + 1] as int + 0x100 * Word(img, at + 2, at + 4);
  }

  lemma SmallImageIsWellFormed()
    ensures WellFormed(SmallImage()) && Word(SmallImage(), 0) == 1
    ensures DentryOf(SmallImage(), 0).name == [DOT]
  {
    var img := SmallImage();
    SmallImageWords(0);
    SmallImageWords(4);
    SmallImageWords(8);
    var at, end := DENTRY_SIZE, DENTRY_SIZE + FNAME_LENGTH;
    assert NameAt(img, at + 1, end) == [];
    assert NameAt(img, at, end) == [DOT] + [];
  }

  /** On it the dot with 256 further bytes is taken for the dot. */
  lemma LongDotExample()
    ensures WellFormed(SmallImage())
    ensures var name := [DOT] + seq(256, _ => SPACE);
      Find(SmallImage(), name).None? && Find(SmallImage(), Cut(name)).Some?
  {
    SmallImageIsWellFormed();
    LongNameExample(SmallImage(), 0, seq(256, _ => SPACE));
  }

  // ---- The image as a volume of files -------------------------------------------

  /** A directory entry together with the contents it stands for; entries that
      are not regular files have none. */
  datatype File = File(name: seq<byte>, kind: byte, contents: seq<byte>)

  ghost function FileOf(img: seq<byte>, d: Dentry): File
    requires GoodDentry(img, d)
  {
    File(d.name, d.kind, if d.kind == KIND_FILE then FileBytes(img, d.inode) else [])
  }

  /** The files of the image in directory order. */
  ghost function Volume(img: seq<byte>): (r: seq<File>)
    requires WellFormed(img)
    ensures Holds(img, r)
  {
    seq(Word(img, 0), i requires 0 <= i < Word(img, 0) => FileOf(img, DentryOf(img, i)))
  }

  /** Mentions an entry, so that what is known of it comes into play. */
  predicate Entry(i: int) {
    true
  }

  /** The image holds exactly these files, in directory order. */
  ghost predicate Holds(img: seq<byte>, vol: seq<File>)
    requires WellFormed(img)
  {
    && |vol| == Word(img, 0)
    && forall i {:trigger Entry(i)} :: 0 <= i < |vol| && Entry(i) ==> vol[i] == FileOf(img, DentryOf(img, i))
  }

  /** The first file of a volume with the given name. */
  ghost function Lookup(vol: seq<File>, name: seq<byte>): Option<File> {
    if vol == [] then None
    else if vol[0].name == name then Some(vol[0])
    else Lookup(vol[1..], name)
  }

  lemma {:induction false} LookupIsStored(vol: seq<File>, name: seq<byte>)
    ensures var r := Lookup(vol, name);
      && (r.Some? ==> r.value in vol && r.value.name == name)
      && (r.None? ==> forall f :: f in vol ==> f.name != name)
  {
    if vol != [] {
      LookupIsStored(vol[1..], name);
      assert forall f :: f in vol ==> f == vol[0] || f in vol[1..];
    }
  }

  /** Lookup in the directory on disk is lookup in the volume. */
  lemma {:induction false} FindIsLookup(img: seq<byte>, vol: seq<File>, name: seq<byte>, i: nat := 0)
    requires WellFormed(img) && Holds(img, vol) && i <= |vol|
    ensures Find(img, name, i).None? ==> Lookup(vol[i..], name).None?
    ensures Find(img, name, i).Some? ==>
      GoodDentry(img, Find(img, name, i).value) &&
      Lookup(vol[i..], name) == Some(FileOf(img, Find(img, name, i).value))
    decreases |vol| - i
  {
    if i < |vol| {
      assert Entry(i);
      assert vol[i..][1..] == vol[i + 1..];
      FindIsLookup(img, vol, name, i + 1);
    }
  }

  /** A name that lookup does not copy beyond the bytes reserved for it: a match
      copies the whole name and not only the part that was compared. */
  ghost predicate Copyable(vol: seq<File>, name: seq<byte>) {
    NUL !in name && (|name| < 256 || Lookup(vol, Cut(name)).None?)
  }

  /** What a well-formed image guarantees about its files. */
  ghost predicate GoodFile(f: File) {
    && 0 < |f.name| < FNAME_LENGTH && NUL !in f.name && f.kind <= KIND_FILE
    && |f.contents| <= KB4 * MAX_DBLOCKS_PER_FILE && (f.kind != KIND_FILE ==> f.contents == [])
  }

  lemma VolumeGood(img: seq<byte>, vol: seq<File>)
    requires WellFormed(img) && Holds(img, vol)
    ensures forall f :: f in vol ==> GoodFile(f)
  {
    forall i | 0 <= i < |vol| ensures GoodFile(vol[i]) {
      assert Entry(i);
      NameIsCString(img, DentryAt(i), DentryAt(i) + FNAME_LENGTH);
      assert GoodDentry(img, DentryOf(img, i));
    }
  }

  lemma LookupIsGood(vol: seq<File>, name: seq<byte>)
    requires Lookup(vol, name).Some? && forall i :: 0 <= i < |vol| ==> GoodFile(vol[i])
    ensures GoodFile(Lookup(vol, name).value) && Copyable(vol, name)
  {
    LookupIsStored(vol, name);
  }
}
