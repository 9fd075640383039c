/** The image format from the writer's side: how a disk with given directory
    entries, inodes and data blocks is laid out in bytes. What the kernel reads
    from an image written like this is what was written. */
module Disk {
  import opened Prelude
  import opened Bytes
  import opened Image

  // The format, in bytes and words.
  const WORD := 4
  const HEADER_WORDS := 16
  const ITEM := 64
  const NAME_FIELD := 32
  const MAX_ITEMS := 63
  const INODE_WORDS := 1024

  datatype Item = Item(name: seq<byte>, kind: byte, inode: nat)

  /** A file's length, and the numbers of its blocks in the order of its contents. */
  datatype Inode = Inode(length: nat, blocks: seq<nat>)

  datatype Disk = Disk(items: seq<Item>, inodes: seq<Inode>, data: seq<seq<byte>>)

  // ---- Writing -----------------------------------------------------------------

  /** A word, least significant byte first. */
  function WordBytes(w: nat): (r: seq<byte>)
    requires w < TWO_TO_THE_32
    ensures |r| == WORD
  {
    [w % 0x100, w / 0x100 % 0x100, w / 0x1_0000 % 0x100, w / 0x100_0000]
  }

  ghost predicate AreWords(ws: seq<nat>) {
    forall i :: 0 <= i < |ws| ==> ws[i] < TWO_TO_THE_32
  }

  ghost function WordParts(ws: seq<nat>): (r: seq<seq<byte>>)
    requires AreWords(ws)
    ensures |r| == |ws| && AllOfSize(r, WORD)
  {
    seq(|ws|, i requires 0 <= i < |ws| => WordBytes(ws[i]))
  }

  ghost function WordsBytes(ws: seq<nat>): (r: seq<byte>)
    requires AreWords(ws)
    ensures |r| == WORD * |ws|
  {
    Flat(WordParts(ws), WORD)
  }

  function Zeros(n: nat): (r: seq<nat>)
    ensures |r| == n && forall i :: 0 <= i < n ==> r[i] == 0
  {
    seq(n, _ => 0)
  }

  /** A name in its field, filled up with NUL bytes. */
  function NameBytes(name: seq<byte>): (r: seq<byte>)
    requires |name| <= NAME_FIELD
    ensures |r| == NAME_FIELD
  {
    name + seq(NAME_FIELD - |name|, _ => NUL)
  }

  ghost function ItemBytes(item: Item): (r: seq<byte>)
    requires |item.name| <= NAME_FIELD && item.inode < TWO_TO_THE_32
    ensures |r| == ITEM
  {
    NameBytes(item.name) + WordsBytes([item.kind, item.inode] + Zeros(6))
  }

  ghost function InodeBytes(inode: Inode): (r: seq<byte>)
    requires |inode.blocks| < INODE_WORDS && inode.length < TWO_TO_THE_32 && AreWords(inode.blocks)
    ensures |r| == KB4
  {
    WordsBytes([inode.length] + inode.blocks + Zeros(INODE_WORDS - 1 - |inode.blocks|))
  }

  /** A disk on which names are short and distinct, files have inodes, and inodes have blocks. */
  ghost predicate Sound(disk: Disk) {
    && |disk.items| <= MAX_ITEMS && |disk.inodes| < TWO_TO_THE_32 && |disk.data| < TWO_TO_THE_32
    && AllOfSize(disk.data, KB4)
    && (forall i :: 0 <= i < |disk.items| ==> SoundItem(disk, disk.items[i]))
    && (forall i, j :: 0 <= i < j < |disk.items| ==> disk.items[i].name != disk.items[j].name)
    && (forall ino :: 0 <= ino < |disk.inodes| ==> SoundInode(disk, disk.inodes[ino]))
  }

  ghost predicate SoundItem(disk: Disk, item: Item) {
    && 0 < |item.name| < NAME_FIELD && NUL !in item.name && item.kind <= KIND_FILE
    && item.inode < TWO_TO_THE_32 && (item.kind == KIND_FILE ==> item.inode < |disk.inodes|)
  }

  ghost predicate SoundInode(disk: Disk, inode: Inode) {
    && |inode.blocks| < INODE_WORDS && inode.length <= KB4 * |inode.blocks|
    && forall k :: 0 <= k < |inode.blocks| ==> inode.blocks[k] < |disk.data|
  }

  ghost function Items(disk: Disk): (r: seq<seq<byte>>)
    requires Sound(disk)
    ensures |r| == MAX_ITEMS && AllOfSize(r, ITEM)
  {
    seq(MAX_ITEMS, i requires 0 <= i < MAX_ITEMS =>
      if i < |disk.items| then ItemBytes(disk.items[i]) else seq(ITEM, _ => NUL))
  }

  ghost function Header(disk: Disk): (r: seq<byte>)
    requires Sound(disk)
    ensures |r| == WORD * HEADER_WORDS
  {
    WordsBytes([|disk.items|, |disk.inodes|, |disk.data|] + Zeros(HEADER_WORDS - 3))
  }

  ghost function Boot(disk: Disk): (r: seq<byte>)
    requires Sound(disk)
    ensures |r| == KB4
  {
    Header(disk) + Flat(Items(disk), ITEM)
  }

  ghost function Inodes(disk: Disk): (r: seq<seq<byte>>)
    requires Sound(disk)
    ensures |r| == |disk.inodes| && AllOfSize(r, KB4)
  {
    seq(|disk.inodes|, i requires 0 <= i < |disk.inodes| => InodeBytes(disk.inodes[i]))
  }

  /** The boot block, the inodes, the data blocks. */
  ghost function Written(disk: Disk): (img: seq<byte>)
    requires Sound(disk)
    ensures |img| == KB4 + KB4 * |disk.inodes| + KB4 * |disk.data|
  {
    Boot(disk) + Flat(Inodes(disk), KB4) + Flat(disk.data, KB4)
  }

  // ---- Reading back ------------------------------------------------------------

  /** A word that was written is read back, wherever it lies. */
  lemma WordReadsBack(img: seq<byte>, at: nat, w: nat)
    requires w < TWO_TO_THE_32 && at + WORD <= |img| && img[at..at + WORD] == WordBytes(w)
    ensures Word(img, at) == w
  {
    var bytes := img[at..at + WORD];
    assert forall r :: 0 <= r < WORD ==> img[at + r] == bytes[r];
    assert Word(img, at + 3, at + 4) == img[at + 3];
    assert Word(img, at + 2, at + 4) == img[at + 2] as int + 0x100 * Word(img, at + 3, at + 4);
    assert Word(img, at + 1, at + 4) == img[at + 1] as int + 0x100 * Word(img, at + 2, at + 4);
    hide WordBytes;
    WordSum(w);
  }

  lemma WordSum(w: nat)
    requires w < TWO_TO_THE_32
    ensures var b := WordBytes(w);
      w == b[0] as int + 0x100 * (b[1] as int + 0x100 * (b[2] as int + 0x100 * b[3] as int))
  {
    var u, v := w / 0x100, w / 0x1_0000;
    assert w == w % 0x100 + 0x100 * u && u == u % 0x100 + 0x100 * v && v == v % 0x100 + 0x100 * (w / 0x100_0000);
  }

  lemma WordsReadBack(img: seq<byte>, base: nat, ws: seq<nat>, k: nat)
    requires AreWords(ws) && k < |ws| && base + WORD * |ws| <= |img|
    requires img[base..base + WORD * |ws|] == WordsBytes(ws)
    ensures Word(img, base + WORD * k) == ws[k]
  {
    FlatSlice(WordParts(ws), WORD, k);
    SliceOfSlice(img, base, base + WORD * |ws|, WORD * k, WORD * k + WORD);
    WordReadsBack(img, base + WORD * k, ws[k]);
  }

  /** A name that was written is read back. */
  lemma {:induction false} NameReadsBack(img: seq<byte>, at: nat, end: nat, name: seq<byte>)
    requires at + |name| <= end <= |img| && NUL !in name
    requires forall i :: 0 <= i < |name| ==> img[at + i] == name[i]
    requires at + |name| < end ==> img[at + |name|] == NUL
    ensures NameAt(img, at, end) == name
    decreases |name|
  {
    if name != [] {
      assert name[0] in name;
      NameReadsBack(img, at + 1, end, name[1..]);
      assert NameAt(img, at, end) == [img[at]] + NameAt(img, at + 1, end);
    }
  }

  lemma CountsReadBack(disk: Disk)
    requires Sound(disk)
    ensures var img := Written(disk);
      Word(img, 0) == |disk.items| && Word(img, 4) == |disk.inodes| && Word(img, 8) == |disk.data|
  {
    var img, ws := Written(disk), [|disk.items|, |disk.inodes|, |disk.data|] + Zeros(HEADER_WORDS - 3);
    assert img[0..WORD * HEADER_WORDS] == Header(disk);
    WordsReadBack(img, 0, ws, 0);
    WordsReadBack(img, 0, ws, 1);
    WordsReadBack(img, 0, ws, 2);
  }

  /** Where the parts of a written image lie. */
  lemma PartsOfImage(disk: Disk)
    requires Sound(disk)
    ensures var img, n := Written(disk), |disk.inodes|;
      && (forall i :: 0 <= i < MAX_ITEMS ==> img[ITEM * (i + 1)..ITEM * (i + 1) + ITEM] == Items(disk)[i])
      && (forall i :: 0 <= i < n ==> img[KB4 * (i + 1)..KB4 * (i + 1) + KB4] == Inodes(disk)[i])
      && (forall b :: 0 <= b < |disk.data| ==> img[KB4 * (n + 1 + b)..KB4 * (n + 1 + b) + KB4] == disk.data[b])
  {
    hide Header, Items, Inodes, Flat;
    var img, n := Written(disk), |disk.inodes|;
    var boot, inodes, data := Boot(disk), Flat(Inodes(disk), KB4), Flat(disk.data, KB4);
    forall i | 0 <= i < MAX_ITEMS ensures img[ITEM * (i + 1)..ITEM * (i + 1) + ITEM] == Items(disk)[i] {
      FlatSlice(Items(disk), ITEM, i);
      Middle(Header(disk), Flat(Items(disk), ITEM), inodes + data, ITEM * i, ITEM);
      assert img == Header(disk) + Flat(Items(disk), ITEM) + (inodes + data);
    }
    forall i | 0 <= i < n ensures img[KB4 * (i + 1)..KB4 * (i + 1) + KB4] == Inodes(disk)[i] {
      FlatSlice(Inodes(disk), KB4, i);
      Middle(boot, inodes, data, KB4 * i, KB4);
    }
    forall b | 0 <= b < |disk.data| ensures img[KB4 * (n + 1 + b)..KB4 * (n + 1 + b) + KB4] == disk.data[b] {
      FlatSlice(disk.data, KB4, b);
      Middle(boot + inodes, data, [], KB4 * b, KB4);
      assert img == boot + inodes + data + [];
    }
  }

  lemma Middle<T>(a: seq<T>, b: seq<T>, c: seq<T>, at: nat, n: nat)
    requires at + n <= |b|
    ensures (a + b + c)[|a| + at..|a| + at + n] == b[at..at + n]
  {
  }

  lemma WrittenIsComplete(disk: Disk)
    requires Sound(disk)
    ensures Complete(Written(disk))
  {
    CountsReadBack(disk);
  }

  /** Name, kind and inode number of every entry are read back. */
  lemma ItemReadsBack(disk: Disk, i: nat)
    requires Sound(disk) && i < |disk.items|
    ensures Complete(Written(disk)) && i < Word(Written(disk), 0)
    ensures var item := disk.items[i];
      DentryOf(Written(disk), i) == Dentry(item.name, item.kind, item.inode)
  {
    hide Sound, Written;
    var img, item, at := Written(disk), disk.items[i], ITEM * (i + 1);
    SoundParts(disk);
    CountsReadBack(disk);
    WrittenIsComplete(disk);
    PartsOfImage(disk);
    assert img[at..at + ITEM] == ItemBytes(item);
    ItemFields(img, at, item);
  }

  lemma SoundParts(disk: Disk)
    requires Sound(disk)
    ensures |disk.items| <= MAX_ITEMS && |disk.inodes| < TWO_TO_THE_32 && |disk.data| < TWO_TO_THE_32
    ensures AllOfSize(disk.data, KB4)
    ensures |Written(disk)| == KB4 + KB4 * |disk.inodes| + KB4 * |disk.data|
    ensures forall i :: 0 <= i < |disk.items| ==> SoundItem(disk, disk.items[i]) && Items(disk)[i] == ItemBytes(disk.items[i])
    ensures forall i :: 0 <= i < |disk.inodes| ==> SoundInode(disk, disk.inodes[i]) && AreWords(disk.inodes[i].blocks)
    ensures forall i :: 0 <= i < |disk.inodes| ==>
      disk.inodes[i].length < TWO_TO_THE_32 && Inodes(disk)[i] == InodeBytes(disk.inodes[i])
  {
  }

  lemma ItemFields(img: seq<byte>, at: nat, item: Item)
    requires |item.name| < NAME_FIELD && item.inode < TWO_TO_THE_32 && NUL !in item.name
    requires at + ITEM <= |img| && img[at..at + ITEM] == ItemBytes(item)
    ensures NameAt(img, at, at + NAME_FIELD) == item.name
    ensures img[at + NAME_FIELD] == item.kind
    ensures Word(img, at + NAME_FIELD + WORD) == item.inode
  {
    hide Word, NameAt, Flat, WordParts;
    var ws: seq<nat> := [item.kind, item.inode] + Zeros(6);
    var name, words := NameBytes(item.name), WordsBytes(ws);
    assert ItemBytes(item) == name + words;
    TwoParts(img, at, name, words);
    WordsReadBack(img, at + NAME_FIELD, ws, 1);
    assert ws[1] == item.inode;
    FirstByte(ws);
    assert words[0] == img[at + NAME_FIELD];
    NameReadsBack(img, at, at + NAME_FIELD, item.name);
  }

  /** Where the two parts of a piece of an image lie. */
  lemma TwoParts(img: seq<byte>, at: nat, a: seq<byte>, b: seq<byte>)
    requires at + |a| + |b| <= |img| && img[at..at + |a| + |b|] == a + b
    ensures img[at + |a|..at + |a| + |b|] == b
    ensures forall j :: 0 <= j < |a| ==> img[at + j] == a[j]
    ensures forall j :: 0 <= j < |b| ==> img[at + |a| + j] == b[j]
  {
    var piece := img[at..at + |a| + |b|];
    assert forall j :: 0 <= j < |piece| ==> img[at + j] == piece[j];
    forall j | 0 <= j < |b| ensures img[at + |a| + j] == b[j] {
      assert piece[|a| + j] == b[j];
    }
  }

  lemma FirstByte(ws: seq<nat>)
    requires AreWords(ws) && ws != [] && ws[0] < 0x100
    ensures WordsBytes(ws)[0] == ws[0]
  {
    FlatAt(WordParts(ws), WORD, 0, 0);
  }

  /** Length and block numbers of every inode are read back. */
  lemma InodeReadsBack(disk: Disk, ino: nat)
    requires Sound(disk) && ino < |disk.inodes|
    ensures HasInode(Written(disk), ino)
    ensures FileLength(Written(disk), ino) == disk.inodes[ino].length
    ensures forall k :: 0 <= k < |disk.inodes[ino].blocks| ==>
      BlockNumber(Written(disk), ino, k) == disk.inodes[ino].blocks[k]
  {
    hide Sound, Written;
    var img, inode, at := Written(disk), disk.inodes[ino], KB4 * (ino + 1);
    SoundParts(disk);
    CountsReadBack(disk);
    WrittenIsComplete(disk);
    PartsOfImage(disk);
    var ws := [inode.length] + inode.blocks + Zeros(INODE_WORDS - 1 - |inode.blocks|);
    assert img[at..at + KB4] == WordsBytes(ws);
    hide WordsBytes, Word;
    WordsReadBack(img, at, ws, 0);
    forall k | 0 <= k < |inode.blocks| ensures BlockNumber(img, ino, k) == inode.blocks[k] {
      WordsReadBack(img, at, ws, k + 1);
    }
  }

  // ---- Files -----------------------------------------------------------------------

  /** The contents of a file: the data blocks that its inode lists, cut at its length. */
  ghost function Contents(disk: Disk, inode: Inode): (r: seq<byte>)
    requires AllOfSize(disk.data, KB4) && SoundInode(disk, inode)
    ensures |r| == inode.length
  {
    Flat(Chosen(disk, inode), KB4)[..inode.length]
  }

  ghost function Chosen(disk: Disk, inode: Inode): (r: seq<seq<byte>>)
    requires AllOfSize(disk.data, KB4) && SoundInode(disk, inode)
    ensures |r| == |inode.blocks| && AllOfSize(r, KB4)
  {
    seq(|inode.blocks|, k requires 0 <= k < |inode.blocks| => disk.data[inode.blocks[k]])
  }

  /** However the pieces of some contents are placed on the disk, an inode that lists
      their places in order has those contents. */
  lemma AnyPlacement(disk: Disk, inode: Inode, contents: seq<byte>)
    requires AllOfSize(disk.data, KB4) && SoundInode(disk, inode) && inode.length == |contents|
    requires forall k, r :: 0 <= k < |inode.blocks| && 0 <= r < KB4 && KB4 * k + r < |contents| ==>
      disk.data[inode.blocks[k]][r] == contents[KB4 * k + r]
    ensures Contents(disk, inode) == contents
  {
    var flat := Flat(Chosen(disk, inode), KB4);
    forall i | 0 <= i < |contents| ensures flat[i] == contents[i] {
      FlatAt(Chosen(disk, inode), KB4, i / KB4, i % KB4);
    }
  }

  ghost function FilesOf(disk: Disk): seq<File>
    requires Sound(disk)
  {
    seq(|disk.items|, i requires 0 <= i < |disk.items| =>
      var item := disk.items[i];
      File(item.name, item.kind, if item.kind == KIND_FILE then Contents(disk, disk.inodes[item.inode]) else []))
  }

  lemma InodeIsGood(disk: Disk, ino: nat)
    requires Sound(disk) && ino < |disk.inodes|
    ensures GoodInode(Written(disk), ino)
    ensures FileBytes(Written(disk), ino) == Contents(disk, disk.inodes[ino])
  {
    hide Sound, Written, Flat, Blocks;
    var img, inode := Written(disk), disk.inodes[ino];
    InodeReadsBack(disk, ino);
    CountsReadBack(disk);
    SoundParts(disk);
    assert GoodInode(img, ino);
    var bytes, contents := FileBytes(img, ino), Contents(disk, inode);
    assert |bytes| == |contents|;
    forall i | 0 <= i < |contents| ensures bytes[i] == contents[i] {
      ByteReadsBack(disk, ino, i / KB4, i % KB4);
    }
  }

  lemma ByteReadsBack(disk: Disk, ino: nat, k: nat, r: nat)
    requires Sound(disk) && ino < |disk.inodes| && r < KB4 && KB4 * k + r < disk.inodes[ino].length
    requires GoodInode(Written(disk), ino) && FileLength(Written(disk), ino) == disk.inodes[ino].length
    ensures FileBytes(Written(disk), ino)[KB4 * k + r] == Contents(disk, disk.inodes[ino])[KB4 * k + r]
  {
    hide Sound, Written, Flat, FileBytes, Blocks;
    var img, inode := Written(disk), disk.inodes[ino];
    InodeReadsBack(disk, ino);
    CountsReadBack(disk);
    SoundParts(disk);
    PartsOfImage(disk);
    FileByteOnDisk(img, ino, k, r);
    FlatAt(Chosen(disk, inode), KB4, k, r);
    var b := inode.blocks[k];
    var from := KB4 * (|disk.inodes| + 1 + b);
    assert img[from..from + KB4][r] == img[from + r];
  }

  /** A written image is well-formed, and the files that it holds are the files written. */
  lemma WrittenReadsBack(disk: Disk)
    requires Sound(disk)
    ensures WellFormed(Written(disk)) && Volume(Written(disk)) == FilesOf(disk)
  {
    var img := Written(disk);
    CountsReadBack(disk);
    WrittenIsComplete(disk);
    SoundParts(disk);
    forall i | 0 <= i < |disk.items| ensures GoodDentry(img, DentryOf(img, i)) && FileOf(img, DentryOf(img, i)) == FilesOf(disk)[i] {
      ItemReadsBack(disk, i);
      if disk.items[i].kind == KIND_FILE {
        InodeIsGood(disk, disk.items[i].inode);
      }
    }
    forall i, j | 0 <= i < j < |disk.items| ensures DentryOf(img, i).name != DentryOf(img, j).name {
      ItemReadsBack(disk, i);
      ItemReadsBack(disk, j);
    }
    assert WellFormed(img);
    forall i | 0 <= i < |disk.items| ensures Volume(img)[i] == FilesOf(disk)[i] {
      assert Entry(i);
    }
  }
}
