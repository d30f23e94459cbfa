/** `mkfs` as it runs: allocating inodes, appending to files, and writing the bit map last
    (bin/mkfs.c:71-168, 226-310). */
module MkfsBuild {
  import opened FsLayout
  import opened FsImage
  import opened FsFile
  import opened FsWrite
  import opened Mkfs

  const DIRSIZ: nat := 24

  /** A file of the command line; the name is without a leading underscore. */
  datatype File = File(name: seq<Byte>, data: seq<Byte>)

  /** A directory entry: the inode number, then the name cut or padded to its field. */
  function Dirent(inum: nat, name: seq<Byte>): (d: seq<Byte>)
    ensures |d| == 32
  {
    seq(8, k requires 0 <= k => Digit(inum, k)) + seq(DIRSIZ, k requires 0 <= k => if k < |name| then name[k] else 0)
  }

  /** The entries of the root directory once the first `n` files are in. */
  function RootDir(files: seq<File>, n: nat): (d: seq<Byte>)
    requires n <= |files|
    ensures |d| == 32 * (2 + n)
  {
    if n == 0 then Dirent(ROOTINO, DOT) + Dirent(ROOTINO, DOTDOT)
    else RootDir(files, n - 1) + Dirent(n + 1, files[n - 1].name)
  }

  const DOT: seq<Byte> := [46]
  const DOTDOT: seq<Byte> := [46, 46]

  /** Bytes `32 * k` to `32 * (k + 1)` of a directory are an entry: the inode number in little-endian
      order, then the name cut to its field or padded with zeros. */
  ghost predicate EntryAt(d: seq<Byte>, k: nat, inum: nat, name: seq<Byte>) {
    && 32 * (k + 1) <= |d| && Value(d[32 * k .. 32 * k + 8]) == inum
    && forall j {:trigger d[32 * k + 8 + j]} :: 0 <= j < DIRSIZ ==>
         d[32 * k + 8 + j] == if j < |name| then name[j] else 0
  }

  lemma DirentIsEntry(inum: nat, name: seq<Byte>)
    requires inum < U64
    ensures EntryAt(Dirent(inum, name), 0, inum, name)
  {
    var d := Dirent(inum, name);
    DigitsValue(inum, d[.. 8]);
    assert d[0 .. 8] == d[.. 8];
  }

  lemma EntryMoves(d: seq<Byte>, k: nat, inum: nat, name: seq<Byte>, pre: seq<Byte>, k': nat, post: seq<Byte>)
    requires EntryAt(d, k, inum, name) && |pre| == 32 * (k' - k) && k <= k'
    ensures EntryAt(pre + d + post, k', inum, name)
  {
    var d' := pre + d + post;
    assert d'[32 * k' .. 32 * k' + 8] == d[32 * k .. 32 * k + 8];
    forall j | 0 <= j < DIRSIZ ensures d'[32 * k' + 8 + j] == if j < |name| then name[j] else 0 {
      assert d'[32 * k' + 8 + j] == d[32 * k + 8 + j];
    }
  }

  /** What entry `k` of the root directory names. */
  ghost predicate RootEntry(d: seq<Byte>, files: seq<File>, k: nat)
    requires k < |files| + 2
  {
    if k == 0 then EntryAt(d, k, ROOTINO, DOT)
    else if k == 1 then EntryAt(d, k, ROOTINO, DOTDOT)
    else EntryAt(d, k, k, files[k - 2].name)
  }

  lemma {:induction false} RootDirEntries(files: seq<File>, n: nat, k: nat)
    requires n <= |files| < NINODE && k < n + 2
    ensures RootEntry(RootDir(files, n), files, k)
  {
    var d := RootDir(files, n);
    if n == 0 {
      var dot, dotdot := Dirent(ROOTINO, DOT), Dirent(ROOTINO, DOTDOT);
      DirentIsEntry(ROOTINO, if k == 0 then DOT else DOTDOT);
      if k == 0 {
        EntryMoves(dot, 0, ROOTINO, DOT, [], 0, dotdot);
        assert d == [] + dot + dotdot;
      } else {
        EntryMoves(dotdot, 0, ROOTINO, DOTDOT, dot, 1, []);
        assert d == dot + dotdot + [];
      }
    } else {
      var d0, e := RootDir(files, n - 1), Dirent(n + 1, files[n - 1].name);
      if k < n + 1 {
        RootDirEntries(files, n - 1, k);
        var inum, name := if k < 2 then ROOTINO else k, if k == 0 then DOT else if k == 1 then DOTDOT
          else files[k - 2].name;
        EntryMoves(d0, k, inum, name, [], k, e);
        assert d == [] + d0 + e;
      } else {
        DirentIsEntry(n + 1, files[n - 1].name);
        EntryMoves(e, 0, n + 1, files[n - 1].name, d0, n + 1, []);
        assert d == d0 + e + [];
      }
    }
  }

  /** The blocks in use once the first `n` files are in: the metadata, the root directory, the files. */
  function Needed(files: seq<File>, n: nat): nat
    requires n <= |files|
  {
    NewSuper().Meta() + BlocksFor(32 * (2 + n)) + FileBlocks(files, n)
  }

  function FileBlocks(files: seq<File>, n: nat): nat
    requires n <= |files|
  {
    if n == 0 then 0 else FileBlocks(files, n - 1) + BlocksFor(|files[n - 1].data|)
  }

  lemma {:induction false} NeededGrows(files: seq<File>, n: nat, n': nat)
    requires n <= n' <= |files|
    ensures Needed(files, n) <= Needed(files, n')
  {
    if n < n' {
      NeededGrows(files, n, n' - 1);
      BlocksGrow(32 * (2 + n' - 1), 32 * (2 + n'));
    }
  }

  // The bit map.

  lemma {:induction false} NoBits(k: nat)
    ensures !ByteBit(0, k)
  {
    if k > 0 { NoBits(k - 1); }
  }

  /** The bit map block of the last step: exactly the bits below `used`. */
  method BitmapBlock(used: nat) returns (buf: Block)
    requires used < BPB
    ensures forall j {:trigger Bit(buf, j)} :: 0 <= j < BPB ==> (Bit(buf, j) <==> j < used)
  {
    buf := ZeroBlock();
    forall j | 0 <= j < BPB ensures !Bit(buf, j) { NoBits(j % 8); }
    for i := 0 to used
      invariant forall j {:trigger Bit(buf, j)} :: 0 <= j < BPB ==> (Bit(buf, j) <==> j < i)
    {
      ghost var was := buf;
      buf := SetBit(buf, i);
      forall j | 0 <= j < BPB ensures Bit(buf, j) <==> j < i + 1 { SetBitBits(was, i, j); }
    }
  }

  lemma ZeroUnused(sb: Super, m: Image, own: map<nat, Owner>, free: nat, b: nat)
    requires Building(sb, m, own, free) && b < sb.size
    ensures !Used(sb, m.blocks, b)
  {
    assert m.blocks[sb.Bblock(b)] == ZeroBlock();
    NoBits(b % BPB % 8);
  }

  /** With the first bit map block written the image is consistent. */
  lemma BitmapWritten(sb: Super, m: Image, own: map<nat, Owner>, free: nat, buf: Block)
    requires Building(sb, m, own, free) && free < BPB
    requires forall j {:trigger Bit(buf, j)} :: 0 <= j < BPB ==> (Bit(buf, j) <==> j < free)
    ensures Consistent(sb, m.blocks[sb.bmapStart := buf], m.inodes, own)
  {
    var blocks' := m.blocks[sb.bmapStart := buf];
    forall b | b in own && own[b].slot == NDIRECT ensures blocks'[b] == m.blocks[b] {
    }
    SlotsFrame(sb, m.blocks, m.inodes, own, blocks');
    forall b | 0 <= b < sb.size ensures Used(sb, blocks', b) <==> b < sb.Meta() || b in own {
      if b / BPB == 0 {
        assert b % BPB == b;
      } else {
        ZeroUnused(sb, m, own, free, b);
      }
    }
  }

  /** Rounding the size of a file up by a block beyond it leaves a hole exactly when the size was
      already a multiple of the block size. */
  lemma RoundedRoot(blocks: seq<Block>, ino: DInode)
    requires Exact(blocks, ino)
    ensures Whole(blocks, ino.(size := (ino.size / BSIZE + 1) * BSIZE)) <==> ino.size % BSIZE != 0
  {
    var off := ino.size;
    var ino' := ino.(size := (off / BSIZE + 1) * BSIZE);
    forall bn | 0 <= bn ensures DataAddr(blocks, ino', bn) == DataAddr(blocks, ino, bn) {
    }
    if off % BSIZE == 0 {
      assert DataAddr(blocks, ino', off / BSIZE) == 0;
    } else {
      forall bn | 0 <= bn && bn * BSIZE < ino'.size ensures DataAddr(blocks, ino', bn) != 0 {
        SpansMore(off, BSIZE - off % BSIZE, bn);
        assert DataAddr(blocks, ino, bn) != 0;
      }
      RoundedFits(off);
    }
  }

  lemma RoundedFits(off: nat)
    requires off <= MAXFILE * BSIZE && off % BSIZE != 0
    ensures (off / BSIZE + 1) * BSIZE <= MAXFILE * BSIZE
  {
  }

  function Blank(): DInode {
    DInode(0, 0, 0, 0, 0, seq(NDIRECT + 1, j => 0))
  }

  /** Type and link count move no block. */
  lemma InodeTyped(sb: Super, m: Image, own: map<nat, Owner>, free: nat, i: nat, typ: nat)
    requires Building(sb, m, own, free) && AllExact(m) && i < |m.inodes|
    ensures var m' := m.(inodes := m.inodes[i := m.inodes[i].(typ := typ, nlink := 1)]);
            Building(sb, m', own, free) && AllExact(m') && OtherFiles(m, m', i)
  {
    var m' := m.(inodes := m.inodes[i := m.inodes[i].(typ := typ, nlink := 1)]);
    forall k, t | Slot(k, t) && 0 <= k < |m.inodes| && 0 <= t < SLOTS
      ensures var a := SlotAddr(m.blocks, m'.inodes[k], t);
              a != 0 ==> sb.Data(a) && a in own && own[a] == Owner(k, t)
    {
      assert SlotAddr(m.blocks, m'.inodes[k], t) == SlotAddr(m.blocks, m.inodes[k], t);
    }
    forall k | 0 <= k < |m.inodes| ensures Exact(m.blocks, m'.inodes[k]) {
      assert Exact(m.blocks, m.inodes[k]);
      forall bn | 0 <= bn ensures DataAddr(m.blocks, m'.inodes[k], bn) == DataAddr(m.blocks, m.inodes[k], bn) {
      }
    }
  }

  const DIR: nat := 1
  const FILE: nat := 2

  predicate SameKind(ino: DInode, ino': DInode) {
    ino' == ino.(addrs := ino'.addrs, size := ino'.size)
  }

  lemma AppendedOn(sb: Super, m0: Image, own0: map<nat, Owner>, free0: nat, i: nat, off: nat, p: seq<Byte>, n: nat,
                   k: nat, m1: Image, own1: map<nat, Owner>, free1: nat, m: Image, own: map<nat, Owner>, free: nat)
    requires n + k <= |p| && i < |m0.inodes| == |m1.inodes|
    requires Appended(sb, m0, own0, free0, i, off, p[.. n], m1, own1, free1)
    requires Appended(sb, m1, own1, free1, i, off + n, p[n ..][.. k], m, own, free)
    ensures Appended(sb, m0, own0, free0, i, off, p[.. n + k], m, own, free)
  {
    AppendedMore(sb, m0, own0, free0, i, off, p[.. n], m1, own1, free1, p[n ..][.. k], m, own, free);
    assert p[.. n] + p[n ..][.. k] == p[.. n + k];
  }

  /** `s` has been appended to file `i` of image `m0`, which had `free0` as its next free block. */
  ghost predicate Part(m0: Image, free0: nat, i: nat, s: seq<Byte>, m: Image, free: nat) {
    && i < |m.inodes| && OtherFiles(m0, m, i) && SameKind(m0.inodes[i], m.inodes[i])
    && m.inodes[i].size == m0.inodes[i].size + |s|
    && Content(m.blocks, m.inodes[i]) == Content(m0.blocks, m0.inodes[i]) + s
    && free == free0 + BlocksFor(m0.inodes[i].size + |s|) - BlocksFor(m0.inodes[i].size)
  }

  lemma PartMore(m0: Image, free0: nat, i: nat, data: seq<Byte>, n: nat, k: nat, m1: Image, free1: nat, m: Image,
                 free: nat)
    requires n + k <= |data| && Part(m0, free0, i, data[.. n], m1, free1)
    requires OtherFiles(m1, m, i) && SameKind(m1.inodes[i], m.inodes[i])
    requires Content(m.blocks, m.inodes[i]) == Content(m1.blocks, m1.inodes[i]) + data[n ..][.. k]
    requires free == free1 + BlocksFor(m1.inodes[i].size + k) - BlocksFor(m1.inodes[i].size)
    ensures Part(m0, free0, i, data[.. n + k], m, free)
  {
    OtherFilesTrans(m0, m1, m, i);
    JoinParts(Content(m0.blocks, m0.inodes[i]), data, n, k, Content(m1.blocks, m1.inodes[i]));
    assert |Content(m.blocks, m.inodes[i])| == m.inodes[i].size;
  }

  lemma JoinParts(c: seq<Byte>, data: seq<Byte>, n: nat, k: nat, c1: seq<Byte>)
    requires n + k <= |data| && c1 == c + data[.. n]
    ensures c1 + data[n ..][.. k] == c + data[.. n + k] && |c1 + data[n ..][.. k]| == |c1| + k
  {
    assert data[.. n] + data[n ..][.. k] == data[.. n + k];
  }

  /** The root directory lists the first `n` files, and they hold their data. */
  ghost predicate HoldsFiles(m: Image, files: seq<File>, n: nat)
    requires n <= |files| && n + 2 <= |m.inodes|
  {
    && Content(m.blocks, m.inodes[ROOTINO]) == RootDir(files, n) && IsKind(m.inodes[ROOTINO], DIR)
    && forall k {:trigger files[k]} :: 0 <= k < n ==>
         Content(m.blocks, m.inodes[k + 2]) == files[k].data && IsKind(m.inodes[k + 2], FILE)
  }

  /** An inode was allocated, the root extended, and the file filled. */
  lemma FileAdded(m0: Image, m1: Image, m2: Image, m3: Image, files: seq<File>, n: nat)
    requires n < |files| && n + 2 < |m0.inodes| && HoldsFiles(m0, files, n)
    requires OtherFiles(m0, m1, n + 2) && OtherFiles(m1, m2, ROOTINO) && OtherFiles(m2, m3, n + 2)
    requires Content(m1.blocks, m1.inodes[n + 2]) == [] && IsKind(m1.inodes[n + 2], FILE)
    requires Content(m2.blocks, m2.inodes[ROOTINO]) ==
               Content(m1.blocks, m1.inodes[ROOTINO]) + Dirent(n + 2, files[n].name)
    requires SameKind(m1.inodes[ROOTINO], m2.inodes[ROOTINO]) && SameKind(m2.inodes[n + 2], m3.inodes[n + 2])
    requires Content(m3.blocks, m3.inodes[n + 2]) == Content(m2.blocks, m2.inodes[n + 2]) + files[n].data
    ensures HoldsFiles(m3, files, n + 1)
  {
    assert [] + files[n].data == files[n].data;
    forall k | 0 <= k < n
      ensures Content(m3.blocks, m3.inodes[k + 2]) == files[k].data && IsKind(m3.inodes[k + 2], FILE)
    {
      assert m1.inodes[k + 2] == m0.inodes[k + 2] && m2.inodes[k + 2] == m1.inodes[k + 2] &&
             m3.inodes[k + 2] == m2.inodes[k + 2];
    }
    assert m3.inodes[ROOTINO] == m2.inodes[ROOTINO] && m1.inodes[ROOTINO] == m0.inodes[ROOTINO] &&
           m2.inodes[n + 2] == m1.inodes[n + 2];
  }

  /** An inode of a type, with one link and no device. */
  predicate IsKind(ino: DInode, typ: nat) {
    ino.typ == typ && ino.nlink == 1 && ino.major == 0 && ino.minor == 0
  }

  class Maker {
    const sb: Super := NewSuper()
    var blocks: seq<Block>
    var inodes: seq<DInode>
    var freeblock: nat
    var freeinode: nat
    ghost var own: map<nat, Owner>

    ghost function Img(): Image
      reads this
    {
      Image(blocks, inodes)
    }

    ghost predicate Valid()
      reads this
    {
      && Building(sb, Img(), own, freeblock) && AllExact(Img()) && freeinode <= |inodes|
      && forall k {:trigger inodes[k]} :: freeinode <= k < |inodes| ==> inodes[k] == Blank()
    }

    /** All blocks and inodes zero. */
    constructor ()
      ensures Valid() && freeinode == ROOTINO && |inodes| == NINODE && freeblock == sb.Meta()
    {
      blocks := seq(FSSIZE, b => ZeroBlock());
      inodes := seq(NINODE, k => Blank());
      freeblock := NewSuper().Meta();
      freeinode := 1;
      own := map[];
    }

    /** `ialloc`. */
    method Ialloc(typ: nat) returns (inum: nat)
      requires Valid() && freeinode < |inodes|
      modifies this`inodes, this`freeinode
      ensures Valid() && inum == old(freeinode) && freeinode == inum + 1 && |inodes| == old(|inodes|)
      ensures OtherFiles(old(Img()), Img(), inum) && Content(blocks, inodes[inum]) == []
      ensures IsKind(inodes[inum], typ)
    {
      inum := freeinode;
      freeinode := freeinode + 1;
      assert inodes[inum] == Blank();
      InodeTyped(sb, Img(), own, freeblock, inum, typ);
      inodes := inodes[inum := Blank().(typ := typ, nlink := 1)];
    }

    /** The block a slot points to, taken from `freeblock` when there is none. */
    method FindIn(i: nat, s: nat) returns (x: nat)
      requires i < |inodes| && s < SLOTS && (s > NDIRECT ==> inodes[i].addrs[NDIRECT] < |blocks|)
      modifies this`blocks, this`inodes, this`freeblock
      ensures Found(Img(), freeblock, x) == FindSlot(old(Img()), old(freeblock), i, s)
    {
      x := SlotAddr(blocks, inodes[i], s);
      if x == 0 {
        x := freeblock;
        freeblock := freeblock + 1;
        if s <= NDIRECT {
          inodes := inodes[i := inodes[i].(addrs := inodes[i].addrs[s := x])];
        } else {
          var ind := inodes[i].addrs[NDIRECT];
          blocks := blocks[ind := SetWord(blocks[ind], s - NDIRECT - 1, x)];
        }
      }
    }

    /** The block for block number `fbn` of file `i`. */
    method FindBlock(i: nat, fbn: nat) returns (x: nat)
      requires i < |inodes| && fbn < MAXFILE
      modifies this`blocks, this`inodes, this`freeblock
      ensures Found(Img(), freeblock, x) == Find(old(Img()), old(freeblock), i, fbn)
    {
      if fbn < NDIRECT {
        x := FindIn(i, fbn);
      } else {
        x := FindIn(i, NDIRECT);
        if inodes[i].addrs[NDIRECT] < |blocks| {
          x := FindIn(i, fbn + 1);
        }
      }
    }

    /** One round of the loop of `iappend`. */
    method AppendRound(i: nat, off: nat, s: seq<Byte>, ghost own0: map<nat, Owner>)
      returns (ghost own1: map<nat, Owner>)
      requires Building(sb, Img(), own0, freeblock) && freeblock + 2 <= sb.size && i < |inodes| && off / BSIZE < MAXFILE
      requires s != [] && off % BSIZE + |s| <= BSIZE && Spans(Img(), i, off)
      modifies this`blocks, this`inodes, this`freeblock
      ensures |inodes| == old(|inodes|) &&
              Appended(sb, old(Img()), own0, old(freeblock), i, off, s, Img(), own1, freeblock)
    {
      ghost var r := Find(Img(), freeblock, i, off / BSIZE);
      FindInRange(sb, Img(), own0, freeblock, i, off / BSIZE);
      own1 := RoundAppends(sb, Img(), own0, freeblock, i, off, s, r, PutBytes(r.m, r.x, off, s));
      var x := FindBlock(i, off / BSIZE);
      blocks := blocks[x := Splice(blocks[x], off % BSIZE, s)];
      assert Img() == PutBytes(r.m, r.x, off, s);
    }

    /** A round that continues an append of `p` at `off` after `n` bytes. */
    method ContinueAppend(i: nat, off: nat, p: seq<Byte>, n: nat, ghost m0: Image, ghost own0: map<nat, Owner>,
                          ghost free0: nat, ghost own1: map<nat, Owner>)
      returns (k: nat, ghost own2: map<nat, Owner>)
      requires i < |m0.inodes| == |inodes| && n < |p| && (off + n) / BSIZE < MAXFILE && freeblock + 2 <= sb.size
      requires Appended(sb, m0, own0, free0, i, off, p[.. n], Img(), own1, freeblock)
      modifies this`blocks, this`inodes, this`freeblock
      ensures |inodes| == |m0.inodes| && k == Room(off + n, |p| - n)
      ensures Appended(sb, m0, own0, free0, i, off, p[.. n + k], Img(), own2, freeblock)
    {
      k := Room(off + n, |p| - n);
      ghost var m1, free1 := Img(), freeblock;
      own2 := AppendRound(i, off + n, p[n ..][.. k], own1);
      AppendedOn(sb, m0, own0, free0, i, off, p, n, k, m1, own1, free1, Img(), own2, freeblock);
    }

    /** The loop of `iappend`. */
    method AppendBytes(i: nat, off: nat, p: seq<Byte>, ghost own0: map<nat, Owner>)
      returns (ok: bool, ghost own1: map<nat, Owner>)
      requires Building(sb, Img(), own0, freeblock) && i < |inodes| && Exact(blocks, inodes[i]) && off == inodes[i].size
      modifies this`blocks, this`inodes, this`freeblock
      ensures |inodes| == old(|inodes|)
      ensures ok ==>
                off + |p| <= MAXFILE * BSIZE &&
                Appended(sb, old(Img()), own0, old(freeblock), i, off, p, Img(), own1, freeblock)
      ensures !ok ==>
                off + |p| > MAXFILE * BSIZE ||
                old(freeblock) + BlocksFor(off + |p|) - BlocksFor(off) + 2 > sb.size
    {
      ghost var m0, free0 := Img(), freeblock;
      own1 := own0;
      var n := 0;
      NothingAppended(sb, m0, own0, i, freeblock);
      assert p[.. 0] == [];
      while n < |p|
        invariant n <= |p| && off + n <= MAXFILE * BSIZE && |inodes| == |m0.inodes|
        invariant Appended(sb, m0, own0, free0, i, off, p[.. n], Img(), own1, freeblock)
      {
        BlocksGrow(off + n, off + |p|);
        if (off + n) / BSIZE >= MAXFILE || freeblock + 2 > sb.size { return false, own1; }
        var k;
        k, own1 := ContinueAppend(i, off, p, n, m0, own0, free0, own1);
        WithinFile(off + n, k);
        n := n + k;
      }
      assert p[.. n] == p;
      ok := true;
    }

    /** `iappend`: the bytes are added at the end of file `i`, and no other file changes. False when
        the file or the image cannot hold them, which ends `mkfs`. */
    method Iappend(i: nat, p: seq<Byte>) returns (ok: bool)
      requires Valid() && i < freeinode
      modifies this`blocks, this`inodes, this`freeblock, this`own
      ensures |inodes| == old(|inodes|)
      ensures ok ==>
                Valid() && OtherFiles(old(Img()), Img(), i) && SameKind(old(inodes[i]), inodes[i]) &&
                Content(blocks, inodes[i]) == old(Content(blocks, inodes[i])) + p
      ensures var size := old(inodes[i].size);
              && (ok ==> freeblock == old(freeblock) + BlocksFor(size + |p|) - BlocksFor(size))
              && (!ok ==>
                    size + |p| > MAXFILE * BSIZE ||
                    old(freeblock) + BlocksFor(size + |p|) - BlocksFor(size) + 2 > sb.size)
    {
      ghost var m0, own1, free0 := Img(), own, freeblock;
      var off := inodes[i].size;
      assert Exact(blocks, inodes[i]);
      ok, own1 := AppendBytes(i, off, p, own);
      if !ok { return; }
      ghost var m1 := Img();
      inodes := inodes[i := inodes[i].(size := off + |p|)];
      AppendFinished(sb, m0, own, free0, i, off, p, m1, own1, freeblock, Img());
      own := own1;
    }

    /** One read of a host file, appended. */
    method AppendPart(i: nat, data: seq<Byte>, n: nat, ghost m0: Image, ghost free0: nat) returns (ok: bool, k: nat)
      requires Valid() && i < freeinode && n < |data| && Part(m0, free0, i, data[.. n], Img(), freeblock)
      modifies this`blocks, this`inodes, this`freeblock, this`own
      ensures |inodes| == old(|inodes|) && 0 < k <= |data| - n
      ensures ok ==> Valid() && Part(m0, free0, i, data[.. n + k], Img(), freeblock)
      ensures !ok ==> var size := m0.inodes[i].size;
                      size + |data| > MAXFILE * BSIZE ||
                      free0 + BlocksFor(size + |data|) - BlocksFor(size) + 2 > sb.size
    {
      k := if |data| - n < BSIZE then |data| - n else BSIZE;
      ghost var m1, free1, size := Img(), freeblock, m0.inodes[i].size;
      ok := Iappend(i, data[n ..][.. k]);
      BlocksGrow(size + n + k, size + |data|);
      if ok { PartMore(m0, free0, i, data, n, k, m1, free1, Img(), freeblock); }
    }

    /** The contents of a host file, read a block at a time. */
    method AppendFile(i: nat, data: seq<Byte>) returns (ok: bool)
      requires Valid() && i < freeinode
      modifies this`blocks, this`inodes, this`freeblock, this`own
      ensures |inodes| == old(|inodes|)
      ensures ok ==>
                Valid() && OtherFiles(old(Img()), Img(), i) && SameKind(old(inodes[i]), inodes[i]) &&
                Content(blocks, inodes[i]) == old(Content(blocks, inodes[i])) + data
      ensures var size := old(inodes[i].size);
              && (ok ==> freeblock == old(freeblock) + BlocksFor(size + |data|) - BlocksFor(size))
              && (!ok ==>
                    size + |data| > MAXFILE * BSIZE ||
                    old(freeblock) + BlocksFor(size + |data|) - BlocksFor(size) + 2 > sb.size)
    {
      ghost var m0, free0 := Img(), freeblock;
      var n := 0;
      while n < |data|
        invariant n <= |data| && |inodes| == |m0.inodes| && Valid() && Part(m0, free0, i, data[.. n], Img(), freeblock)
      {
        var k;
        ok, k := AppendPart(i, data, n, m0, free0);
        if !ok { return; }
        n := n + k;
      }
      ok := true;
      assert data[.. n] == data;
    }

    /** The root directory and the first `n` files are in. */
    ghost predicate Holds(files: seq<File>, n: nat)
      reads this
    {
      && Valid() && n <= |files| && freeinode == n + 2 && |inodes| == NINODE && freeblock == Needed(files, n)
      && HoldsFiles(Img(), files, n)
    }

    /** A file of the command line. */
    method AddFile(ghost files: seq<File>, n: nat, f: File) returns (ok: bool)
      requires Holds(files, n) && n < |files| && files[n] == f && n + 2 < NINODE
      modifies this
      ensures ok ==> Holds(files, n + 1)
      ensures !ok ==> |f.data| > MAXFILE * BSIZE || Needed(files, n + 1) + 2 > sb.size
    {
      ghost var m0 := Img();
      assert inodes[ROOTINO].size == 32 * (2 + n);
      var inum := Ialloc(FILE);
      ghost var m1 := Img();
      ok := Iappend(ROOTINO, Dirent(inum, f.name));
      if !ok { return; }
      ghost var m2 := Img();
      ok := AppendFile(inum, f.data);
      if !ok { return; }
      FileAdded(m0, m1, m2, Img(), files, n);
    }

    method AddFiles(files: seq<File>) returns (ok: bool)
      requires Holds(files, 0) && |files| + 2 <= NINODE
      modifies this
      ensures ok ==> Holds(files, |files|)
      ensures !ok ==>
                Needed(files, |files|) + 2 > sb.size ||
                exists k :: 0 <= k < |files| && |files[k].data| > MAXFILE * BSIZE
    {
      for n := 0 to |files|
        invariant Holds(files, n)
      {
        ok := AddFile(files, n, files[n]);
        NeededGrows(files, n + 1, |files|);
        if !ok { return; }
      }
      ok := true;
    }

    /** The root directory with its first two entries. */
    method AddRoot(ghost files: seq<File>) returns (ok: bool)
      requires Valid() && freeinode == ROOTINO && |inodes| == NINODE && freeblock == sb.Meta()
      modifies this
      ensures ok && Holds(files, 0)
    {
      var root := Ialloc(DIR);
      ok := Iappend(root, Dirent(root, DOT));
      if !ok { return; }
      ok := Iappend(root, Dirent(root, DOTDOT));
      assert [] + Dirent(ROOTINO, DOT) + Dirent(ROOTINO, DOTDOT) == RootDir(files, 0);
    }

    /** The last steps: the size of the root directory is rounded and the bit map written. */
    method Finish(ghost files: seq<File>) returns (ok: bool)
      requires Holds(files, |files|)
      modifies this
      ensures freeblock == old(freeblock) && (ok <==> freeblock < BPB)
      ensures ok ==> Built(files)
    {
      var off := inodes[ROOTINO].size;
      ok := freeblock < BPB;
      if !ok { return; }
      ghost var m0 := Img();
      SizeMapped(sb, m0, own, ROOTINO, (off / BSIZE + 1) * BSIZE);
      inodes := inodes[ROOTINO := inodes[ROOTINO].(size := (off / BSIZE + 1) * BSIZE)];
      var buf := BitmapBlock(freeblock);
      BitmapWritten(sb, Img(), own, freeblock, buf);
      blocks := blocks[sb.bmapStart := buf];
      FilesBuilt(sb, m0, own, freeblock, buf, files, Img());
      RootBuilt(sb, m0, own, freeblock, buf, files, Img());
    }

    /** The finished image: consistent, with every file in place and the blocks below `freeblock` in
        use; the root directory has a hole exactly when its entries fill whole blocks. */
    ghost predicate Built(files: seq<File>)
      reads this
    {
      && Consistent(sb, blocks, inodes, own) && FilesIn(Img(), files) && RootIn(Img(), files)
      && forall b {:trigger b in own} :: 0 <= b ==> (b in own <==> sb.Meta() <= b < freeblock)
    }
  }

  /** Inode `k + 2` is file `k` of the command line, a file without holes. */
  ghost predicate FileIn(m: Image, files: seq<File>, k: nat)
    requires k < |files| && k + 2 < |m.inodes|
  {
    && Whole(m.blocks, m.inodes[k + 2]) && Content(m.blocks, m.inodes[k + 2]) == files[k].data
    && IsKind(m.inodes[k + 2], FILE)
  }

  ghost predicate FilesIn(m: Image, files: seq<File>) {
    |files| + 2 <= |m.inodes| && forall k :: 0 <= k < |files| ==> FileIn(m, files, k)
  }

  ghost predicate RootIn(m: Image, files: seq<File>) {
    var n := 32 * (2 + |files|);
    && ROOTINO < |m.inodes| && m.inodes[ROOTINO].size == (n / BSIZE + 1) * BSIZE
    && IsKind(m.inodes[ROOTINO], DIR) && Content(m.blocks, m.inodes[ROOTINO])[.. n] == RootDir(files, |files|)
    && (forall k :: 0 <= k < |files| + 2 ==> RootEntry(Content(m.blocks, m.inodes[ROOTINO]), files, k))
    && (Whole(m.blocks, m.inodes[ROOTINO]) <==> n % BSIZE != 0)
  }

  /** Neither the bit map nor the size of the root directory touches a file. */
  lemma FilesBuilt(sb: Super, m: Image, own: map<nat, Owner>, free: nat, buf: Block, files: seq<File>, m': Image)
    requires Building(sb, m, own, free) && AllExact(m) && |files| + 2 <= |m.inodes| == |m'.inodes|
    requires forall k {:trigger files[k]} :: 0 <= k < |files| ==>
               Content(m.blocks, m.inodes[k + 2]) == files[k].data && IsKind(m.inodes[k + 2], FILE)
    requires m'.blocks == m.blocks[sb.bmapStart := buf] &&
             forall k :: 2 <= k < |m.inodes| ==> m'.inodes[k] == m.inodes[k]
    ensures FilesIn(m', files)
  {
    forall k | 0 <= k < |files| ensures FileIn(m', files, k) {
      var ino := m.inodes[k + 2];
      assert Exact(m.blocks, ino) && m'.inodes[k + 2] == ino;
      SameBytes(sb, m, own, free, buf, k + 2, ino);
      assert Whole(m.blocks, ino);
      var c := Content(m'.blocks, ino);
      assert c[.. ino.size] == c;
      assert Content(m.blocks, m.inodes[k + 2]) == files[k].data;
    }
  }

  lemma RootBuilt(sb: Super, m: Image, own: map<nat, Owner>, free: nat, buf: Block, files: seq<File>, m': Image)
    requires Building(sb, m, own, free) && AllExact(m) && ROOTINO < |m.inodes| == |m'.inodes|
    requires Content(m.blocks, m.inodes[ROOTINO]) == RootDir(files, |files|) && IsKind(m.inodes[ROOTINO], DIR)
    requires |files| < NINODE
    requires m'.blocks == m.blocks[sb.bmapStart := buf]
    requires m'.inodes[ROOTINO] == m.inodes[ROOTINO].(size := (m.inodes[ROOTINO].size / BSIZE + 1) * BSIZE)
    ensures RootIn(m', files)
  {
    var ino, ino' := m.inodes[ROOTINO], m'.inodes[ROOTINO];
    assert ino.size == 32 * (2 + |files|);
    assert Exact(m.blocks, ino);
    RootRounded(sb, m, own, free, buf, ino, ino');
    var d, c := RootDir(files, |files|), Content(m'.blocks, ino');
    forall k | 0 <= k < |files| + 2 ensures RootEntry(c, files, k) {
      RootDirEntries(files, |files|, k);
      SameEntry(d, c, files, k);
    }
  }

  lemma SameEntry(d: seq<Byte>, c: seq<Byte>, files: seq<File>, k: nat)
    requires k < |files| + 2 && RootEntry(d, files, k) && |d| <= |c| && c[.. |d|] == d
    ensures RootEntry(c, files, k)
  {
    var inum, name := if k < 2 then ROOTINO else k, if k == 0 then DOT else if k == 1 then DOTDOT
      else files[k - 2].name;
    EntryMoves(d, k, inum, name, [], k, c[|d| ..]);
    assert c == [] + d + c[|d| ..];
  }

  lemma RootRounded(sb: Super, m: Image, own: map<nat, Owner>, free: nat, buf: Block, ino: DInode, ino': DInode)
    requires Building(sb, m, own, free) && ROOTINO < |m.inodes| && ino == m.inodes[ROOTINO] && Exact(m.blocks, ino)
    requires ino' == ino.(size := (ino.size / BSIZE + 1) * BSIZE)
    ensures var blocks := m.blocks[sb.bmapStart := buf];
            && Content(blocks, ino')[.. ino.size] == Content(m.blocks, ino)
            && (Whole(blocks, ino') <==> ino.size % BSIZE != 0)
  {
    SameBytes(sb, m, own, free, buf, ROOTINO, ino');
    RoundedRoot(m.blocks, ino);
  }

  lemma SameBytes(sb: Super, m: Image, own: map<nat, Owner>, free: nat, buf: Block, k: nat, ino: DInode)
    requires Building(sb, m, own, free) && k < |m.inodes| && Exact(m.blocks, m.inodes[k])
    requires ino.addrs == m.inodes[k].addrs && ino.size >= m.inodes[k].size
    ensures var blocks := m.blocks[sb.bmapStart := buf];
            && (Whole(blocks, ino) <==> Whole(m.blocks, ino))
            && Content(blocks, ino)[.. m.inodes[k].size] == Content(m.blocks, m.inodes[k])
  {
    var blocks := m.blocks[sb.bmapStart := buf];
    forall bn | 0 <= bn
      ensures DataAddr(blocks, ino, bn) == DataAddr(m.blocks, ino, bn) == DataAddr(m.blocks, m.inodes[k], bn)
    {
      OwnedSlot(sb, m.blocks, m.inodes, own, k, NDIRECT);
    }
    forall j | 0 <= j < m.inodes[k].size ensures ByteAt(blocks, ino, j) == ByteAt(m.blocks, m.inodes[k], j) {
      assert DataAddr(m.blocks, m.inodes[k], j / BSIZE) != 0;
      OwnedSlot(sb, m.blocks, m.inodes, own, k, SlotOf(j / BSIZE));
    }
  }

  /** `mkfs`: it succeeds exactly when no file is too long and one bit map block has a bit for every
      block the metadata, the root directory and the files need. */
  method Build(files: seq<File>) returns (ok: bool, mk: Maker)
    requires |files| + 2 <= NINODE
    ensures ok ==> mk.Built(files) && mk.freeblock == Needed(files, |files|)
    ensures ok <==> Needed(files, |files|) < BPB && forall k :: 0 <= k < |files| ==> |files[k].data| <= MAXFILE * BSIZE
  {
    mk := new Maker();
    ok := mk.AddRoot(files);
    ok := mk.AddFiles(files);
    if !ok { return; }
    ok := mk.Finish(files);
    forall k | 0 <= k < |files| ensures |files[k].data| <= MAXFILE * BSIZE {
      assert ok ==> FileIn(mk.Img(), files, k);
    }
  }

  /** The inode of the last of `n` files is below the number of inodes up to 1022 files, and in the
      blocks for inodes up to 1054. */
  lemma InodesFit(n: nat)
    ensures n + 1 < NewSuper().ninodes <==> n <= 1022
    ensures NewSuper().Iblock(n + 1) < NewSuper().bmapStart <==> n <= 1054
  {
  }

  /** The entries of the root directory fill whole blocks with 126, 254, … files. */
  lemma RootFills(n: nat)
    ensures 32 * (2 + n) % BSIZE == 0 <==> n % 128 == 126
  {
  }

  lemma {:induction false} EmptyFiles(files: seq<File>, n: nat)
    requires n <= |files| && forall k :: 0 <= k < |files| ==> files[k].data == []
    ensures FileBlocks(files, n) == 0
  {
    if n > 0 { EmptyFiles(files, n - 1); }
  }

  /** With 126 files `mkfs` succeeds and the root directory has a hole at its end. */
  method RootHole(files: seq<File>) returns (ok: bool, mk: Maker)
    requires |files| == 126 && forall k :: 0 <= k < |files| ==> files[k].data == []
    ensures ok && mk.Built(files) && mk.inodes[ROOTINO].size == 2 * BSIZE && !Whole(mk.blocks, mk.inodes[ROOTINO])
    ensures mk.sb.Meta() <= mk.freeblock < mk.sb.size
  {
    EmptyFiles(files, |files|);
    RootFills(|files|);
    ok, mk := Build(files);
  }

  lemma WithinFile(off: nat, k: nat)
    requires off / BSIZE < MAXFILE && off % BSIZE + k <= BSIZE
    ensures off + k <= MAXFILE * BSIZE
  {
  }

  lemma NothingAppended(sb: Super, m: Image, own: map<nat, Owner>, i: nat, free: nat)
    requires Building(sb, m, own, free) && i < |m.inodes| && Exact(m.blocks, m.inodes[i])
    ensures Appended(sb, m, own, free, i, m.inodes[i].size, [], m, own, free)
  {
    NoBytes(m, i, m.inodes[i].size);
  }

  lemma OtherFilesTrans(m: Image, m1: Image, m2: Image, i: nat)
    requires OtherFiles(m, m1, i) && OtherFiles(m1, m2, i)
    ensures OtherFiles(m, m2, i)
  {
    forall k | 0 <= k < |m.inodes| && k != i
      ensures m2.inodes[k] == m.inodes[k] && Content(m2.blocks, m2.inodes[k]) == Content(m.blocks, m.inodes[k])
    {
      assert m1.inodes[k] == m.inodes[k];
    }
  }

  lemma FindInRange(sb: Super, m: Image, own: map<nat, Owner>, free: nat, i: nat, fbn: nat)
    requires Building(sb, m, own, free) && free + 2 <= sb.size && i < |m.inodes| && fbn < MAXFILE
    ensures var r := Find(m, free, i, fbn); r.x < |r.m.blocks|
  {
    var own' := FindKeeps(sb, m, own, free, i, fbn, Find(m, free, i, fbn));
  }
}
