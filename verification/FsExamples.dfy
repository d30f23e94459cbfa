/** Two small images on which the stored inode and the log fall behind (kernel/src/fs.rs:543-572,
    619-649). */
module FsExamples {
  import opened FsLayout
  import opened FsImage
  import opened FsFile
  import opened FsOps
  import opened FsWrite
  import opened FsStored
  import opened FsSpace
  import opened Fs
  import MkfsBuild
  import FsChunks

  /** Four blocks of metadata, one inode, and `n` data blocks. */
  function SmallSuper(n: nat): Super { Super(4 + n, n, 1, 0, 2, 2, 3) }

  function Empty(): DInode { DInode(2, 0, 0, 1, 0, seq(NDIRECT + 1, s => 0)) }

  /** The bit map block whose first byte is `bits`. */
  function Bits(bits: Byte): Block { ZeroBlock()[0 := bits] }

  lemma BitsAre(bits: Byte, b: nat)
    requires b < 8
    ensures Bit(Bits(bits), b) <==> ByteBit(bits, b)
  {
  }

  lemma SmallBits(b: nat)
    requires b < 6
    ensures ByteBit(15, b) <==> b < 4
    ensures ByteBit(63, b)
  {
    if b == 0 { assert ByteBit(15, 0) && ByteBit(63, 0); }
    else if b == 1 { assert ByteBit(15 / 2, 0) && ByteBit(63 / 2, 0); }
    else if b == 2 { assert ByteBit(15 / 2, 1) && ByteBit(15 / 2 / 2, 0) && ByteBit(63 / 2 / 2, 0); }
    else if b == 3 {
      assert ByteBit(7, 2) && ByteBit(3, 1) && ByteBit(1, 0) && ByteBit(31, 2) && ByteBit(15, 1) && ByteBit(7, 0);
    }
    else if b == 4 { assert !ByteBit(0, 0) && !ByteBit(1, 1) && !ByteBit(3, 2) && !ByteBit(7, 3);
                     assert ByteBit(3, 0) && ByteBit(7, 1) && ByteBit(15, 2) && ByteBit(31, 3); }
    else { assert !ByteBit(0, 0) && !ByteBit(0, 1) && !ByteBit(1, 2) && !ByteBit(3, 3) && !ByteBit(7, 4);
           assert ByteBit(1, 0) && ByteBit(3, 1) && ByteBit(7, 2) && ByteBit(15, 3) && ByteBit(31, 4); }
  }

  // A file of two blocks on a device with room for one.

  function OneFree(): Image {
    Image([ZeroBlock(), ZeroBlock(), ZeroBlock(), Bits(15), ZeroBlock()], [Empty()])
  }

  lemma OneFreeConsistent()
    ensures Consistent(SmallSuper(1), OneFree().blocks, OneFree().inodes, map[])
    ensures FirstFree(SmallSuper(1), OneFree().blocks, 0) == 4
  {
    var sb, m := SmallSuper(1), OneFree();
    forall b | 0 <= b < 5 ensures Used(sb, m.blocks, b) <==> b < 4 {
      BitsAre(15, b);
      SmallBits(b);
    }
    FirstFreeIs(sb, m.blocks, 0, 4);
  }

  lemma NoTwoBlocks(blocks: seq<Block>, inodes: seq<DInode>, own: map<nat, Owner>)
    requires Consistent(SmallSuper(1), blocks, inodes, own) && Whole(blocks, inodes[0])
    ensures inodes[0].size <= BSIZE
  {
    if inodes[0].size > BSIZE {
      assert DataAddr(blocks, inodes[0], 0) != 0 && DataAddr(blocks, inodes[0], 1) != 0;
      OwnedSlot(SmallSuper(1), blocks, inodes, own, 0, 0);
      OwnedSlot(SmallSuper(1), blocks, inodes, own, 0, 1);
      OwnersDiffer(SmallSuper(1), blocks, inodes, own, 0, 0, 0, 1);
    }
  }

  /** The write fails, its first block stays marked, and the stored inode does not point to it. */
  method BlockWithoutOwner() returns (v: Volume, res: IoResult)
    ensures res == NoSpace && v.sb == SmallSuper(1) && Used(v.sb, v.blocks, 4)
    ensures v.saved == [Empty()] && forall t :: 0 <= t < SLOTS ==> SlotAddr(v.blocks, v.saved[0], t) != 4
    ensures !StoredOwned(v.sb, v.blocks, v.saved)
  {
    OneFreeConsistent();
    v := new Volume(SmallSuper(1), OneFree(), map[]);
    var src := seq(BSIZE + 1, k => 0);
    ghost var done, data, marks;
    assert Unpointed(Empty(), 0);
    assert SetsPointer(v.sb, v.Img(), 0, 0, |src|);
    res, done, data, marks := v.Writei(0, src, 0);
    NotCounted(v.Img(), v.own, res, src, done);
    LeftBehind(v.Img(), v.own, v.saved);
  }

  lemma NotCounted(m: Image, own: map<nat, Owner>, res: IoResult, src: seq<Byte>, done: nat)
    requires Consistent(SmallSuper(1), m.blocks, m.inodes, own) && |src| == BSIZE + 1
    requires res.Count? ==> done == |src| && m.inodes[0].size == |src|
    requires res.Count? || res.NoSpace?
    requires res.Count? ==> FileWritten(OneFree(), m, 0, 0, src)
    ensures res.NoSpace?
  {
    if res.Count? { NoTwoBlocks(m.blocks, m.inodes, own); }
  }

  lemma LeftBehind(m: Image, own: map<nat, Owner>, saved: seq<DInode>)
    requires Consistent(SmallSuper(1), m.blocks, m.inodes, own) && saved == [Empty()] &&
             m.inodes[0].addrs != Empty().addrs
    ensures Used(SmallSuper(1), m.blocks, 4) && !StoredOwned(SmallSuper(1), m.blocks, saved)
    ensures forall t :: 0 <= t < SLOTS ==> SlotAddr(m.blocks, saved[0], t) != 4
  {
    var s :| 0 <= s <= NDIRECT && saved[0].addrs[s] != m.inodes[0].addrs[s];
    Unowned(SmallSuper(1), m, own, saved, map[], 0, s);
    StoredOwnedIff(SmallSuper(1), m, own, saved, 0);
  }

  // A file with a word in its indirect block.

  function OneWord(): Image {
    Image([ZeroBlock(), ZeroBlock(), ZeroBlock(), Bits(63), SetWord(ZeroBlock(), 0, 5), ZeroBlock()],
          [Empty().(addrs := Empty().addrs[NDIRECT := 4])])
  }

  lemma OneWordSlots(t: nat)
    requires t < SLOTS
    ensures SlotAddr(OneWord().blocks, OneWord().inodes[0], t) == if t == NDIRECT then 4 else if t == NDIRECT + 1 then 5
            else 0
  {
    if t > NDIRECT {
      SetWordWords(ZeroBlock(), 0, 5, t - NDIRECT - 1);
      ZeroBlockWords(t - NDIRECT - 1);
    }
  }

  function OneWordOwners(): map<nat, Owner> { map[4 := Owner(0, NDIRECT), 5 := Owner(0, NDIRECT + 1)] }

  lemma OneWordMapped()
    ensures Mapped(SmallSuper(2), OneWord().blocks, OneWord().inodes, OneWordOwners()) && HasWords(OneWord(), 0)
  {
    var m := OneWord();
    forall t | 0 <= t < SLOTS
      ensures SlotAddr(m.blocks, m.inodes[0], t) == if t == NDIRECT then 4 else if t == NDIRECT + 1 then 5 else 0
    {
      OneWordSlots(t);
    }
    assert SlotAddr(m.blocks, m.inodes[0], NDIRECT + 1) != 0;
  }

  lemma OneWordConsistent()
    ensures Consistent(SmallSuper(2), OneWord().blocks, OneWord().inodes, OneWordOwners())
  {
    var sb, m := SmallSuper(2), OneWord();
    forall b | 0 <= b < 6 ensures Used(sb, m.blocks, b) {
      BitsAre(63, b);
      SmallBits(b);
    }
    OneWordMapped();
  }

  /** Truncating it changes block 4 without giving it to the log. */
  method ChangeNotLogged() returns (v: Volume)
    ensures |v.blocks| == 6 && v.blocks[4] != OneWord().blocks[4] && 4 !in v.logs
  {
    OneWordMapped();
    OneWordConsistent();
    v := new Volume(SmallSuper(2), OneWord(), OneWordOwners());
    v.Trunc(0);
  }

  // A root directory with a hole at its end.

  lemma RootHoleThere(m: Image, files: seq<MkfsBuild.File>)
    requires |files| == 126 && MkfsBuild.RootIn(m, files)
    ensures m.inodes[1].size == 2 * BSIZE && HoleIn(m, 1, 0, 2)
  {
    MkfsBuild.RootFills(126);
    var ino := m.inodes[1];
    assert !Whole(m.blocks, ino);
    var bn :| 0 <= bn && bn * BSIZE < ino.size && DataAddr(m.blocks, ino, bn) == 0;
    assert Hole(m, 1, bn);
  }

  lemma SomeFree(sb: Super, m: Image, own: map<nat, Owner>, free: nat)
    requires Consistent(sb, m.blocks, m.inodes, own) && sb.Meta() <= free < sb.size && free !in own
    ensures FirstFree(sb, m.blocks, 0) < sb.size
  {
    assert !Used(sb, m.blocks, free);
  }

  /** `mkfs` with 126 files, then a read of the whole root directory while no operation is
      outstanding. */
  method RootReadPanics(files: seq<MkfsBuild.File>) returns (res: FsChunks.ReadResult)
    requires |files| == 126 && forall k :: 0 <= k < |files| ==> files[k].data == []
    ensures res.Panic?
  {
    var ok, mk := MkfsBuild.RootHole(files);
    ghost var m := mk.Img();
    RootHoleThere(m, files);
    SomeFree(mk.sb, m, mk.own, mk.freeblock);
    var v := new Volume(mk.sb, Image(mk.blocks, mk.inodes), mk.own);
    var dst := new Byte[2 * BSIZE](_ => 0);
    var off;
    res, off := FsChunks.Read(v, 1, dst, 0, 0);
  }
}
