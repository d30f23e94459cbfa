/** Files as byte sequences over the blocks their slots point to (kernel/src/fs.rs:514-541,
    590-649). */
module FsFile {
  import opened FsLayout
  import opened FsImage

  /** The slot of the `bn`-th block of a file. */
  function SlotOf(bn: nat): (s: nat)
    requires bn < MAXFILE
    ensures s < SLOTS && s != NDIRECT
  {
    if bn < NDIRECT then bn else bn + 1
  }

  function DataAddr(blocks: seq<Block>, ino: DInode, bn: nat): nat {
    if bn < MAXFILE then SlotAddr(blocks, ino, SlotOf(bn)) else 0
  }

  /** No holes: every block below the size is there, and the size is one a file can have. */
  ghost predicate Whole(blocks: seq<Block>, ino: DInode) {
    && ino.size <= MAXFILE * BSIZE
    && forall bn {:trigger DataAddr(blocks, ino, bn)} :: 0 <= bn && bn * BSIZE < ino.size ==>
         DataAddr(blocks, ino, bn) != 0
  }

  function ByteAt(blocks: seq<Block>, ino: DInode, k: nat): Byte {
    var a := DataAddr(blocks, ino, k / BSIZE);
    if a < |blocks| then blocks[a][k % BSIZE] else 0
  }

  ghost function Content(blocks: seq<Block>, ino: DInode): (c: seq<Byte>)
    ensures |c| == ino.size
  {
    seq(ino.size, k requires 0 <= k => ByteAt(blocks, ino, k))
  }

  /** Byte `k` of a file without holes is where the first NDIRECT pointers of the inode, and then the words of
      the indirect block, say. */
  lemma ContentAt(sb: Super, blocks: seq<Block>, inodes: seq<DInode>, own: map<nat, Owner>, i: nat, k: nat)
    requires sb.Valid() && Mapped(sb, blocks, inodes, own) && i < |inodes| && Whole(blocks, inodes[i])
    requires k < inodes[i].size
    ensures var ino, bn := inodes[i], k / BSIZE;
            && bn < NDIRECT + NINDIRECT && (bn >= NDIRECT ==> ino.addrs[NDIRECT] < |blocks|)
            && var a := if bn < NDIRECT then ino.addrs[bn] else Word(blocks[ino.addrs[NDIRECT]], bn - NDIRECT);
               sb.Data(a) && a < |blocks| && Content(blocks, ino)[k] == blocks[a][k % BSIZE]
  {
    var ino, bn := inodes[i], k / BSIZE;
    assert bn * BSIZE < ino.size;
    assert DataAddr(blocks, ino, bn) != 0;
    OwnedSlot(sb, blocks, inodes, own, i, SlotOf(bn));
    OwnedSlot(sb, blocks, inodes, own, i, NDIRECT);
  }

  /** Everything in use stays: pointers that are set, and the contents of data blocks. */
  ghost predicate Keeps(m: Image, own: map<nat, Owner>, m': Image, own': map<nat, Owner>) {
    && |m'.blocks| == |m.blocks| && |m'.inodes| == |m.inodes|
    && (forall k {:trigger m'.inodes[k]} :: 0 <= k < |m.inodes| ==>
          m'.inodes[k] == m.inodes[k].(addrs := m'.inodes[k].addrs))
    && (forall k, t {:trigger SlotAddr(m'.blocks, m'.inodes[k], t)} :: 0 <= k < |m.inodes| && 0 <= t < SLOTS ==>
          SlotAddr(m.blocks, m.inodes[k], t) != 0 ==>
            SlotAddr(m'.blocks, m'.inodes[k], t) == SlotAddr(m.blocks, m.inodes[k], t))
    && (forall b {:trigger b in own} :: b in own && b < |m.blocks| ==>
          b in own' && own'[b] == own[b] && (own[b].slot != NDIRECT ==> m'.blocks[b] == m.blocks[b]))
  }

  lemma KeepsTrans(m: Image, own: map<nat, Owner>, m1: Image, own1: map<nat, Owner>, m2: Image, own2: map<nat, Owner>)
    requires Keeps(m, own, m1, own1) && Keeps(m1, own1, m2, own2)
    ensures Keeps(m, own, m2, own2)
  {
    forall k, t | 0 <= k < |m.inodes| && 0 <= t < SLOTS && SlotAddr(m.blocks, m.inodes[k], t) != 0
      ensures SlotAddr(m2.blocks, m2.inodes[k], t) == SlotAddr(m.blocks, m.inodes[k], t)
    {
      assert SlotAddr(m1.blocks, m1.inodes[k], t) == SlotAddr(m.blocks, m.inodes[k], t);
    }
  }

  /** Whole files keep their contents. */
  lemma KeepsContent(sb: Super, m: Image, own: map<nat, Owner>, m': Image, own': map<nat, Owner>, k: nat)
    requires Mapped(sb, m.blocks, m.inodes, own) && Keeps(m, own, m', own') && k < |m.inodes| &&
             Whole(m.blocks, m.inodes[k])
    ensures Whole(m'.blocks, m'.inodes[k]) && Content(m'.blocks, m'.inodes[k]) == Content(m.blocks, m.inodes[k])
  {
    forall bn | 0 <= bn && bn * BSIZE < m.inodes[k].size
      ensures DataAddr(m'.blocks, m'.inodes[k], bn) == DataAddr(m.blocks, m.inodes[k], bn) != 0
    {
    }
    forall j | 0 <= j < m.inodes[k].size
      ensures ByteAt(m'.blocks, m'.inodes[k], j) == ByteAt(m.blocks, m.inodes[k], j)
    {
      var bn := j / BSIZE;
      assert DataAddr(m.blocks, m.inodes[k], bn) != 0;
      OwnedSlot(sb, m.blocks, m.inodes, own, k, SlotOf(bn));
    }
  }

  /** Bytes of file `i` written in one of its blocks change its contents there and no other file. */
  lemma BlockWritten(sb: Super, m: Image, own: map<nat, Owner>, i: nat, bn: nat, block: Block, k: nat, j: nat)
    requires sb.Valid() && Mapped(sb, m.blocks, m.inodes, own) && i < |m.inodes| && k < |m.inodes|
    requires bn < MAXFILE && DataAddr(m.blocks, m.inodes[i], bn) != 0
    requires DataAddr(m.blocks, m.inodes[i], bn) < |m.blocks|
    requires j / BSIZE < MAXFILE && DataAddr(m.blocks, m.inodes[k], j / BSIZE) != 0
    requires forall t :: 0 <= t < SLOTS ==>
               SlotAddr(m.blocks[DataAddr(m.blocks, m.inodes[i], bn) := block], m.inodes[k], t) ==
                 SlotAddr(m.blocks, m.inodes[k], t)
    ensures ByteAt(m.blocks[DataAddr(m.blocks, m.inodes[i], bn) := block], m.inodes[k], j) ==
            if k == i && j / BSIZE == bn then block[j % BSIZE] else ByteAt(m.blocks, m.inodes[k], j)
  {
    var b := DataAddr(m.blocks, m.inodes[i], bn);
    if DataAddr(m.blocks, m.inodes[k], j / BSIZE) == b {
      OwnersDiffer(sb, m.blocks, m.inodes, own, i, SlotOf(bn), k, SlotOf(j / BSIZE));
    }
    OwnedSlot(sb, m.blocks, m.inodes, own, k, SlotOf(j / BSIZE));
  }
}
