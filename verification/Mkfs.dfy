/** The image `mkfs` builds (bin/mkfs.c:71-168, 226-310). */
module Mkfs {
  import opened FsLayout
  import opened FsImage
  import opened FsFile
  import opened FsOps
  import opened FsWrite
  import LogFormat

  const FSSIZE: nat := 262144
  const NINODE: nat := 1024
  const ROOTINO: nat := 1

  /** The super block `mkfs` writes. */
  function NewSuper(): Super {
    var nbitmap := FSSIZE / BPB + 1;
    var ninodeblocks := NINODE / IPB + 1;
    var nmeta := 2 + LogFormat.LOGSIZE + ninodeblocks + nbitmap;
    Super(FSSIZE, FSSIZE - nmeta, NINODE, LogFormat.LOGSIZE, 2, 2 + LogFormat.LOGSIZE,
          2 + LogFormat.LOGSIZE + ninodeblocks)
  }

  lemma NewSuperValid()
    ensures NewSuper().Valid()
  {
  }

  /** The regions lie one behind the other: the boot and super blocks, the log, room for every inode, a bit
      for every block, and the data blocks, which fill the rest of the image. */
  lemma NewSuperRegions()
    ensures var sb := NewSuper();
            && sb.size == FSSIZE && sb.ninodes == NINODE && sb.nlog == LogFormat.LOGSIZE
            && sb.logStart == 2 && sb.inodeStart == sb.logStart + sb.nlog && sb.Meta() + sb.nblocks == sb.size
            && (forall inum :: 0 <= inum < NINODE ==> sb.inodeStart <= sb.Iblock(inum) < sb.bmapStart)
            && (forall b :: 0 <= b < FSSIZE ==> sb.bmapStart <= sb.Bblock(b) < sb.Meta())
  {
  }

  /** While the image is built: blocks from `free` on and the bit map are still zero, and exactly the
      data blocks below `free` are owned. */
  ghost predicate Building(sb: Super, m: Image, own: map<nat, Owner>, free: nat) {
    && sb.Valid() && Mapped(sb, m.blocks, m.inodes, own) && sb.Meta() <= free <= sb.size
    && (forall b {:trigger b in own} :: 0 <= b ==> (b in own <==> sb.Meta() <= b < free))
    && (forall b {:trigger m.blocks[b]} :: free <= b < sb.size || sb.bmapStart <= b < sb.Meta() ==>
          m.blocks[b] == ZeroBlock())
  }

  /** The blocks of a file of `n` bytes: one for each BSIZE begun, and the indirect block. */
  function BlocksFor(n: nat): nat {
    (n + BSIZE - 1) / BSIZE + Count(n > NDIRECT * BSIZE)
  }

  function Count(c: bool): nat { if c then 1 else 0 }

  lemma MoreBlocks(off: nat, k: nat)
    requires 0 < k <= BSIZE - off % BSIZE
    ensures BlocksFor(off + k) == BlocksFor(off) + Count(off % BSIZE == 0) + Count(off == NDIRECT * BSIZE)
  {
  }

  lemma BlocksGrow(n: nat, n': nat)
    requires n <= n'
    ensures BlocksFor(n) <= BlocksFor(n')
  {
  }

  /** A file has its blocks below the size and no others. */
  ghost predicate Exact(blocks: seq<Block>, ino: DInode) {
    && ino.size <= MAXFILE * BSIZE && (ino.addrs[NDIRECT] != 0 <==> ino.size > NDIRECT * BSIZE)
    && forall bn {:trigger DataAddr(blocks, ino, bn)} :: 0 <= bn ==>
         (DataAddr(blocks, ino, bn) != 0 <==> bn * BSIZE < ino.size)
  }

  /** The next block becomes the one slot `s` points to. */
  lemma NextAssigned(sb: Super, m: Image, own: map<nat, Owner>, free: nat, i: nat, s: nat, m': Image)
    requires Building(sb, m, own, free) && free < sb.size && i < |m.inodes| && s < SLOTS
    requires SlotAddr(m.blocks, m.inodes[i], s) == 0 && (s > NDIRECT ==> m.inodes[i].addrs[NDIRECT] != 0)
    requires s > NDIRECT ==> m.inodes[i].addrs[NDIRECT] < |m.blocks|
    requires m' == WriteSlot(m, i, s, free)
    ensures Building(sb, m', own[free := Owner(i, s)], free + 1) && Keeps(m, own, m', own[free := Owner(i, s)])
    ensures forall k, t {:trigger SlotAddr(m'.blocks, m'.inodes[k], t)} :: 0 <= k < |m.inodes| && 0 <= t < SLOTS ==>
              SlotAddr(m'.blocks, m'.inodes[k], t) == if k == i && t == s then free
              else SlotAddr(m.blocks, m.inodes[k], t)
  {
    assert CanWrite(m, i, s, free) by {
      assert m.blocks[free] == ZeroBlock();
    }
    assert free !in own;
    SlotAssigned(sb, m, own, i, s, free, m');
    AllocKeeps(sb, m, own, free, i, s, m, m');
    OwnedSlot(sb, m.blocks, m.inodes, own, i, NDIRECT);
    forall k, t | 0 <= k < |m.inodes| && 0 <= t < SLOTS
      ensures SlotAddr(m'.blocks, m'.inodes[k], t) == if k == i && t == s then free
              else SlotAddr(m.blocks, m.inodes[k], t)
    {
      SlotWritten(sb, m, own, i, s, free, k, t);
    }
  }

  /** Nothing about inodes other than `i` changed. */
  ghost predicate OtherSlots(m: Image, m': Image, i: nat) {
    && |m'.inodes| == |m.inodes|
    && (forall k {:trigger m'.inodes[k]} :: 0 <= k < |m.inodes| && k != i ==> m'.inodes[k] == m.inodes[k])
    && (forall k, t {:trigger SlotAddr(m'.blocks, m'.inodes[k], t)} ::
          0 <= k < |m.inodes| && k != i && 0 <= t < SLOTS ==>
          SlotAddr(m'.blocks, m'.inodes[k], t) == SlotAddr(m.blocks, m.inodes[k], t))
  }

  datatype Found = Found(m: Image, free: nat, x: nat)

  /** The block a slot points to, the next free one when it points to none. */
  function FindSlot(m: Image, free: nat, i: nat, s: nat): (r: Found)
    requires i < |m.inodes| && s < SLOTS && (s > NDIRECT ==> m.inodes[i].addrs[NDIRECT] < |m.blocks|)
    ensures |r.m.inodes| == |m.inodes| && |r.m.blocks| == |m.blocks|
  {
    var a := SlotAddr(m.blocks, m.inodes[i], s);
    if a == 0 then Found(WriteSlot(m, i, s, free), free + 1, free) else Found(m, free, a)
  }

  ghost predicate FoundSlot(sb: Super, m: Image, own: map<nat, Owner>, free: nat, i: nat, s: nat, r: Found,
                            own': map<nat, Owner>)
    requires i < |m.inodes| && s < SLOTS
  {
    && Building(sb, r.m, own', r.free) && Keeps(m, own, r.m, own') && OtherSlots(m, r.m, i)
    && r.free == free + Count(SlotAddr(m.blocks, m.inodes[i], s) == 0)
    && sb.Data(r.x) && SlotAddr(r.m.blocks, r.m.inodes[i], s) == r.x
    && (forall t {:trigger SlotAddr(r.m.blocks, r.m.inodes[i], t)} :: 0 <= t < SLOTS && t != s ==>
          SlotAddr(r.m.blocks, r.m.inodes[i], t) == SlotAddr(m.blocks, m.inodes[i], t))
  }

  lemma FindSlotKeeps(sb: Super, m: Image, own: map<nat, Owner>, free: nat, i: nat, s: nat)
    returns (own': map<nat, Owner>)
    requires Building(sb, m, own, free) && free < sb.size && i < |m.inodes| && s < SLOTS
    requires s > NDIRECT ==> m.inodes[i].addrs[NDIRECT] != 0
    requires s > NDIRECT ==> m.inodes[i].addrs[NDIRECT] < |m.blocks|
    ensures FoundSlot(sb, m, own, free, i, s, FindSlot(m, free, i, s), own')
  {
    own' := own;
    OwnedSlot(sb, m.blocks, m.inodes, own, i, s);
    if SlotAddr(m.blocks, m.inodes[i], s) == 0 {
      NextAssigned(sb, m, own, free, i, s, WriteSlot(m, i, s, free));
      own' := own[free := Owner(i, s)];
    }
  }

  /** The block for block number `fbn` of file `i`: the first half of a round of `iappend`. */
  function Find(m: Image, free: nat, i: nat, fbn: nat): (r: Found)
    requires i < |m.inodes| && fbn < MAXFILE
    ensures |r.m.inodes| == |m.inodes| && |r.m.blocks| == |m.blocks|
  {
    if fbn < NDIRECT then FindSlot(m, free, i, fbn)
    else
      var r := FindSlot(m, free, i, NDIRECT);
      if r.m.inodes[i].addrs[NDIRECT] < |r.m.blocks| then FindSlot(r.m, r.free, i, fbn + 1) else r
  }

  ghost predicate NeedsIndirect(m: Image, i: nat, fbn: nat)
    requires i < |m.inodes|
  {
    fbn >= NDIRECT && m.inodes[i].addrs[NDIRECT] == 0
  }

  ghost predicate FoundBlock(sb: Super, m: Image, own: map<nat, Owner>, free: nat, i: nat, fbn: nat, r: Found,
                             own': map<nat, Owner>)
    requires i < |m.inodes| && fbn < MAXFILE
  {
    && Building(sb, r.m, own', r.free) && Keeps(m, own, r.m, own') && OtherSlots(m, r.m, i)
    && r.free == free + Count(DataAddr(m.blocks, m.inodes[i], fbn) == 0) + Count(NeedsIndirect(m, i, fbn))
    && (r.m.inodes[i].addrs[NDIRECT] == 0 <==> m.inodes[i].addrs[NDIRECT] == 0 && fbn < NDIRECT)
    && sb.Data(r.x) && DataAddr(r.m.blocks, r.m.inodes[i], fbn) == r.x
    && (forall bn {:trigger DataAddr(r.m.blocks, r.m.inodes[i], bn)} :: 0 <= bn && bn != fbn ==>
          DataAddr(r.m.blocks, r.m.inodes[i], bn) == DataAddr(m.blocks, m.inodes[i], bn))
  }

  lemma FindIndirect(sb: Super, m: Image, own: map<nat, Owner>, free: nat, i: nat, r: Found)
    returns (own': map<nat, Owner>)
    requires Building(sb, m, own, free) && free < sb.size && i < |m.inodes| && r == FindSlot(m, free, i, NDIRECT)
    ensures FoundSlot(sb, m, own, free, i, NDIRECT, r, own') && 0 < r.m.inodes[i].addrs[NDIRECT] < |r.m.blocks|
  {
    own' := FindSlotKeeps(sb, m, own, free, i, NDIRECT);
    FoundIndirect(sb, m, own, free, i, r, own');
  }

  lemma FindBeyond(sb: Super, m: Image, own: map<nat, Owner>, free: nat, i: nat, fbn: nat, r1: Found, r: Found)
    returns (own': map<nat, Owner>)
    requires Building(sb, m, own, free) && free + 2 <= sb.size && i < |m.inodes| && NDIRECT <= fbn < MAXFILE
    requires r1 == FindSlot(m, free, i, NDIRECT)
    requires r1.m.inodes[i].addrs[NDIRECT] < |r1.m.blocks| ==> r == FindSlot(r1.m, r1.free, i, fbn + 1)
    ensures FoundBlock(sb, m, own, free, i, fbn, r, own') && r1.m.inodes[i].addrs[NDIRECT] < |r1.m.blocks|
  {
    var own1 := FindIndirect(sb, m, own, free, i, r1);
    own' := FindSlotKeeps(sb, r1.m, own1, r1.free, i, fbn + 1);
    FoundTwice(sb, m, own, free, i, fbn, r1, own1, r, own');
  }

  lemma FindKeeps(sb: Super, m: Image, own: map<nat, Owner>, free: nat, i: nat, fbn: nat, r: Found)
    returns (own': map<nat, Owner>)
    requires Building(sb, m, own, free) && free + 2 <= sb.size && i < |m.inodes| && fbn < MAXFILE
    requires r == Find(m, free, i, fbn)
    ensures FoundBlock(sb, m, own, free, i, fbn, r, own')
  {
    if fbn < NDIRECT {
      own' := FindSlotKeeps(sb, m, own, free, i, fbn);
      FoundOnce(sb, m, own, free, i, fbn, r, own');
    } else {
      own' := FindBeyond(sb, m, own, free, i, fbn, FindSlot(m, free, i, NDIRECT), r);
    }
  }

  lemma FoundIndirect(sb: Super, m: Image, own: map<nat, Owner>, free: nat, i: nat, r: Found, own': map<nat, Owner>)
    requires i < |m.inodes| && FoundSlot(sb, m, own, free, i, NDIRECT, r, own')
    ensures 0 < r.m.inodes[i].addrs[NDIRECT] < |r.m.blocks|
  {
  }

  lemma FoundOnce(sb: Super, m: Image, own: map<nat, Owner>, free: nat, i: nat, fbn: nat, r: Found,
                  own': map<nat, Owner>)
    requires i < |m.inodes| && fbn < NDIRECT && FoundSlot(sb, m, own, free, i, fbn, r, own')
    ensures FoundBlock(sb, m, own, free, i, fbn, r, own')
  {
    assert SlotAddr(r.m.blocks, r.m.inodes[i], NDIRECT) == SlotAddr(m.blocks, m.inodes[i], NDIRECT);
    forall bn | 0 <= bn && bn != fbn
      ensures DataAddr(r.m.blocks, r.m.inodes[i], bn) == DataAddr(m.blocks, m.inodes[i], bn)
    {
      if bn < MAXFILE {
        assert SlotAddr(r.m.blocks, r.m.inodes[i], SlotOf(bn)) == SlotAddr(m.blocks, m.inodes[i], SlotOf(bn));
      }
    }
  }

  lemma FoundTwice(sb: Super, m: Image, own: map<nat, Owner>, free: nat, i: nat, fbn: nat, r1: Found,
                   own1: map<nat, Owner>, r2: Found, own2: map<nat, Owner>)
    requires i < |m.inodes| == |r1.m.inodes| && NDIRECT <= fbn < MAXFILE
    requires FoundSlot(sb, m, own, free, i, NDIRECT, r1, own1) &&
             FoundSlot(sb, r1.m, own1, r1.free, i, fbn + 1, r2, own2)
    ensures FoundBlock(sb, m, own, free, i, fbn, r2, own2)
  {
    KeepsTrans(m, own, r1.m, own1, r2.m, own2);
    forall bn | 0 <= bn && bn != fbn
      ensures DataAddr(r2.m.blocks, r2.m.inodes[i], bn) == DataAddr(m.blocks, m.inodes[i], bn)
    {
      if bn < MAXFILE {
        assert SlotAddr(r1.m.blocks, r1.m.inodes[i], SlotOf(bn)) == SlotAddr(m.blocks, m.inodes[i], SlotOf(bn));
        assert SlotAddr(r2.m.blocks, r2.m.inodes[i], SlotOf(bn)) == SlotAddr(r1.m.blocks, r1.m.inodes[i], SlotOf(bn));
      }
    }
    forall k, t | 0 <= k < |m.inodes| && k != i && 0 <= t < SLOTS
      ensures SlotAddr(r2.m.blocks, r2.m.inodes[k], t) == SlotAddr(m.blocks, m.inodes[k], t)
    {
      assert SlotAddr(r1.m.blocks, r1.m.inodes[k], t) == SlotAddr(m.blocks, m.inodes[k], t);
    }
  }

  /** The blocks of file `i` are those that hold its first `n` bytes. */
  ghost predicate Spans(m: Image, i: nat, n: nat)
    requires i < |m.inodes|
  {
    && (m.inodes[i].addrs[NDIRECT] != 0 <==> n > NDIRECT * BSIZE)
    && forall bn {:trigger DataAddr(m.blocks, m.inodes[i], bn)} :: 0 <= bn ==>
         (DataAddr(m.blocks, m.inodes[i], bn) != 0 <==> bn * BSIZE < n)
  }

  /** The state of an append of `s` to file `i` of `off` bytes. */
  ghost predicate Appended(sb: Super, m: Image, own: map<nat, Owner>, free: nat, i: nat, off: nat, s: seq<Byte>,
                           m': Image, own': map<nat, Owner>, free': nat)
    requires i < |m.inodes|
  {
    && free' == free + BlocksFor(off + |s|) - BlocksFor(off)
    && Building(sb, m', own', free') && Writes(m, own, m', own', i) && OtherSlots(m, m', i)
    && BytesSet(m, m', i, off, s) && Spans(m', i, off + |s|)
  }

  /** One round of `iappend`. */
  lemma RoundAppends(sb: Super, m: Image, own: map<nat, Owner>, free: nat, i: nat, off: nat, s: seq<Byte>, r: Found,
                     m': Image)
    returns (own': map<nat, Owner>)
    requires Building(sb, m, own, free) && free + 2 <= sb.size && i < |m.inodes| && off / BSIZE < MAXFILE
    requires s != [] && off % BSIZE + |s| <= BSIZE && Spans(m, i, off)
    requires r == Find(m, free, i, off / BSIZE) && r.x < |r.m.blocks| && m' == PutBytes(r.m, r.x, off, s)
    ensures Appended(sb, m, own, free, i, off, s, m', own', r.free)
  {
    own' := FindKeeps(sb, m, own, free, i, off / BSIZE, r);
    FoundAppends(sb, m, own, free, i, off, s, r, own', m');
  }

  lemma FoundAppends(sb: Super, m: Image, own: map<nat, Owner>, free: nat, i: nat, off: nat, s: seq<Byte>, r: Found,
                     own': map<nat, Owner>, m': Image)
    requires sb.Valid() && Mapped(sb, m.blocks, m.inodes, own) && i < |m.inodes| && off / BSIZE < MAXFILE
    requires s != [] && off % BSIZE + |s| <= BSIZE && Spans(m, i, off)
    requires FoundBlock(sb, m, own, free, i, off / BSIZE, r, own') && r.x < |r.m.blocks| &&
             m' == PutBytes(r.m, r.x, off, s)
    ensures Appended(sb, m, own, free, i, off, s, m', own', r.free)
  {
    FoundWrites(sb, m, own, free, i, off, s, r, own', m');
    FoundSpans(sb, m, own, free, i, off, |s|, r, own');
  }

  lemma FoundWrites(sb: Super, m: Image, own: map<nat, Owner>, free: nat, i: nat, off: nat, s: seq<Byte>, r: Found,
                    own': map<nat, Owner>, m': Image)
    requires sb.Valid() && Mapped(sb, m.blocks, m.inodes, own) && i < |m.inodes| && off / BSIZE < MAXFILE
    requires s != [] && off % BSIZE + |s| <= BSIZE && r.x < |r.m.blocks| && m' == PutBytes(r.m, r.x, off, s)
    requires FoundBlock(sb, m, own, free, i, off / BSIZE, r, own')
    ensures Building(sb, m', own', r.free) && Writes(m, own, m', own', i) && OtherSlots(m, m', i) &&
            BytesSet(m, m', i, off, s)
    ensures m'.inodes == r.m.inodes
    ensures forall bn :: 0 <= bn ==> DataAddr(m'.blocks, m'.inodes[i], bn) == DataAddr(r.m.blocks, r.m.inodes[i], bn)
  {
    KeepsBytes(sb, m, own, r.m, own', i, off);
    PutBytesMapped(sb, r.m, own', i, r.x, off, s, m');
    PutBytesSets(sb, r.m, own', i, r.x, off, s, m');
    WritesTrans(m, own, r.m, own', m', own', i);
    BytesSetTrans(m, r.m, m', i, off, [], s);
    assert [] + s == s;
    assert r.x in own' by { OwnedSlot(sb, r.m.blocks, r.m.inodes, own', i, SlotOf(off / BSIZE)); }
  }

  /** With the block found the blocks of the file are those of `k` more bytes. */
  lemma FoundSpans(sb: Super, m: Image, own: map<nat, Owner>, free: nat, i: nat, off: nat, k: nat, r: Found,
                   own': map<nat, Owner>)
    requires i < |m.inodes| == |r.m.inodes| && off / BSIZE < MAXFILE && 0 < k <= BSIZE - off % BSIZE && Spans(m, i, off)
    requires FoundBlock(sb, m, own, free, i, off / BSIZE, r, own')
    ensures Spans(r.m, i, off + k) && r.free == free + BlocksFor(off + k) - BlocksFor(off)
  {
    forall bn | 0 <= bn ensures DataAddr(r.m.blocks, r.m.inodes[i], bn) != 0 <==> bn * BSIZE < off + k {
      SpansMore(off, k, bn);
    }
    IndirectSpans(off, k);
    MoreBlocks(off, k);
  }

  lemma SpansMore(off: nat, k: nat, bn: nat)
    requires 0 < k <= BSIZE - off % BSIZE
    ensures bn * BSIZE < off + k <==> bn * BSIZE < off || bn == off / BSIZE
  {
  }

  /** The indirect block comes with the first byte past the direct blocks. */
  lemma IndirectSpans(off: nat, k: nat)
    requires 0 < k <= BSIZE - off % BSIZE
    ensures off + k > NDIRECT * BSIZE <==> off / BSIZE >= NDIRECT
    ensures off / BSIZE >= NDIRECT && off <= NDIRECT * BSIZE <==> off == NDIRECT * BSIZE
    ensures off / BSIZE * BSIZE >= off <==> off % BSIZE == 0
  {
  }

  lemma AppendedMore(sb: Super, m: Image, own: map<nat, Owner>, free: nat, i: nat, off: nat, s: seq<Byte>, m1: Image,
                     own1: map<nat, Owner>, free1: nat, s': seq<Byte>, m2: Image, own2: map<nat, Owner>, free2: nat)
    requires i < |m.inodes| && Appended(sb, m, own, free, i, off, s, m1, own1, free1)
    requires i < |m1.inodes| && Appended(sb, m1, own1, free1, i, off + |s|, s', m2, own2, free2)
    ensures Appended(sb, m, own, free, i, off, s + s', m2, own2, free2)
  {
    WritesTrans(m, own, m1, own1, m2, own2, i);
    BytesSetTrans(m, m1, m2, i, off, s, s');
    forall k, t | 0 <= k < |m.inodes| && k != i && 0 <= t < SLOTS
      ensures SlotAddr(m2.blocks, m2.inodes[k], t) == SlotAddr(m.blocks, m.inodes[k], t)
    {
      assert SlotAddr(m1.blocks, m1.inodes[k], t) == SlotAddr(m.blocks, m.inodes[k], t);
    }
  }

  ghost predicate AllExact(m: Image) {
    forall k {:trigger m.inodes[k]} :: 0 <= k < |m.inodes| ==> Exact(m.blocks, m.inodes[k])
  }

  /** Files other than `i` are the same in every respect. */
  ghost predicate OtherFiles(m: Image, m': Image, i: nat) {
    && |m'.inodes| == |m.inodes|
    && forall k {:trigger m'.inodes[k]} :: 0 <= k < |m.inodes| && k != i ==>
         m'.inodes[k] == m.inodes[k] && Content(m'.blocks, m'.inodes[k]) == Content(m.blocks, m.inodes[k])
  }

  /** The append is complete once the size is set. */
  lemma AppendFinished(sb: Super, m: Image, own: map<nat, Owner>, free: nat, i: nat, off: nat, s: seq<Byte>,
                       m1: Image, own1: map<nat, Owner>, free1: nat, m': Image)
    requires i < |m.inodes| && Mapped(sb, m.blocks, m.inodes, own) && AllExact(m) && off == m.inodes[i].size &&
             off + |s| <= MAXFILE * BSIZE
    requires Appended(sb, m, own, free, i, off, s, m1, own1, free1) && i < |m1.inodes|
    requires m' == m1.(inodes := m1.inodes[i := m1.inodes[i].(size := off + |s|)])
    ensures Building(sb, m', own1, free1) && AllExact(m') && OtherFiles(m, m', i)
    ensures m'.inodes[i] == m.inodes[i].(addrs := m'.inodes[i].addrs, size := off + |s|)
    ensures Content(m'.blocks, m'.inodes[i]) == Content(m.blocks, m.inodes[i]) + s
  {
    SizeMapped(sb, m1, own1, i, off + |s|);
    assert Exact(m.blocks, m.inodes[i]);
    WrittenContent(m, i, off, s, m1, off + |s|);
    var c := Content(m.blocks, m.inodes[i]);
    assert Overwrite(c, off, s)[.. off + |s|] == c + s;
    forall k | 0 <= k < |m.inodes| && k != i
      ensures Exact(m'.blocks, m'.inodes[k]) && m'.inodes[k] == m.inodes[k] &&
              Content(m'.blocks, m'.inodes[k]) == Content(m.blocks, m.inodes[k])
    {
      assert Exact(m.blocks, m.inodes[k]);
      WritesContent(sb, m, own, m1, own1, i, k);
      forall bn | 0 <= bn ensures DataAddr(m'.blocks, m'.inodes[k], bn) == DataAddr(m.blocks, m.inodes[k], bn) {
        if bn < MAXFILE {
          assert SlotAddr(m1.blocks, m1.inodes[k], SlotOf(bn)) == SlotAddr(m.blocks, m.inodes[k], SlotOf(bn));
        }
      }
    }
    ExactAfter(m1, i, off + |s|);
  }

  lemma ExactAfter(m: Image, i: nat, n: nat)
    requires i < |m.inodes| && Spans(m, i, n) && n <= MAXFILE * BSIZE
    ensures Exact(m.blocks, m.inodes[i].(size := n))
  {
    var ino := m.inodes[i].(size := n);
    forall bn | 0 <= bn ensures DataAddr(m.blocks, ino, bn) == DataAddr(m.blocks, m.inodes[i], bn) {
    }
  }
}
