/** What allocation, block mapping and truncation do to the image, and that they keep block
    ownership (kernel/src/fs.rs:146-182, 512-572). */
module FsOps {
  import opened FsLayout
  import opened FsImage
  import opened FsFile

  /** Marking and zeroing a free block disturbs no slot. */
  lemma AllocFrame(sb: Super, m: Image, own: map<nat, Owner>, b: nat, m1: Image)
    requires Consistent(sb, m.blocks, m.inodes, own) && b < sb.size && !Used(sb, m.blocks, b)
    requires m1 == m.(blocks := MarkBit(sb, m.blocks, b)[b := ZeroBlock()])
    ensures sb.Data(b) && b !in own && Mapped(sb, m1.blocks, m1.inodes, own) && Marked(sb, m1.blocks, own.Keys + {b})
    ensures forall k, t {:trigger SlotAddr(m1.blocks, m1.inodes[k], t)} :: 0 <= k < |m.inodes| && 0 <= t < SLOTS ==>
              SlotAddr(m1.blocks, m.inodes[k], t) == SlotAddr(m.blocks, m.inodes[k], t)
    ensures forall c {:trigger c in own} :: c in own ==> c < |m.blocks| && m1.blocks[c] == m.blocks[c]
  {
    MarkBitMarks(sb, m.blocks, own.Keys, b);
    DataKeepsMarks(sb, MarkBit(sb, m.blocks, b), own.Keys + {b}, b, ZeroBlock());
    forall c | c in own ensures c < |m.blocks| && m1.blocks[c] == m.blocks[c] {
      assert sb.Data(c) by { assert own[c] == own[c]; }
      assert sb.Bblock(b) < sb.Meta();
    }
    SlotsFrame(sb, m.blocks, m.inodes, own, m1.blocks);
  }

  lemma WriteSlotMarks(sb: Super, m: Image, own: map<nat, Owner>, busy: set<nat>, i: nat, s: nat, a: nat, m': Image)
    requires sb.Valid() && Mapped(sb, m.blocks, m.inodes, own) && Marked(sb, m.blocks, busy) && i < |m.inodes| &&
             s < SLOTS
    requires s > NDIRECT ==> m.inodes[i].addrs[NDIRECT] != 0
    requires s > NDIRECT ==> m.inodes[i].addrs[NDIRECT] < |m.blocks|
    requires m' == WriteSlot(m, i, s, a)
    ensures Marked(sb, m'.blocks, busy)
  {
    if s > NDIRECT {
      OwnedSlot(sb, m.blocks, m.inodes, own, i, NDIRECT);
      var ind := m.inodes[i].addrs[NDIRECT];
      DataKeepsMarks(sb, m.blocks, busy, ind, SetWord(m.blocks[ind], s - NDIRECT - 1, a));
    }
  }

  /** Block `b` was marked, zeroed, and slot `s` of inode `i` made to point to it. */
  lemma AllocAssigned(sb: Super, m: Image, own: map<nat, Owner>, b: nat, i: nat, s: nat, m1: Image, m': Image)
    requires Consistent(sb, m.blocks, m.inodes, own) && i < |m.inodes| && s < SLOTS
    requires SlotAddr(m.blocks, m.inodes[i], s) == 0 && (s > NDIRECT ==> m.inodes[i].addrs[NDIRECT] != 0)
    requires s > NDIRECT ==> m.inodes[i].addrs[NDIRECT] < |m.blocks|
    requires b < sb.size && !Used(sb, m.blocks, b)
    requires m1 == m.(blocks := MarkBit(sb, m.blocks, b)[b := ZeroBlock()]) && m' == WriteSlot(m1, i, s, b)
    ensures Consistent(sb, m'.blocks, m'.inodes, own[b := Owner(i, s)]) && Keeps(m, own, m', own[b := Owner(i, s)])
    ensures sb.Data(b) && b !in own && SlotAddr(m'.blocks, m'.inodes[i], s) == b
  {
    AllocFrame(sb, m, own, b, m1);
    assert CanWrite(m1, i, s, b) by {
      forall t | NDIRECT < t < SLOTS && s == NDIRECT ensures SlotAddr(m1.blocks, m1.inodes[i], t) == 0 {}
    }
    assert own[b := Owner(i, s)].Keys == own.Keys + {b};
    assert SlotAddr(m1.blocks, m1.inodes[i], s) == 0;
    WriteSlotMarks(sb, m1, own, own.Keys + {b}, i, s, b, m');
    SlotAssigned(sb, m1, own, i, s, b, m');
    AllocKeeps(sb, m, own, b, i, s, m1, m');
    SlotWritten(sb, m1, own, i, s, b, i, s);
  }

  lemma AllocKeeps(sb: Super, m: Image, own: map<nat, Owner>, b: nat, i: nat, s: nat, m1: Image, m': Image)
    requires sb.Valid() && Mapped(sb, m.blocks, m.inodes, own) && Mapped(sb, m1.blocks, m1.inodes, own) &&
             i < |m.inodes| && s < SLOTS
    requires forall k, t {:trigger SlotAddr(m1.blocks, m1.inodes[k], t)} :: 0 <= k < |m.inodes| && 0 <= t < SLOTS ==>
               SlotAddr(m1.blocks, m.inodes[k], t) == SlotAddr(m.blocks, m.inodes[k], t)
    requires SlotAddr(m.blocks, m.inodes[i], s) == 0 && b !in own && sb.Data(b) && m1.inodes == m.inodes
    requires forall c {:trigger c in own} :: c in own ==> m1.blocks[c] == m.blocks[c]
    requires CanWrite(m1, i, s, b) && (s > NDIRECT ==> m1.inodes[i].addrs[NDIRECT] < |m1.blocks|)
    requires m' == WriteSlot(m1, i, s, b)
    ensures Keeps(m, own, m', own[b := Owner(i, s)])
  {
    forall k, t | 0 <= k < |m.inodes| && 0 <= t < SLOTS && SlotAddr(m.blocks, m.inodes[k], t) != 0
      ensures SlotAddr(m'.blocks, m'.inodes[k], t) == SlotAddr(m.blocks, m.inodes[k], t)
    {
      assert SlotAddr(m1.blocks, m1.inodes[k], t) == SlotAddr(m.blocks, m.inodes[k], t);
      SlotWritten(sb, m1, own, i, s, b, k, t);
    }
    OwnedSlot(sb, m.blocks, m.inodes, own, i, NDIRECT);
  }

  /** What an operation makes of the image: its result and the blocks it gave to the log,
      in order. */
  datatype Step = Step(ok: bool, m: Image, a: nat, logs: seq<nat>)

  /** The first block from `b` on whose bit is clear; the size of the device when there is none. */
  function FirstFree(sb: Super, blocks: seq<Block>, b: nat): (f: nat)
    requires b <= sb.size
    ensures b <= f <= sb.size && (f < sb.size ==> !Used(sb, blocks, f))
    ensures forall c {:trigger Used(sb, blocks, c)} :: b <= c < f ==> Used(sb, blocks, c)
    decreases sb.size - b
  {
    if b == sb.size || !Used(sb, blocks, b) then b else FirstFree(sb, blocks, b + 1)
  }

  lemma {:induction false} FirstFreeIs(sb: Super, blocks: seq<Block>, b: nat, f: nat)
    requires b <= f <= sb.size && (f < sb.size ==> !Used(sb, blocks, f))
    requires forall c :: b <= c < f ==> Used(sb, blocks, c)
    ensures FirstFree(sb, blocks, b) == f
    decreases f - b
  {
    if b < f { FirstFreeIs(sb, blocks, b + 1, f); }
  }

  ghost predicate Fits(sb: Super, m: Image) {
    sb.Valid() && |m.blocks| == sb.size
  }

  function Balloc(sb: Super, m: Image): (r: Step)
    requires Fits(sb, m)
    ensures Fits(sb, r.m) && |r.m.inodes| == |m.inodes|
  {
    var b := FirstFree(sb, m.blocks, 0);
    if b == sb.size then Step(false, m, 0, [])
    else Step(true, m.(blocks := MarkBit(sb, m.blocks, b)[b := ZeroBlock()]), b, [sb.Bblock(b), b])
  }

  lemma BallocFound(sb: Super, m: Image, b: nat)
    requires Fits(sb, m) && b < sb.size && !Used(sb, m.blocks, b) && forall c :: 0 <= c < b ==> Used(sb, m.blocks, c)
    ensures Balloc(sb, m) == Step(true, m.(blocks := MarkBit(sb, m.blocks, b)[b := ZeroBlock()]), b, [sb.Bblock(b), b])
  {
    FirstFreeIs(sb, m.blocks, 0, b);
  }

  /** `*slot = balloc()?`. */
  function AllocSlot(sb: Super, m: Image, i: nat, s: nat): (r: Step)
    requires Fits(sb, m) && i < |m.inodes| && s < SLOTS
    requires s > NDIRECT ==> m.inodes[i].addrs[NDIRECT] < |m.blocks|
    ensures Fits(sb, r.m) && |r.m.inodes| == |m.inodes|
  {
    var r := Balloc(sb, m);
    if !r.ok then r
    else Step(true, WriteSlot(r.m, i, s, r.a), r.a,
              if s > NDIRECT then r.logs + [m.inodes[i].addrs[NDIRECT]] else r.logs)
  }

  /** A pointer in the inode, allocated when missing. */
  function BmapPointer(sb: Super, m: Image, i: nat, s: nat): (r: Step)
    requires Fits(sb, m) && i < |m.inodes| && s <= NDIRECT
    ensures Fits(sb, r.m) && |r.m.inodes| == |m.inodes|
  {
    if m.inodes[i].addrs[s] == 0 then AllocSlot(sb, m, i, s) else Step(true, m, m.inodes[i].addrs[s], [])
  }

  /** A word of the indirect block, allocated when missing. A block outside the device cannot be
      read. */
  function BmapWord(sb: Super, m: Image, i: nat, j: nat): (r: Step)
    requires Fits(sb, m) && i < |m.inodes| && j < NINDIRECT
    ensures Fits(sb, r.m) && |r.m.inodes| == |m.inodes|
  {
    var ind := m.inodes[i].addrs[NDIRECT];
    if ind >= |m.blocks| then Step(false, m, 0, [])
    else if Word(m.blocks[ind], j) == 0 then AllocSlot(sb, m, i, NDIRECT + 1 + j)
    else Step(true, m, Word(m.blocks[ind], j), [])
  }

  /** `bmap`. */
  function Bmap(sb: Super, m: Image, i: nat, bn: nat): (r: Step)
    requires Fits(sb, m) && i < |m.inodes|
    ensures Fits(sb, r.m) && |r.m.inodes| == |m.inodes|
  {
    if bn < NDIRECT then BmapPointer(sb, m, i, bn)
    else if bn < MAXFILE then
      var r := BmapPointer(sb, m, i, NDIRECT);
      if !r.ok then r
      else
        var r' := BmapWord(sb, r.m, i, bn - NDIRECT);
        r'.(logs := r.logs + r'.logs)
    else Step(false, m, 0, [])
  }

  /** Blocks that differ are in the log or are block `ind`, if there is one. */
  ghost predicate ChangesLogged(m: Image, m': Image, logs: seq<nat>, ind: nat) {
    && |m'.blocks| == |m.blocks|
    && forall b {:trigger m'.blocks[b]} :: 0 <= b < |m.blocks| && m'.blocks[b] != m.blocks[b] ==>
         b in logs || b == ind != 0
  }

  lemma ChangesMore(m: Image, m1: Image, m2: Image, logs: seq<nat>, news: seq<nat>)
    requires ChangesLogged(m, m1, logs, 0) && ChangesLogged(m1, m2, news, 0)
    ensures ChangesLogged(m, m2, logs + news, 0)
  {
  }

  lemma AllocLogged(sb: Super, m: Image, i: nat, s: nat, r: Step)
    requires Fits(sb, m) && i < |m.inodes| && s < SLOTS && (s > NDIRECT ==> m.inodes[i].addrs[NDIRECT] < |m.blocks|)
    requires r == AllocSlot(sb, m, i, s)
    ensures ChangesLogged(m, r.m, r.logs, 0)
  {
  }

  lemma WordLogged(sb: Super, m: Image, i: nat, j: nat, r: Step)
    requires Fits(sb, m) && i < |m.inodes| && j < NINDIRECT && r == BmapWord(sb, m, i, j)
    ensures ChangesLogged(m, r.m, r.logs, 0)
  {
    var ind := m.inodes[i].addrs[NDIRECT];
    if ind < |m.blocks| && Word(m.blocks[ind], j) == 0 {
      AllocLogged(sb, m, i, NDIRECT + 1 + j, r);
    }
  }

  /** Every block that `bmap` changes it gives to the log. */
  lemma BmapLogged(sb: Super, m: Image, i: nat, bn: nat, r: Step)
    requires Fits(sb, m) && i < |m.inodes| && r == Bmap(sb, m, i, bn)
    ensures ChangesLogged(m, r.m, r.logs, 0)
  {
    if bn < MAXFILE {
      var s := if bn < NDIRECT then bn else NDIRECT;
      var r1 := BmapPointer(sb, m, i, s);
      if m.inodes[i].addrs[s] == 0 { AllocLogged(sb, m, i, s, r1); }
      if bn >= NDIRECT && r1.ok {
        var r2 := BmapWord(sb, r1.m, i, bn - NDIRECT);
        WordLogged(sb, r1.m, i, bn - NDIRECT, r2);
        ChangesMore(m, r1.m, r2.m, r1.logs, r2.logs);
      }
    }
  }

  function One(c: bool): nat { if c then 1 else 0 }

  ghost predicate AllocSpec(sb: Super, m: Image, own: map<nat, Owner>, i: nat, s: nat, r: Step, own': map<nat, Owner>,
                            marks: set<nat>)
    requires i < |m.inodes| && s < SLOTS
  {
    && Consistent(sb, r.m.blocks, r.m.inodes, own') && Keeps(m, own, r.m, own')
    && (r.ok ==> SlotAddr(r.m.blocks, r.m.inodes[i], s) == r.a != 0)
    && (!r.ok ==> r.m == m && FirstFree(sb, m.blocks, 0) == sb.size)
    && (forall x :: x in r.logs ==>
          x in marks || (r.ok && x == r.a) || (s > NDIRECT && x == m.inodes[i].addrs[NDIRECT]))
    && |marks| <= One(r.ok)
  }

  lemma AllocSlotKeeps(sb: Super, m: Image, own: map<nat, Owner>, i: nat, s: nat, r: Step)
    returns (own': map<nat, Owner>, marks: set<nat>)
    requires Consistent(sb, m.blocks, m.inodes, own) && i < |m.inodes| && s < SLOTS
    requires SlotAddr(m.blocks, m.inodes[i], s) == 0 && (s > NDIRECT ==> m.inodes[i].addrs[NDIRECT] != 0)
    requires s > NDIRECT ==> m.inodes[i].addrs[NDIRECT] < |m.blocks|
    requires r == AllocSlot(sb, m, i, s)
    ensures AllocSpec(sb, m, own, i, s, r, own', marks)
  {
    own', marks := own, {};
    var r0 := Balloc(sb, m);
    if r0.ok {
      AllocAssigned(sb, m, own, r0.a, i, s, r0.m, r.m);
      own' := own[r0.a := Owner(i, s)];
      marks := {sb.Bblock(r0.a)};
    }
  }

  ghost predicate PointerSpec(sb: Super, m: Image, own: map<nat, Owner>, i: nat, s: nat, r: Step, own': map<nat, Owner>,
                              marks: set<nat>)
    requires i < |m.inodes| && s <= NDIRECT
  {
    && Consistent(sb, r.m.blocks, r.m.inodes, own') && Keeps(m, own, r.m, own')
    && (r.ok ==> r.m.inodes[i].addrs[s] == r.a != 0)
    && (m.inodes[i].addrs[s] != 0 ==> r == Step(true, m, m.inodes[i].addrs[s], []))
    && (!r.ok ==> r.m == m && FirstFree(sb, m.blocks, 0) == sb.size)
    && (forall x :: x in r.logs ==> x in marks || (r.ok && x == r.a))
    && |marks| <= One(r.ok && m.inodes[i].addrs[s] == 0)
  }

  lemma PointerKeeps(sb: Super, m: Image, own: map<nat, Owner>, i: nat, s: nat, r: Step)
    returns (own': map<nat, Owner>, marks: set<nat>)
    requires Consistent(sb, m.blocks, m.inodes, own) && i < |m.inodes| && s <= NDIRECT && r == BmapPointer(sb, m, i, s)
    ensures PointerSpec(sb, m, own, i, s, r, own', marks)
  {
    own', marks := own, {};
    if m.inodes[i].addrs[s] == 0 {
      own', marks := AllocSlotKeeps(sb, m, own, i, s, r);
      PointerFromAlloc(sb, m, own, i, s, r, own', marks);
    }
  }

  lemma PointerFromAlloc(sb: Super, m: Image, own: map<nat, Owner>, i: nat, s: nat, r: Step, own': map<nat, Owner>,
                         marks: set<nat>)
    requires i < |m.inodes| && s <= NDIRECT && m.inodes[i].addrs[s] == 0 && AllocSpec(sb, m, own, i, s, r, own', marks)
    ensures PointerSpec(sb, m, own, i, s, r, own', marks)
  {
  }

  ghost predicate WordSpec(sb: Super, m: Image, own: map<nat, Owner>, i: nat, j: nat, r: Step, own': map<nat, Owner>,
                           marks: set<nat>)
    requires i < |m.inodes| && j < NINDIRECT
  {
    && Consistent(sb, r.m.blocks, r.m.inodes, own') && Keeps(m, own, r.m, own')
    && (r.ok ==> SlotAddr(r.m.blocks, r.m.inodes[i], NDIRECT + 1 + j) == r.a != 0)
    && (SlotAddr(m.blocks, m.inodes[i], NDIRECT + 1 + j) != 0 ==>
          r == Step(true, m, SlotAddr(m.blocks, m.inodes[i], NDIRECT + 1 + j), []))
    && (!r.ok ==> r.m == m && FirstFree(sb, m.blocks, 0) == sb.size)
    && (forall x :: x in r.logs ==> x in marks || (r.ok && x == r.a) || x == m.inodes[i].addrs[NDIRECT] != 0)
    && |marks| <= One(SlotAddr(m.blocks, m.inodes[i], NDIRECT + 1 + j) == 0)
  }

  lemma WordKeeps(sb: Super, m: Image, own: map<nat, Owner>, i: nat, j: nat, r: Step)
    returns (own': map<nat, Owner>, marks: set<nat>)
    requires Consistent(sb, m.blocks, m.inodes, own) && i < |m.inodes| && j < NINDIRECT
    requires 0 < m.inodes[i].addrs[NDIRECT] < |m.blocks| && r == BmapWord(sb, m, i, j)
    ensures WordSpec(sb, m, own, i, j, r, own', marks)
  {
    own', marks := own, {};
    if SlotAddr(m.blocks, m.inodes[i], NDIRECT + 1 + j) == 0 {
      own', marks := AllocSlotKeeps(sb, m, own, i, NDIRECT + 1 + j, r);
      WordFromAlloc(sb, m, own, i, j, r, own', marks);
    }
  }

  lemma WordFromAlloc(sb: Super, m: Image, own: map<nat, Owner>, i: nat, j: nat, r: Step, own': map<nat, Owner>,
                      marks: set<nat>)
    requires i < |m.inodes| && j < NINDIRECT && SlotAddr(m.blocks, m.inodes[i], NDIRECT + 1 + j) == 0
    requires m.inodes[i].addrs[NDIRECT] != 0 && AllocSpec(sb, m, own, i, NDIRECT + 1 + j, r, own', marks)
    ensures WordSpec(sb, m, own, i, j, r, own', marks)
  {
  }

  lemma UnionSize(a: set<nat>, b: set<nat>)
    ensures |a + b| <= |a| + |b|
  {
    assert |a + b| + |a * b| == |a| + |b|;
  }

  /** What `bmap` does: it keeps block ownership and everything in use; it gives the block of the
      file, the old one if there is one, and fails only beyond the largest file or when no block is
      free. It logs the block, the indirect block, and one bit map block for each block allocated. */
  ghost predicate BmapSpec(sb: Super, m: Image, own: map<nat, Owner>, i: nat, bn: nat, r: Step, own': map<nat, Owner>,
                           marks: set<nat>)
    requires i < |m.inodes|
  {
    && Consistent(sb, r.m.blocks, r.m.inodes, own') && Keeps(m, own, r.m, own')
    && (r.ok ==> bn < MAXFILE && DataAddr(r.m.blocks, r.m.inodes[i], bn) == r.a && 0 < r.a < |r.m.blocks|)
    && (DataAddr(m.blocks, m.inodes[i], bn) != 0 ==> r == Step(true, m, DataAddr(m.blocks, m.inodes[i], bn), []))
    && (!r.ok ==> bn >= MAXFILE || FirstFree(sb, r.m.blocks, 0) == sb.size)
    && (forall x :: x in r.logs ==> x in marks || (r.ok && x == r.a) || x == r.m.inodes[i].addrs[NDIRECT] != 0)
    && |marks| <= One(DataAddr(m.blocks, m.inodes[i], bn) == 0)
                  + One(m.inodes[i].addrs[NDIRECT] == 0 && r.m.inodes[i].addrs[NDIRECT] != 0)
  }

  lemma BmapKeeps(sb: Super, m: Image, own: map<nat, Owner>, i: nat, bn: nat, r: Step)
    returns (own': map<nat, Owner>, marks: set<nat>)
    requires Consistent(sb, m.blocks, m.inodes, own) && i < |m.inodes| && r == Bmap(sb, m, i, bn)
    ensures BmapSpec(sb, m, own, i, bn, r, own', marks) && ChangesLogged(m, r.m, r.logs, 0)
  {
    BmapLogged(sb, m, i, bn, r);
    if bn < NDIRECT {
      own', marks := BmapDirect(sb, m, own, i, bn, r);
    } else if bn < MAXFILE {
      own', marks := BmapIndirect(sb, m, own, i, bn, bn - NDIRECT, r);
    } else {
      own', marks := own, {};
      BmapBeyond(sb, m, own, i, bn, r);
    }
  }

  lemma BmapBeyond(sb: Super, m: Image, own: map<nat, Owner>, i: nat, bn: nat, r: Step)
    requires Consistent(sb, m.blocks, m.inodes, own) && i < |m.inodes| && bn >= MAXFILE && r == Step(false, m, 0, [])
    ensures BmapSpec(sb, m, own, i, bn, r, own, {})
  {
  }

  lemma BmapDirect(sb: Super, m: Image, own: map<nat, Owner>, i: nat, s: nat, r: Step)
    returns (own': map<nat, Owner>, marks: set<nat>)
    requires Consistent(sb, m.blocks, m.inodes, own) && i < |m.inodes| && s < NDIRECT && r == BmapPointer(sb, m, i, s)
    ensures BmapSpec(sb, m, own, i, s, r, own', marks)
  {
    own', marks := PointerKeeps(sb, m, own, i, s, r);
    DirectIsPointer(sb, m, own, i, s, r, own', marks);
  }

  lemma DirectIsPointer(sb: Super, m: Image, own: map<nat, Owner>, i: nat, s: nat, r: Step, own': map<nat, Owner>,
                        marks: set<nat>)
    requires i < |m.inodes| && s < NDIRECT && PointerSpec(sb, m, own, i, s, r, own', marks)
    ensures BmapSpec(sb, m, own, i, s, r, own', marks)
  {
    OwnedSlot(sb, r.m.blocks, r.m.inodes, own', i, s);
  }

  lemma BmapIndirect(sb: Super, m: Image, own: map<nat, Owner>, i: nat, bn: nat, j: nat, r: Step)
    returns (own': map<nat, Owner>, marks: set<nat>)
    requires Consistent(sb, m.blocks, m.inodes, own) && i < |m.inodes| && j < NINDIRECT && bn == NDIRECT + j
    requires r == Bmap(sb, m, i, bn)
    ensures BmapSpec(sb, m, own, i, bn, r, own', marks)
  {
    var r1 := BmapPointer(sb, m, i, NDIRECT);
    var own1, marks1 := PointerKeeps(sb, m, own, i, NDIRECT, r1);
    if r1.ok {
      OwnedSlot(sb, r1.m.blocks, r1.m.inodes, own1, i, NDIRECT);
      var r2 := BmapWord(sb, r1.m, i, j);
      own', marks := WordKeeps(sb, r1.m, own1, i, j, r2);
      if m.inodes[i].addrs[NDIRECT] == 0 { FreshWords(sb, m, own, i, j, r1); }
      IndirectIsWord(sb, m, own, i, j, r1, own1, marks1, r2, own', marks);
      marks := marks1 + marks;
    } else {
      own', marks := own1, marks1;
      NoIndirect(sb, m, own, i, j, r1, own1, marks1);
    }
  }

  lemma NoIndirect(sb: Super, m: Image, own: map<nat, Owner>, i: nat, j: nat, r: Step, own': map<nat, Owner>,
                   marks: set<nat>)
    requires i < |m.inodes| && j < NINDIRECT && PointerSpec(sb, m, own, i, NDIRECT, r, own', marks) && !r.ok
    ensures BmapSpec(sb, m, own, i, NDIRECT + j, r, own', marks)
  {
  }

  lemma IndirectIsWord(sb: Super, m: Image, own: map<nat, Owner>, i: nat, j: nat, r1: Step, own1: map<nat, Owner>,
                       marks1: set<nat>, r2: Step, own2: map<nat, Owner>, marks2: set<nat>)
    requires i < |m.inodes| && j < NINDIRECT && PointerSpec(sb, m, own, i, NDIRECT, r1, own1, marks1) && r1.ok
    requires i < |r1.m.inodes| && WordSpec(sb, r1.m, own1, i, j, r2, own2, marks2)
    requires m.inodes[i].addrs[NDIRECT] == 0 ==> SlotAddr(r1.m.blocks, r1.m.inodes[i], NDIRECT + 1 + j) == 0
    ensures BmapSpec(sb, m, own, i, NDIRECT + j, r2.(logs := r1.logs + r2.logs), own2, marks1 + marks2)
  {
    KeepsTrans(m, own, r1.m, own1, r2.m, own2);
    UnionSize(marks1, marks2);
    assert SlotAddr(r2.m.blocks, r2.m.inodes[i], NDIRECT) == SlotAddr(r1.m.blocks, r1.m.inodes[i], NDIRECT);
    OwnedSlot(sb, r2.m.blocks, r2.m.inodes, own2, i, NDIRECT + 1 + j);
  }

  /** A new indirect block has no words. */
  lemma FreshWords(sb: Super, m: Image, own: map<nat, Owner>, i: nat, j: nat, r: Step)
    requires Consistent(sb, m.blocks, m.inodes, own) && i < |m.inodes| && j < NINDIRECT
    requires m.inodes[i].addrs[NDIRECT] == 0 && r == BmapPointer(sb, m, i, NDIRECT) && r.ok
    ensures SlotAddr(r.m.blocks, r.m.inodes[i], NDIRECT + 1 + j) == 0
  {
    ZeroBlockWords(j);
  }

  // Truncation.

  /** `bfree` of the block a slot points to, whose bit the code asserts to be set, then the slot is
      cleared. */
  function FreeSlot(sb: Super, m: Image, i: nat, s: nat): (r: Image)
    requires Fits(sb, m) && i < |m.inodes| && s < SLOTS
    requires s > NDIRECT ==> m.inodes[i].addrs[NDIRECT] < |m.blocks|
    requires var a := SlotAddr(m.blocks, m.inodes[i], s); a != 0 ==> a < sb.size && Used(sb, m.blocks, a)
    ensures Fits(sb, r) && |r.inodes| == |m.inodes|
  {
    var a := SlotAddr(m.blocks, m.inodes[i], s);
    if a == 0 then m else WriteSlot(m.(blocks := UnmarkBit(sb, m.blocks, a)), i, s, 0)
  }

  /** Nothing of the files other than `i` changed. */
  ghost predicate OthersKept(m: Image, own: map<nat, Owner>, m': Image, own': map<nat, Owner>, i: nat) {
    && |m'.blocks| == |m.blocks| && |m'.inodes| == |m.inodes|
    && (forall k {:trigger m'.inodes[k]} :: 0 <= k < |m.inodes| && k != i ==> m'.inodes[k] == m.inodes[k])
    && (forall b {:trigger b in own} :: b in own && own[b].inum != i && b < |m.blocks| ==>
          b in own' && own'[b] == own[b] && m'.blocks[b] == m.blocks[b])
  }

  lemma OthersKeptTrans(m: Image, own: map<nat, Owner>, m1: Image, own1: map<nat, Owner>, m2: Image,
                        own2: map<nat, Owner>, i: nat)
    requires OthersKept(m, own, m1, own1, i) && OthersKept(m1, own1, m2, own2, i)
    ensures OthersKept(m, own, m2, own2, i)
  {
  }

  /** Unmarking an owned block's bit disturbs no slot. */
  lemma UnmarkFrame(sb: Super, m: Image, own: map<nat, Owner>, a: nat, m1: Image)
    requires Consistent(sb, m.blocks, m.inodes, own) && a in own && sb.Data(a) && Used(sb, m.blocks, a)
    requires m1 == m.(blocks := UnmarkBit(sb, m.blocks, a))
    ensures Mapped(sb, m1.blocks, m1.inodes, own) && Marked(sb, m1.blocks, own.Keys - {a})
    ensures forall k, t {:trigger SlotAddr(m1.blocks, m1.inodes[k], t)} :: 0 <= k < |m.inodes| && 0 <= t < SLOTS ==>
              SlotAddr(m1.blocks, m.inodes[k], t) == SlotAddr(m.blocks, m.inodes[k], t)
    ensures forall c {:trigger c in own} :: c in own ==> c < |m.blocks| && m1.blocks[c] == m.blocks[c]
  {
    UnmarkBitMarks(sb, m.blocks, own.Keys, a);
    forall c | c in own ensures c < |m.blocks| && m1.blocks[c] == m.blocks[c] {
      assert sb.Data(c) by { assert own[c] == own[c]; }
      assert sb.Bblock(a) < sb.Meta();
    }
    SlotsFrame(sb, m.blocks, m.inodes, own, m1.blocks);
  }

  /** Freeing a slot keeps block ownership; only that slot and its block change. */
  lemma FreeSlotKeeps(sb: Super, m: Image, own: map<nat, Owner>, i: nat, s: nat) returns (own': map<nat, Owner>)
    requires Consistent(sb, m.blocks, m.inodes, own) && i < |m.inodes| && s < SLOTS && CanWrite(m, i, s, 0)
    ensures s > NDIRECT ==> m.inodes[i].addrs[NDIRECT] < |m.blocks|
    ensures var a := SlotAddr(m.blocks, m.inodes[i], s); a != 0 ==> a < sb.size && Used(sb, m.blocks, a)
    ensures var m' := FreeSlot(sb, m, i, s);
            && Consistent(sb, m'.blocks, m'.inodes, own') && OthersKept(m, own, m', own', i)
            && forall t {:trigger SlotAddr(m'.blocks, m'.inodes[i], t)} :: 0 <= t < SLOTS ==>
                 SlotAddr(m'.blocks, m'.inodes[i], t) == if t == s then 0 else SlotAddr(m.blocks, m.inodes[i], t)
  {
    own' := own;
    OwnedSlot(sb, m.blocks, m.inodes, own, i, NDIRECT);
    OwnedSlot(sb, m.blocks, m.inodes, own, i, s);
    var a := SlotAddr(m.blocks, m.inodes[i], s);
    if a != 0 {
      assert Used(sb, m.blocks, a);
      own' := own - {a};
      FreeSlotOwned(sb, m, own, i, s, a, m.(blocks := UnmarkBit(sb, m.blocks, a)), FreeSlot(sb, m, i, s));
    }
  }

  lemma FreeSlotOwned(sb: Super, m: Image, own: map<nat, Owner>, i: nat, s: nat, a: nat, m1: Image, m': Image)
    requires Consistent(sb, m.blocks, m.inodes, own) && i < |m.inodes| && s < SLOTS && CanWrite(m, i, s, 0)
    requires a == SlotAddr(m.blocks, m.inodes[i], s) != 0 && a in own && sb.Data(a) && Used(sb, m.blocks, a)
    requires m1 == m.(blocks := UnmarkBit(sb, m.blocks, a))
    requires s > NDIRECT ==> m1.inodes[i].addrs[NDIRECT] < |m1.blocks|
    requires m' == WriteSlot(m1, i, s, 0)
    ensures Consistent(sb, m'.blocks, m'.inodes, own - {a}) && OthersKept(m, own, m', own - {a}, i)
    ensures forall t {:trigger SlotAddr(m'.blocks, m'.inodes[i], t)} :: 0 <= t < SLOTS ==>
              SlotAddr(m'.blocks, m'.inodes[i], t) == if t == s then 0 else SlotAddr(m.blocks, m.inodes[i], t)
  {
    UnmarkFrame(sb, m, own, a, m1);
    assert CanWrite(m1, i, s, 0) by {
      forall t | NDIRECT < t < SLOTS && s == NDIRECT ensures SlotAddr(m1.blocks, m1.inodes[i], t) == 0 {
        assert SlotAddr(m1.blocks, m1.inodes[i], t) == SlotAddr(m.blocks, m.inodes[i], t);
      }
    }
    assert SlotAddr(m1.blocks, m1.inodes[i], s) == a;
    SlotCleared(sb, m1, own, i, s, m');
    WriteSlotMarks(sb, m1, own, own.Keys - {a}, i, s, 0, m');
    assert (own - {a}).Keys == own.Keys - {a};
    forall t | 0 <= t < SLOTS
      ensures SlotAddr(m'.blocks, m'.inodes[i], t) == if t == s then 0 else SlotAddr(m.blocks, m.inodes[i], t)
    {
      assert SlotAddr(m1.blocks, m1.inodes[i], t) == SlotAddr(m.blocks, m.inodes[i], t);
      SlotWritten(sb, m1, own, i, s, 0, i, t);
    }
    OwnedSlot(sb, m.blocks, m.inodes, own, i, s);
    OwnedSlot(sb, m.blocks, m.inodes, own, i, NDIRECT);
  }

  /** Files other than `i` keep their contents. */
  lemma OthersContent(sb: Super, m: Image, own: map<nat, Owner>, m': Image, own': map<nat, Owner>, i: nat, k: nat)
    requires Mapped(sb, m.blocks, m.inodes, own) && OthersKept(m, own, m', own', i) && k < |m.inodes| && k != i
    requires Whole(m.blocks, m.inodes[k])
    ensures Whole(m'.blocks, m'.inodes[k]) && Content(m'.blocks, m'.inodes[k]) == Content(m.blocks, m.inodes[k])
  {
    forall t | 0 <= t < SLOTS ensures SlotAddr(m'.blocks, m'.inodes[k], t) == SlotAddr(m.blocks, m.inodes[k], t) {
      OwnedSlot(sb, m.blocks, m.inodes, own, k, NDIRECT);
    }
    forall bn | 0 <= bn && bn * BSIZE < m.inodes[k].size
      ensures DataAddr(m'.blocks, m'.inodes[k], bn) == DataAddr(m.blocks, m.inodes[k], bn) != 0
    {
    }
    forall j | 0 <= j < m.inodes[k].size
      ensures ByteAt(m'.blocks, m'.inodes[k], j) == ByteAt(m.blocks, m.inodes[k], j)
    {
      assert DataAddr(m.blocks, m.inodes[k], j / BSIZE) != 0;
      OwnedSlot(sb, m.blocks, m.inodes, own, k, SlotOf(j / BSIZE));
    }
  }

  /** Slots `lo ..< hi` of inode `i` are cleared, its other slots and everything else kept. */
  ghost predicate Emptied(m: Image, m': Image, i: nat, lo: nat, hi: nat)
    requires i < |m.inodes| == |m'.inodes|
  {
    && m'.inodes[i] == m.inodes[i].(addrs := m'.inodes[i].addrs)
    && forall t {:trigger SlotAddr(m'.blocks, m'.inodes[i], t)} :: 0 <= t < SLOTS ==>
         SlotAddr(m'.blocks, m'.inodes[i], t) == if lo <= t < hi then 0 else SlotAddr(m.blocks, m.inodes[i], t)
  }

  /** What freeing blocks gives to the log: blocks of the bit map, nothing that holds data. */
  ghost predicate OnlyMeta(sb: Super, logs0: seq<nat>, logs: seq<nat>) {
    && (forall x {:trigger x in logs} :: x in logs0 ==> x in logs)
    && (forall x {:trigger x in logs} :: x in logs ==> x in logs0 || sb.bmapStart <= x < sb.Meta())
  }

  /** No data block has changed. */
  ghost predicate DataSame(sb: Super, m: Image, m': Image) {
    |m'.blocks| == |m.blocks| &&
    forall b {:trigger m'.blocks[b]} :: 0 <= b < |m.blocks| && sb.Meta() <= b < sb.size ==> m'.blocks[b] == m.blocks[b]
  }

  /** Some word of the indirect block of inode `i` is in use. */
  ghost predicate HasWords(m: Image, i: nat)
    requires i < |m.inodes|
  {
    exists t :: NDIRECT < t < SLOTS && SlotAddr(m.blocks, m.inodes[i], t) != 0
  }

  lemma EmptiedMore(m: Image, m1: Image, m2: Image, i: nat, lo: nat, s: nat)
    requires i < |m.inodes| == |m1.inodes| == |m2.inodes| && lo <= s < SLOTS
    requires Emptied(m, m1, i, lo, s) && Emptied(m1, m2, i, s, s + 1)
    ensures Emptied(m, m2, i, lo, s + 1)
  {
    forall t | 0 <= t < SLOTS
      ensures SlotAddr(m2.blocks, m2.inodes[i], t) == if lo <= t < s + 1 then 0 else SlotAddr(m.blocks, m.inodes[i], t)
    {
      assert SlotAddr(m1.blocks, m1.inodes[i], t) == if lo <= t < s then 0 else SlotAddr(m.blocks, m.inodes[i], t);
    }
  }
}
