/** The file system as blocks and inodes: which block belongs to which file, and what the bit map
    says about it (kernel/src/fs.rs:20-117, 146-182, 512-572). */
module FsImage {
  import opened FsLayout

  datatype Super = Super(size: nat, nblocks: nat, ninodes: nat, nlog: nat, logStart: nat, inodeStart: nat,
                         bmapStart: nat) {
    /** Number of blocks before the data blocks. */
    function Meta(): int { size - nblocks }

    /** `iblock`. */
    function Iblock(inum: nat): nat { inum / IPB + inodeStart }

    /** `bblock`. */
    function Bblock(b: nat): nat { b / BPB + bmapStart }

    /** Log, inodes and bit map follow each other and the bit map covers the device. */
    ghost predicate Valid() {
      && 2 <= logStart && logStart + nlog <= inodeStart
      && inodeStart + ninodes / IPB < bmapStart
      && bmapStart + size / BPB < Meta()
      && Meta() <= size < U64
    }

    ghost predicate Data(b: nat) { Meta() <= b < size }
  }

  /** The inodes lie in order, IPB to a block. */
  lemma InodePlace(sb: Super, inum: nat)
    ensures (sb.Iblock(inum) - sb.inodeStart) * IPB + inum % IPB == inum
  {
  }

  type Addrs = s: seq<nat> | |s| == NDIRECT + 1 witness seq(NDIRECT + 1, i => 0)
  datatype DInode = DInode(typ: nat, major: nat, minor: nat, nlink: nat, size: nat, addrs: Addrs)

  /** Slots of an inode: 0 to 11 direct, 12 the indirect block, 13 on the words of that block. */
  const SLOTS: nat := 525

  function SlotAddr(blocks: seq<Block>, ino: DInode, s: nat): nat
    requires s < SLOTS
  {
    if s <= NDIRECT then ino.addrs[s]
    else if ino.addrs[NDIRECT] == 0 || ino.addrs[NDIRECT] >= |blocks| then 0
    else Word(blocks[ino.addrs[NDIRECT]], s - NDIRECT - 1)
  }

  datatype Owner = Owner(inum: nat, slot: nat)

  /** Names a slot of an inode. */
  ghost predicate Slot(i: int, s: int) { true }

  /** `own` gives for every block in use by a file the one slot that points to it. */
  ghost predicate Mapped(sb: Super, blocks: seq<Block>, inodes: seq<DInode>, own: map<nat, Owner>) {
    && |blocks| == sb.size && |inodes| == sb.ninodes
    && (forall i, s {:trigger Slot(i, s)} :: Slot(i, s) ==> 0 <= i < |inodes| && 0 <= s < SLOTS ==>
          var a := SlotAddr(blocks, inodes[i], s);
          a != 0 ==> sb.Data(a) && a in own && own[a] == Owner(i, s))
    && (forall b {:trigger own[b]} :: b in own ==>
          && sb.Data(b) && own[b].inum < |inodes| && own[b].slot < SLOTS
          && SlotAddr(blocks, inodes[own[b].inum], own[b].slot) == b)
  }

  /** Bit `b` of the bit map. */
  predicate Used(sb: Super, blocks: seq<Block>, b: nat) {
    sb.Bblock(b) < |blocks| && Bit(blocks[sb.Bblock(b)], b % BPB)
  }

  /** The bit map has exactly the metadata blocks and `busy`. */
  ghost predicate Marked(sb: Super, blocks: seq<Block>, busy: set<nat>) {
    forall b {:trigger Used(sb, blocks, b)} {:trigger b in busy} :: 0 <= b < sb.size ==>
      (Used(sb, blocks, b) <==> b < sb.Meta() || b in busy)
  }

  /** Block ownership: a bit is set iff the block is metadata or owned by exactly one slot. */
  ghost predicate Consistent(sb: Super, blocks: seq<Block>, inodes: seq<DInode>, own: map<nat, Owner>) {
    sb.Valid() && Mapped(sb, blocks, inodes, own) && Marked(sb, blocks, own.Keys)
  }

  lemma OwnedSlot(sb: Super, blocks: seq<Block>, inodes: seq<DInode>, own: map<nat, Owner>, i: nat, s: nat)
    requires Mapped(sb, blocks, inodes, own) && i < |inodes| && s < SLOTS
    ensures var a := SlotAddr(blocks, inodes[i], s);
            a != 0 ==> sb.Data(a) && a in own && own[a] == Owner(i, s)
  {
    assert Slot(i, s);
  }

  /** Different slots never point to the same block. */
  lemma OwnersDiffer(sb: Super, blocks: seq<Block>, inodes: seq<DInode>, own: map<nat, Owner>, i: nat, s: nat, k: nat,
                     t: nat)
    requires Mapped(sb, blocks, inodes, own) && i < |inodes| && s < SLOTS && k < |inodes| && t < SLOTS
    requires SlotAddr(blocks, inodes[i], s) == SlotAddr(blocks, inodes[k], t) != 0
    ensures i == k && s == t
  {
    OwnedSlot(sb, blocks, inodes, own, i, s);
    OwnedSlot(sb, blocks, inodes, own, k, t);
  }

  // Changes of the bit map.

  function MarkBit(sb: Super, blocks: seq<Block>, b: nat): (r: seq<Block>)
    requires b < sb.size == |blocks| && sb.Bblock(b) < |blocks| && !Used(sb, blocks, b)
    ensures |r| == |blocks|
  {
    blocks[sb.Bblock(b) := SetBit(blocks[sb.Bblock(b)], b % BPB)]
  }

  function UnmarkBit(sb: Super, blocks: seq<Block>, b: nat): (r: seq<Block>)
    requires b < sb.size == |blocks| && sb.Bblock(b) < |blocks| && Used(sb, blocks, b)
    ensures |r| == |blocks|
  {
    blocks[sb.Bblock(b) := ClearBit(blocks[sb.Bblock(b)], b % BPB)]
  }

  lemma SameBit(sb: Super, a: nat, b: nat)
    ensures sb.Bblock(a) == sb.Bblock(b) && a % BPB == b % BPB ==> a == b
  {
  }

  lemma MarkBitMarks(sb: Super, blocks: seq<Block>, busy: set<nat>, b: nat)
    requires sb.Valid() && Marked(sb, blocks, busy) && b < sb.size == |blocks| && !Used(sb, blocks, b)
    ensures Marked(sb, MarkBit(sb, blocks, b), busy + {b}) && sb.Data(b) && b !in busy
  {
    var blocks' := MarkBit(sb, blocks, b);
    forall c | 0 <= c < sb.size ensures Used(sb, blocks', c) <==> Used(sb, blocks, c) || c == b {
      SameBit(sb, b, c);
      if sb.Bblock(b) == sb.Bblock(c) { SetBitBits(blocks[sb.Bblock(b)], b % BPB, c % BPB); }
    }
  }

  lemma UnmarkBitMarks(sb: Super, blocks: seq<Block>, busy: set<nat>, b: nat)
    requires sb.Valid() && Marked(sb, blocks, busy) && sb.Data(b) && sb.size == |blocks| && Used(sb, blocks, b)
    ensures Marked(sb, UnmarkBit(sb, blocks, b), busy - {b})
  {
    var blocks' := UnmarkBit(sb, blocks, b);
    forall c | 0 <= c < sb.size ensures Used(sb, blocks', c) <==> Used(sb, blocks, c) && c != b {
      SameBit(sb, b, c);
      if sb.Bblock(b) == sb.Bblock(c) { ClearBitBits(blocks[sb.Bblock(b)], b % BPB, c % BPB); }
    }
  }

  /** Data blocks hold no bits. */
  lemma DataKeepsMarks(sb: Super, blocks: seq<Block>, busy: set<nat>, b: nat, block: Block)
    requires sb.Valid() && Marked(sb, blocks, busy) && sb.Data(b) && sb.size == |blocks|
    ensures Marked(sb, blocks[b := block], busy)
  {
    var blocks' := blocks[b := block];
    forall c | 0 <= c < sb.size ensures Used(sb, blocks', c) <==> Used(sb, blocks, c) {
    }
  }

  // Changes of the map of slots.

  /** Blocks that are no inode's indirect block can change. */
  lemma SlotsFrame(sb: Super, blocks: seq<Block>, inodes: seq<DInode>, own: map<nat, Owner>, blocks': seq<Block>)
    requires Mapped(sb, blocks, inodes, own) && |blocks'| == |blocks|
    requires forall b {:trigger blocks'[b]} :: b in own && own[b].slot == NDIRECT ==> blocks'[b] == blocks[b]
    ensures Mapped(sb, blocks', inodes, own)
    ensures forall i, s {:trigger SlotAddr(blocks', inodes[i], s)} :: 0 <= i < |inodes| && 0 <= s < SLOTS ==>
              SlotAddr(blocks', inodes[i], s) == SlotAddr(blocks, inodes[i], s)
  {
    forall i, s | 0 <= i < |inodes| && 0 <= s < SLOTS
      ensures SlotAddr(blocks', inodes[i], s) == SlotAddr(blocks, inodes[i], s)
    {
      OwnedSlot(sb, blocks, inodes, own, i, NDIRECT);
    }
    forall i, s | Slot(i, s) && 0 <= i < |inodes| && 0 <= s < SLOTS
      ensures var a := SlotAddr(blocks', inodes[i], s);
              a != 0 ==> sb.Data(a) && a in own && own[a] == Owner(i, s)
    {
      assert SlotAddr(blocks', inodes[i], s) == SlotAddr(blocks, inodes[i], s);
    }
  }

  datatype Image = Image(blocks: seq<Block>, inodes: seq<DInode>)

  /** Slot `s` of inode `i` is made to point to `a`. */
  function WriteSlot(m: Image, i: nat, s: nat, a: nat): (r: Image)
    requires i < |m.inodes| && s < SLOTS
    requires s > NDIRECT ==> m.inodes[i].addrs[NDIRECT] < |m.blocks|
    ensures |r.blocks| == |m.blocks| && |r.inodes| == |m.inodes|
  {
    var ino := m.inodes[i];
    if s <= NDIRECT then m.(inodes := m.inodes[i := ino.(addrs := ino.addrs[s := a])])
    else
      var ind := ino.addrs[NDIRECT];
      m.(blocks := m.blocks[ind := SetWord(m.blocks[ind], s - NDIRECT - 1, a)])
  }

  /** A slot can be written without disturbing the others: a word needs its indirect block, and the
      indirect pointer changes only while no word is in use. */
  ghost predicate CanWrite(m: Image, i: nat, s: nat, a: nat)
    requires i < |m.inodes| && s < SLOTS
  {
    && (s > NDIRECT ==> m.inodes[i].addrs[NDIRECT] != 0)
    && (s == NDIRECT ==>
          && (a == 0 || (a < |m.blocks| && m.blocks[a] == ZeroBlock()))
          && forall t :: NDIRECT < t < SLOTS ==> SlotAddr(m.blocks, m.inodes[i], t) == 0)
  }

  lemma SlotWritten(sb: Super, m: Image, own: map<nat, Owner>, i: nat, s: nat, a: nat, k: nat, t: nat)
    requires Mapped(sb, m.blocks, m.inodes, own) && sb.Valid() && i < |m.inodes| && s < SLOTS && k < |m.inodes| &&
             t < SLOTS
    requires CanWrite(m, i, s, a) && a < U64
    requires s > NDIRECT ==> m.inodes[i].addrs[NDIRECT] < |m.blocks|
    ensures var m' := WriteSlot(m, i, s, a);
            SlotAddr(m'.blocks, m'.inodes[k], t) == if k == i && t == s then a else SlotAddr(m.blocks, m.inodes[k], t)
  {
    OwnedSlot(sb, m.blocks, m.inodes, own, i, NDIRECT);
    OwnedSlot(sb, m.blocks, m.inodes, own, k, NDIRECT);
    if t > NDIRECT {
      if s == NDIRECT {
        ZeroBlockWords(t - NDIRECT - 1);
      } else if s > NDIRECT && m.inodes[k].addrs[NDIRECT] == m.inodes[i].addrs[NDIRECT] {
        SetWordWords(m.blocks[m.inodes[i].addrs[NDIRECT]], s - NDIRECT - 1, a, t - NDIRECT - 1);
      }
    }
  }

  lemma SlotAssigned(sb: Super, m: Image, own: map<nat, Owner>, i: nat, s: nat, b: nat, m': Image)
    requires sb.Valid() && Mapped(sb, m.blocks, m.inodes, own) && i < |m.inodes| && s < SLOTS
    requires CanWrite(m, i, s, b) && SlotAddr(m.blocks, m.inodes[i], s) == 0
    requires sb.Data(b) && b !in own
    requires s > NDIRECT ==> m.inodes[i].addrs[NDIRECT] < |m.blocks|
    requires m' == WriteSlot(m, i, s, b)
    ensures Mapped(sb, m'.blocks, m'.inodes, own[b := Owner(i, s)])
  {
    var own' := own[b := Owner(i, s)];
    forall k, t | Slot(k, t) && 0 <= k < |m'.inodes| && 0 <= t < SLOTS
      ensures var a := SlotAddr(m'.blocks, m'.inodes[k], t);
              a != 0 ==> sb.Data(a) && a in own' && own'[a] == Owner(k, t)
    {
      SlotWritten(sb, m, own, i, s, b, k, t);
    }
    forall c | c in own'
      ensures sb.Data(c) && own'[c].inum < |m'.inodes| && own'[c].slot < SLOTS
              && SlotAddr(m'.blocks, m'.inodes[own'[c].inum], own'[c].slot) == c
    {
      if c != b { assert own[c] == own'[c]; }
      SlotWritten(sb, m, own, i, s, b, own'[c].inum, own'[c].slot);
    }
  }

  lemma SlotCleared(sb: Super, m: Image, own: map<nat, Owner>, i: nat, s: nat, m': Image)
    requires sb.Valid() && Mapped(sb, m.blocks, m.inodes, own) && i < |m.inodes| && s < SLOTS
    requires CanWrite(m, i, s, 0) && SlotAddr(m.blocks, m.inodes[i], s) != 0
    requires s > NDIRECT ==> m.inodes[i].addrs[NDIRECT] < |m.blocks|
    requires m' == WriteSlot(m, i, s, 0)
    ensures Mapped(sb, m'.blocks, m'.inodes, own - {SlotAddr(m.blocks, m.inodes[i], s)})
  {
    var b := SlotAddr(m.blocks, m.inodes[i], s);
    var own' := own - {b};
    OwnedSlot(sb, m.blocks, m.inodes, own, i, s);
    forall k, t | Slot(k, t) && 0 <= k < |m'.inodes| && 0 <= t < SLOTS
      ensures var a := SlotAddr(m'.blocks, m'.inodes[k], t);
              a != 0 ==> sb.Data(a) && a in own' && own'[a] == Owner(k, t)
    {
      SlotWritten(sb, m, own, i, s, 0, k, t);
    }
    forall c | c in own'
      ensures sb.Data(c) && own'[c].inum < |m'.inodes| && own'[c].slot < SLOTS
              && SlotAddr(m'.blocks, m'.inodes[own'[c].inum], own'[c].slot) == c
    {
      assert own[c] == own'[c];
      SlotWritten(sb, m, own, i, s, 0, own'[c].inum, own'[c].slot);
    }
  }
}
