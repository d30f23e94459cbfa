/** How many blocks a write takes, and that the free blocks decide how far it gets
    (kernel/src/fs.rs:148-169, 514-541, 619-649). */
module FsSpace {
  import opened FsLayout
  import opened FsImage
  import opened FsFile
  import opened FsOps
  import opened FsWrite

  /** The blocks from `b` on whose bit is clear. */
  ghost function FreeFrom(sb: Super, blocks: seq<Block>, b: nat): nat
    requires b <= sb.size
    decreases sb.size - b
  {
    if b == sb.size then 0 else One(!Used(sb, blocks, b)) + FreeFrom(sb, blocks, b + 1)
  }

  ghost function Free(sb: Super, m: Image): nat {
    FreeFrom(sb, m.blocks, 0)
  }

  lemma {:induction false} FreeSame(sb: Super, blocks: seq<Block>, blocks': seq<Block>, b: nat)
    requires b <= sb.size && forall c :: b <= c < sb.size ==> (Used(sb, blocks', c) <==> Used(sb, blocks, c))
    ensures FreeFrom(sb, blocks', b) == FreeFrom(sb, blocks, b)
    decreases sb.size - b
  {
    if b < sb.size { FreeSame(sb, blocks, blocks', b + 1); }
  }

  lemma {:induction false} FreeLess(sb: Super, blocks: seq<Block>, blocks': seq<Block>, a: nat, b: nat)
    requires b <= a < sb.size && !Used(sb, blocks, a)
    requires forall c :: b <= c < sb.size ==> (Used(sb, blocks', c) <==> Used(sb, blocks, c) || c == a)
    ensures FreeFrom(sb, blocks', b) + 1 == FreeFrom(sb, blocks, b)
    decreases sb.size - b
  {
    if b < a {
      FreeLess(sb, blocks, blocks', a, b + 1);
    } else {
      FreeSame(sb, blocks, blocks', b + 1);
    }
  }

  /** None is free exactly when the search for one finds none. */
  lemma {:induction false} FreeNone(sb: Super, blocks: seq<Block>, b: nat)
    requires b <= sb.size
    ensures FreeFrom(sb, blocks, b) == 0 <==> FirstFree(sb, blocks, b) == sb.size
    decreases sb.size - b
  {
    if b < sb.size && Used(sb, blocks, b) { FreeNone(sb, blocks, b + 1); }
  }

  // What `bmap` takes.

  /** No slot of inode `i` but `s` has changed. */
  ghost predicate SlotsBut(m: Image, m': Image, i: nat, s: nat)
    requires i < |m.inodes|
  {
    && |m'.inodes| == |m.inodes|
    && forall t {:trigger SlotAddr(m'.blocks, m'.inodes[i], t)} :: 0 <= t < SLOTS && t != s ==>
         SlotAddr(m'.blocks, m'.inodes[i], t) == SlotAddr(m.blocks, m.inodes[i], t)
  }

  /** What allocating for slot `s` comes to, if it is empty. */
  ghost predicate SlotTook(sb: Super, m: Image, i: nat, s: nat, r: Step)
    requires i < |m.inodes| && s < SLOTS
  {
    var t := One(SlotAddr(m.blocks, m.inodes[i], s) == 0);
    && SlotsBut(m, r.m, i, s) && (r.ok <==> Free(sb, m) >= t)
    && (r.ok ==> Free(sb, r.m) + t == Free(sb, m) && SlotAddr(r.m.blocks, r.m.inodes[i], s) != 0)
    && (!r.ok ==> r.m == m)
  }

  lemma AllocSlots(sb: Super, m: Image, own: map<nat, Owner>, i: nat, s: nat, b: nat, m1: Image, m': Image)
    requires Consistent(sb, m.blocks, m.inodes, own) && i < |m.inodes| && s < SLOTS
    requires SlotAddr(m.blocks, m.inodes[i], s) == 0 && (s > NDIRECT ==> m.inodes[i].addrs[NDIRECT] != 0)
    requires s > NDIRECT ==> m.inodes[i].addrs[NDIRECT] < |m.blocks|
    requires b < sb.size && !Used(sb, m.blocks, b)
    requires m1 == m.(blocks := MarkBit(sb, m.blocks, b)[b := ZeroBlock()]) && m' == WriteSlot(m1, i, s, b)
    ensures SlotsBut(m, m', i, s)
  {
    AllocFrame(sb, m, own, b, m1);
    assert CanWrite(m1, i, s, b) by {
      forall t | NDIRECT < t < SLOTS && s == NDIRECT ensures SlotAddr(m1.blocks, m1.inodes[i], t) == 0 {}
    }
    forall t | 0 <= t < SLOTS && t != s
      ensures SlotAddr(m'.blocks, m'.inodes[i], t) == SlotAddr(m.blocks, m.inodes[i], t)
    {
      SlotWritten(sb, m1, own, i, s, b, i, t);
      assert SlotAddr(m1.blocks, m1.inodes[i], t) == SlotAddr(m.blocks, m.inodes[i], t);
    }
  }

  lemma AllocTakes(sb: Super, m: Image, own: map<nat, Owner>, i: nat, s: nat, r: Step) returns (own': map<nat, Owner>)
    requires Consistent(sb, m.blocks, m.inodes, own) && i < |m.inodes| && s < SLOTS
    requires SlotAddr(m.blocks, m.inodes[i], s) == 0 && (s > NDIRECT ==> m.inodes[i].addrs[NDIRECT] != 0)
    requires s > NDIRECT ==> m.inodes[i].addrs[NDIRECT] < |m.blocks|
    requires r == AllocSlot(sb, m, i, s)
    ensures Consistent(sb, r.m.blocks, r.m.inodes, own') && SlotTook(sb, m, i, s, r)
  {
    own' := own;
    FreeNone(sb, m.blocks, 0);
    var r0 := Balloc(sb, m);
    if r0.ok {
      AllocAssigned(sb, m, own, r0.a, i, s, r0.m, r.m);
      AllocSlots(sb, m, own, i, s, r0.a, r0.m, r.m);
      own' := own[r0.a := Owner(i, s)];
      assert own'.Keys == own.Keys + {r0.a};
      FreeLess(sb, m.blocks, r.m.blocks, r0.a, 0);
    }
  }

  lemma PointerTakes(sb: Super, m: Image, own: map<nat, Owner>, i: nat, s: nat, r: Step) returns (own': map<nat, Owner>)
    requires Consistent(sb, m.blocks, m.inodes, own) && i < |m.inodes| && s <= NDIRECT && r == BmapPointer(sb, m, i, s)
    ensures Consistent(sb, r.m.blocks, r.m.inodes, own') && SlotTook(sb, m, i, s, r)
  {
    own' := own;
    if m.inodes[i].addrs[s] == 0 { own' := AllocTakes(sb, m, own, i, s, r); }
  }

  lemma WordTakes(sb: Super, m: Image, own: map<nat, Owner>, i: nat, j: nat, r: Step) returns (own': map<nat, Owner>)
    requires Consistent(sb, m.blocks, m.inodes, own) && i < |m.inodes| && j < NINDIRECT
    requires 0 < m.inodes[i].addrs[NDIRECT] < |m.blocks| && r == BmapWord(sb, m, i, j)
    ensures Consistent(sb, r.m.blocks, r.m.inodes, own') && SlotTook(sb, m, i, NDIRECT + 1 + j, r)
  {
    own' := own;
    if SlotAddr(m.blocks, m.inodes[i], NDIRECT + 1 + j) == 0 {
      own' := AllocTakes(sb, m, own, i, NDIRECT + 1 + j, r);
    }
  }

  ghost predicate NoIndirect(m: Image, i: nat)
    requires i < |m.inodes|
  {
    m.inodes[i].addrs[NDIRECT] == 0
  }

  /** How many blocks it takes to have block `bn` of the file: its own, and the indirect block. */
  ghost function Takes(m: Image, i: nat, bn: nat): nat
    requires i < |m.inodes|
  {
    One(DataAddr(m.blocks, m.inodes[i], bn) == 0) + One(bn >= NDIRECT && NoIndirect(m, i))
  }

  /** `bmap` of block `bn` succeeds exactly when as many blocks are free as it takes; then it takes so
      many, and the other blocks of the file are as before. */
  ghost predicate Took(sb: Super, m: Image, i: nat, bn: nat, ok: bool, m': Image)
    requires i < |m.inodes|
  {
    && |m'.inodes| == |m.inodes| && (ok <==> Free(sb, m) >= Takes(m, i, bn))
    && (ok ==> Free(sb, m') + Takes(m, i, bn) == Free(sb, m))
    && (ok ==> (NoIndirect(m', i) <==> NoIndirect(m, i) && bn < NDIRECT))
    && (ok ==> forall c {:trigger DataAddr(m'.blocks, m'.inodes[i], c)} :: 0 <= c && c != bn ==>
          DataAddr(m'.blocks, m'.inodes[i], c) == DataAddr(m.blocks, m.inodes[i], c))
  }

  lemma DirectTook(sb: Super, m: Image, i: nat, bn: nat, r: Step)
    requires i < |m.inodes| && bn < NDIRECT && SlotTook(sb, m, i, bn, r)
    ensures Took(sb, m, i, bn, r.ok, r.m)
  {
    assert SlotAddr(r.m.blocks, r.m.inodes[i], NDIRECT) == SlotAddr(m.blocks, m.inodes[i], NDIRECT);
    forall c | 0 <= c && c != bn ensures DataAddr(r.m.blocks, r.m.inodes[i], c) == DataAddr(m.blocks, m.inodes[i], c) {
      if c < MAXFILE {
        assert SlotAddr(r.m.blocks, r.m.inodes[i], SlotOf(c)) == SlotAddr(m.blocks, m.inodes[i], SlotOf(c));
      }
    }
  }

  lemma IndirectTook(sb: Super, m: Image, i: nat, j: nat, r1: Step, r2: Step)
    requires i < |m.inodes| && j < NINDIRECT && SlotTook(sb, m, i, NDIRECT, r1) && r1.ok && i < |r1.m.inodes|
    requires SlotTook(sb, r1.m, i, NDIRECT + 1 + j, r2)
    ensures Took(sb, m, i, NDIRECT + j, r2.ok, r2.m)
  {
    assert SlotAddr(r1.m.blocks, r1.m.inodes[i], NDIRECT + 1 + j) == SlotAddr(m.blocks, m.inodes[i], NDIRECT + 1 + j);
    assert SlotAddr(r2.m.blocks, r2.m.inodes[i], NDIRECT) == SlotAddr(r1.m.blocks, r1.m.inodes[i], NDIRECT);
    forall c | 0 <= c && c != NDIRECT + j
      ensures DataAddr(r2.m.blocks, r2.m.inodes[i], c) == DataAddr(m.blocks, m.inodes[i], c)
    {
      if c < MAXFILE {
        assert SlotAddr(r2.m.blocks, r2.m.inodes[i], SlotOf(c)) == SlotAddr(r1.m.blocks, r1.m.inodes[i], SlotOf(c));
        assert SlotAddr(r1.m.blocks, r1.m.inodes[i], SlotOf(c)) == SlotAddr(m.blocks, m.inodes[i], SlotOf(c));
      }
    }
  }

  lemma BmapTakes(sb: Super, m: Image, own: map<nat, Owner>, i: nat, bn: nat, r: Step)
    requires Consistent(sb, m.blocks, m.inodes, own) && i < |m.inodes| && bn < MAXFILE && r == Bmap(sb, m, i, bn)
    ensures Took(sb, m, i, bn, r.ok, r.m)
  {
    if bn < NDIRECT {
      var own' := PointerTakes(sb, m, own, i, bn, r);
      DirectTook(sb, m, i, bn, r);
    } else {
      var r1 := BmapPointer(sb, m, i, NDIRECT);
      BmapFar(sb, m, i, bn, r1);
      FarTakes(sb, m, own, i, bn - NDIRECT, r1, r.ok, r.m);
    }
  }

  lemma BmapFar(sb: Super, m: Image, i: nat, bn: nat, r1: Step)
    requires Fits(sb, m) && i < |m.inodes| && NDIRECT <= bn < MAXFILE && r1 == BmapPointer(sb, m, i, NDIRECT)
    ensures var r := Bmap(sb, m, i, bn);
            if r1.ok then var r2 := BmapWord(sb, r1.m, i, bn - NDIRECT); r.ok == r2.ok && r.m == r2.m else r == r1
  {
  }

  lemma FarTakes(sb: Super, m: Image, own: map<nat, Owner>, i: nat, j: nat, r1: Step, ok: bool, m': Image)
    requires Consistent(sb, m.blocks, m.inodes, own) && i < |m.inodes| && j < NINDIRECT
    requires r1 == BmapPointer(sb, m, i, NDIRECT)
    requires if r1.ok then var r2 := BmapWord(sb, r1.m, i, j); ok == r2.ok && m' == r2.m else !ok && m' == r1.m
    ensures Took(sb, m, i, NDIRECT + j, ok, m')
  {
    var own1 := PointerTakes(sb, m, own, i, NDIRECT, r1);
    if r1.ok {
      OwnedSlot(sb, r1.m.blocks, r1.m.inodes, own1, i, NDIRECT);
      var own2 := WordTakes(sb, r1.m, own1, i, j, BmapWord(sb, r1.m, i, j));
      IndirectTook(sb, m, i, j, r1, BmapWord(sb, r1.m, i, j));
    }
  }

  /** Block `bn` of the file is missing. */
  ghost predicate Hole(m: Image, i: nat, bn: nat)
    requires i < |m.inodes|
  {
    bn < MAXFILE && DataAddr(m.blocks, m.inodes[i], bn) == 0
  }

  ghost predicate HoleIn(m: Image, i: nat, lo: nat, hi: nat)
    requires i < |m.inodes|
  {
    exists bn :: lo <= bn < hi && Hole(m, i, bn)
  }

  /** `bmap` gives a block to the log exactly when it meets a hole and a block is free; otherwise it
      changes nothing. */
  lemma BmapLogs(sb: Super, m: Image, own: map<nat, Owner>, i: nat, bn: nat, r: Step)
    requires Consistent(sb, m.blocks, m.inodes, own) && i < |m.inodes| && r == Bmap(sb, m, i, bn)
    ensures if Hole(m, i, bn) && FirstFree(sb, m.blocks, 0) < sb.size then r.logs != [] else r.m == m && r.logs == []
    ensures !r.ok ==> bn >= MAXFILE || Hole(m, i, bn)
  {
    if NDIRECT <= bn < MAXFILE { OwnedSlot(sb, m.blocks, m.inodes, own, i, NDIRECT); }
  }

  /** So does a round of `writei`. */
  lemma RoundTakes(sb: Super, m: Image, own: map<nat, Owner>, i: nat, off: nat, s: seq<Byte>, r: Step, m': Image)
    requires Consistent(sb, m.blocks, m.inodes, own) && i < |m.inodes| && off % BSIZE + |s| <= BSIZE
    requires off / BSIZE < MAXFILE && r == Bmap(sb, m, i, off / BSIZE) && (r.ok ==> r.a < |r.m.blocks|)
    requires m' == if r.ok then PutBytes(r.m, r.a, off, s) else r.m
    ensures Took(sb, m, i, off / BSIZE, r.ok, m')
  {
    BmapTakes(sb, m, own, i, off / BSIZE, r);
    if r.ok {
      var own', marks := BmapKeeps(sb, m, own, i, off / BSIZE, r);
      PutTook(sb, m, own', i, off, s, r, m');
    }
  }

  lemma PutTook(sb: Super, m: Image, own': map<nat, Owner>, i: nat, off: nat, s: seq<Byte>, r: Step, m': Image)
    requires Consistent(sb, r.m.blocks, r.m.inodes, own') && i < |m.inodes| && off % BSIZE + |s| <= BSIZE && r.ok
    requires Took(sb, m, i, off / BSIZE, true, r.m) && off / BSIZE < MAXFILE
    requires DataAddr(r.m.blocks, r.m.inodes[i], off / BSIZE) == r.a && 0 < r.a < |r.m.blocks|
    requires m' == PutBytes(r.m, r.a, off, s)
    ensures Took(sb, m, i, off / BSIZE, true, m')
  {
    PutBytesMapped(sb, r.m, own', i, r.a, off, s, m');
    DataKeepsMarks(sb, r.m.blocks, own'.Keys, r.a, Splice(r.m.blocks[r.a], off % BSIZE, s));
    FreeSame(sb, r.m.blocks, m'.blocks, 0);
    forall c | 0 <= c && c != off / BSIZE
      ensures DataAddr(m'.blocks, m'.inodes[i], c) == DataAddr(m.blocks, m.inodes[i], c)
    {
      assert DataAddr(m'.blocks, m'.inodes[i], c) == DataAddr(r.m.blocks, r.m.inodes[i], c);
    }
  }

  // Over the loop of `writei`.

  /** The blocks missing among `lo ..< hi` of the file. */
  ghost function Unmapped(m: Image, i: nat, lo: nat, hi: nat): nat
    requires i < |m.inodes|
  {
    if hi <= lo then 0 else Unmapped(m, i, lo, hi - 1) + One(DataAddr(m.blocks, m.inodes[i], hi - 1) == 0)
  }

  /** How many blocks it takes to have blocks `lo ..< hi` of the file: those missing, and the indirect
      block if the range reaches it. */
  ghost function Wanted(m: Image, i: nat, lo: nat, hi: nat): nat
    requires i < |m.inodes|
  {
    Unmapped(m, i, lo, hi) + One(lo < hi && NDIRECT < hi && NoIndirect(m, i))
  }

  lemma {:induction false} WantedGrows(m: Image, i: nat, lo: nat, hi: nat, hi': nat)
    requires i < |m.inodes| && hi <= hi'
    ensures Wanted(m, i, lo, hi) <= Wanted(m, i, lo, hi')
  {
    if hi < hi' { WantedGrows(m, i, lo, hi, hi' - 1); }
  }

  /** Blocks `lo ..< bn` of the file have been written: the blocks that takes are gone, and the rest of
      the file is as it was. */
  ghost predicate Spent(sb: Super, m0: Image, m: Image, i: nat, lo: nat, bn: nat)
    requires i < |m0.inodes|
  {
    && |m.inodes| == |m0.inodes| && lo <= bn && Free(sb, m) + Wanted(m0, i, lo, bn) == Free(sb, m0)
    && (NoIndirect(m, i) <==> NoIndirect(m0, i) && !(lo < bn && NDIRECT < bn))
    && forall c {:trigger DataAddr(m.blocks, m.inodes[i], c)} :: bn <= c ==>
         DataAddr(m.blocks, m.inodes[i], c) == DataAddr(m0.blocks, m0.inodes[i], c)
  }

  /** The next block is written, or there are too few blocks for it. */
  lemma SpentMore(sb: Super, m0: Image, m: Image, i: nat, lo: nat, bn: nat, ok: bool, m': Image)
    requires i < |m0.inodes| && Spent(sb, m0, m, i, lo, bn) && Took(sb, m, i, bn, ok, m')
    ensures ok ==> Spent(sb, m0, m', i, lo, bn + 1)
    ensures !ok ==> Wanted(m0, i, lo, bn) <= Free(sb, m0) < Wanted(m0, i, lo, bn + 1)
  {
    assert Wanted(m0, i, lo, bn + 1) == Wanted(m0, i, lo, bn) + Takes(m, i, bn) by {
      assert Unmapped(m0, i, lo, bn + 1) == Unmapped(m0, i, lo, bn) + One(DataAddr(m0.blocks, m0.inodes[i], bn) == 0);
      assert DataAddr(m.blocks, m.inodes[i], bn) == DataAddr(m0.blocks, m0.inodes[i], bn);
    }
  }

  /** How far the free blocks reach: the end of the blocks of `lo ..< hi` that can be had. */
  ghost function Covered(sb: Super, m: Image, i: nat, lo: nat, hi: nat): (k: nat)
    requires i < |m.inodes| && lo <= hi
    ensures lo <= k <= hi && Wanted(m, i, lo, k) <= Free(sb, m)
    ensures k < hi ==> Free(sb, m) < Wanted(m, i, lo, k + 1)
    decreases hi
  {
    if lo == hi || Wanted(m, i, lo, hi) <= Free(sb, m) then hi else Covered(sb, m, i, lo, hi - 1)
  }

  /** The blocks of a write of `n` bytes at `off` are all there or can be had. */
  ghost predicate Fitting(sb: Super, m: Image, i: nat, off: nat, n: nat)
    requires i < |m.inodes|
  {
    Wanted(m, i, off / BSIZE, off / BSIZE + Touched(off, n)) <= Free(sb, m)
  }

  /** The bytes of a write of `n` bytes at `off` that get written. */
  ghost function Fitted(sb: Super, m: Image, i: nat, off: nat, n: nat): nat
    requires i < |m.inodes|
  {
    var lo := off / BSIZE;
    var k := Covered(sb, m, i, lo, lo + Touched(off, n));
    if k == lo + Touched(off, n) then n else if k == lo then 0 else k * BSIZE - off
  }

  lemma CoveredIs(sb: Super, m: Image, i: nat, lo: nat, hi: nat, k: nat)
    requires i < |m.inodes| && lo <= k < hi && Wanted(m, i, lo, k) <= Free(sb, m) < Wanted(m, i, lo, k + 1)
    ensures Covered(sb, m, i, lo, hi) == k
  {
    var c := Covered(sb, m, i, lo, hi);
    if k < c { WantedGrows(m, i, lo, k + 1, c); }
    if c < k { WantedGrows(m, i, lo, c + 1, k); }
  }

  /** The state of a write of `n` bytes at `off` after `done` of them, if the file can be so long. */
  ghost predicate Paid(sb: Super, m0: Image, m: Image, i: nat, off: nat, n: nat, done: nat)
    requires i < |m0.inodes|
  {
    off + n <= MAXFILE * BSIZE ==> Spent(sb, m0, m, i, off / BSIZE, off / BSIZE + Touched(off, done))
  }

  /** The free blocks end with the block that holds byte `done`. */
  ghost predicate Short(sb: Super, m0: Image, i: nat, off: nat, n: nat, done: nat)
    requires i < |m0.inodes|
  {
    off + n <= MAXFILE * BSIZE ==>
      var k := (off + done) / BSIZE;
      Wanted(m0, i, off / BSIZE, k) <= Free(sb, m0) < Wanted(m0, i, off / BSIZE, k + 1)
  }

  lemma PaidNothing(sb: Super, m: Image, i: nat, off: nat, n: nat)
    requires i < |m.inodes|
    ensures Paid(sb, m, m, i, off, n, 0)
  {
  }

  lemma PaidMore(sb: Super, m0: Image, m: Image, i: nat, off: nat, n: nat, done: nat, k: nat, ok: bool, m': Image)
    requires i < |m0.inodes| == |m.inodes| && done < n && (done == 0 || (off + done) % BSIZE == 0)
    requires k == Room(off + done, n - done) && Paid(sb, m0, m, i, off, n, done)
    requires (off + done) / BSIZE < MAXFILE ==> Took(sb, m, i, (off + done) / BSIZE, ok, m')
    ensures ok ==> Paid(sb, m0, m', i, off, n, done + k)
    ensures !ok ==> Short(sb, m0, i, off, n, done)
  {
    if off + n <= MAXFILE * BSIZE {
      NextBlock(off, done);
      TouchedMore(off, done, k);
      SpentMore(sb, m0, m, i, off / BSIZE, (off + done) / BSIZE, ok, m');
    }
  }

  /** What the loop ends with is what the free blocks allow. */
  lemma PaidIsFitted(sb: Super, m0: Image, m: Image, i: nat, off: nat, n: nat, done: nat)
    requires i < |m0.inodes| && off + n <= MAXFILE * BSIZE && done <= n && (0 < done < n ==> (off + done) % BSIZE == 0)
    requires if done == n then Paid(sb, m0, m, i, off, n, n) else Short(sb, m0, i, off, n, done)
    ensures done == Fitted(sb, m0, i, off, n) && (done == n <==> Fitting(sb, m0, i, off, n))
  {
    if done < n {
      var lo, hi, k := off / BSIZE, off / BSIZE + Touched(off, n), (off + done) / BSIZE;
      NextBlock(off, done);
      TouchedMore(off, done, Room(off + done, n - done));
      TouchedMono(off, done + Room(off + done, n - done), n);
      CoveredIs(sb, m0, i, lo, hi, k);
      WantedGrows(m0, i, lo, k + 1, hi);
    }
  }
}
