/** What block mapping and writing give to the log, and what they leave to do for the stored copy of
    the inode (kernel/src/fs.rs:411-419, 514-541, 619-649). */
module FsStored {
  import opened FsLayout
  import opened FsImage
  import opened FsFile
  import opened FsOps
  import opened FsWrite
  import opened FsSpace

  /** Block `bn` of the file needs a pointer in the inode that is not there: its own, or that of the
      indirect block. */
  predicate Unpointed(ino: DInode, bn: nat) {
    bn < MAXFILE && ino.addrs[if bn < NDIRECT then bn else NDIRECT] == 0
  }

  ghost predicate AnyUnpointed(ino: DInode, lo: nat, hi: nat) {
    exists bn :: lo <= bn < hi && Unpointed(ino, bn)
  }

  /** Nothing but pointers of inode `i` changed among the inodes, and none that was set. */
  ghost predicate OneInode(m: Image, m': Image, i: nat)
    requires i < |m.inodes|
  {
    && |m'.inodes| == |m.inodes| && m'.inodes == m.inodes[i := m.inodes[i].(addrs := m'.inodes[i].addrs)]
    && forall s {:trigger m'.inodes[i].addrs[s]} :: 0 <= s <= NDIRECT && m.inodes[i].addrs[s] != 0 ==>
         m'.inodes[i].addrs[s] == m.inodes[i].addrs[s]
  }

  /** The same blocks are marked. */
  ghost predicate SameBits(sb: Super, m: Image, m': Image) {
    forall b {:trigger Used(sb, m'.blocks, b)} :: 0 <= b < sb.size ==>
      (Used(sb, m'.blocks, b) <==> Used(sb, m.blocks, b))
  }

  lemma SameFirstFree(sb: Super, m: Image, m': Image)
    requires SameBits(sb, m, m')
    ensures FirstFree(sb, m'.blocks, 0) == FirstFree(sb, m.blocks, 0)
  {
    FirstFreeIs(sb, m'.blocks, 0, FirstFree(sb, m.blocks, 0));
  }

  /** `bmap` of block `bn`, or a round of `writei` in it: blocks that change are logged; a pointer of
      the inode is set exactly when one is needed and a block is free. */
  ghost predicate Effect(sb: Super, m: Image, i: nat, bn: nat, m': Image, logs: seq<nat>)
    requires i < |m.inodes|
  {
    && ChangesLogged(m, m', logs, 0) && OneInode(m, m', i)
    && (m'.inodes[i].addrs != m.inodes[i].addrs <==> Unpointed(m.inodes[i], bn) && FirstFree(sb, m.blocks, 0) < sb.size)
    && (m'.inodes[i].addrs == m.inodes[i].addrs && (bn < NDIRECT || m.inodes[i].addrs[NDIRECT] == 0) ==>
          SameBits(sb, m, m'))
  }

  lemma FreeIsData(sb: Super, m: Image, own: map<nat, Owner>)
    requires Consistent(sb, m.blocks, m.inodes, own)
    ensures var b := FirstFree(sb, m.blocks, 0); b < sb.size ==> sb.Data(b) && b != 0
  {
    var b := FirstFree(sb, m.blocks, 0);
    if b < sb.size { assert !Used(sb, m.blocks, b); }
  }

  lemma PointerEffect(sb: Super, m: Image, own: map<nat, Owner>, i: nat, s: nat, r: Step)
    requires Consistent(sb, m.blocks, m.inodes, own) && i < |m.inodes| && s <= NDIRECT && r == BmapPointer(sb, m, i, s)
    ensures OneInode(m, r.m, i)
    ensures r.m.inodes[i].addrs != m.inodes[i].addrs <==>
              m.inodes[i].addrs[s] == 0 && FirstFree(sb, m.blocks, 0) < sb.size
    ensures r.m.inodes[i].addrs == m.inodes[i].addrs ==> r.m == m
    ensures r.ok ==> r.m.inodes[i].addrs[s] != 0
    ensures !r.ok ==> r.m == m
  {
    FreeIsData(sb, m, own);
    if m.inodes[i].addrs[s] == 0 {
      var b := FirstFree(sb, m.blocks, 0);
      if b < sb.size {
        assert r.m.inodes[i].addrs == m.inodes[i].addrs[s := b];
        assert r.m.inodes[i].addrs[s] == b;
      }
    }
  }

  /** `bmap`. */
  lemma BmapEffect(sb: Super, m: Image, own: map<nat, Owner>, i: nat, bn: nat, r: Step)
    requires Consistent(sb, m.blocks, m.inodes, own) && i < |m.inodes| && r == Bmap(sb, m, i, bn)
    ensures Effect(sb, m, i, bn, r.m, r.logs)
    ensures !r.ok && bn < NDIRECT ==> Unpointed(m.inodes[i], bn)
  {
    BmapLogged(sb, m, i, bn, r);
    if bn < NDIRECT {
      PointerEffect(sb, m, own, i, bn, r);
    } else if bn < MAXFILE {
      PointerEffect(sb, m, own, i, NDIRECT, BmapPointer(sb, m, i, NDIRECT));
    }
  }

  /** A round of `writei`. */
  lemma RoundEffect(sb: Super, m: Image, own: map<nat, Owner>, i: nat, off: nat, s: seq<Byte>, r: Step, m': Image)
    requires Consistent(sb, m.blocks, m.inodes, own) && i < |m.inodes| && off % BSIZE + |s| <= BSIZE
    requires r == Bmap(sb, m, i, off / BSIZE) && (r.ok ==> r.a < |r.m.blocks|)
    requires m' == if r.ok then PutBytes(r.m, r.a, off, s) else r.m
    ensures Effect(sb, m, i, off / BSIZE, m', if r.ok then r.logs + [r.a] else r.logs)
    ensures !r.ok && off / BSIZE < NDIRECT ==> Unpointed(m.inodes[i], off / BSIZE)
  {
    BmapEffect(sb, m, own, i, off / BSIZE, r);
    if r.ok {
      var own', marks := BmapKeeps(sb, m, own, i, off / BSIZE, r);
      PutLogged(sb, m, own', i, off, s, r, m');
    }
  }

  lemma PutLogged(sb: Super, m: Image, own': map<nat, Owner>, i: nat, off: nat, s: seq<Byte>, r: Step, m': Image)
    requires Consistent(sb, r.m.blocks, r.m.inodes, own') && i < |m.inodes| && off % BSIZE + |s| <= BSIZE && r.ok
    requires Effect(sb, m, i, off / BSIZE, r.m, r.logs) && off / BSIZE < MAXFILE
    requires DataAddr(r.m.blocks, r.m.inodes[i], off / BSIZE) == r.a && 0 < r.a < |r.m.blocks|
    requires m' == PutBytes(r.m, r.a, off, s)
    ensures Effect(sb, m, i, off / BSIZE, m', r.logs + [r.a])
  {
    OwnedSlot(sb, r.m.blocks, r.m.inodes, own', i, SlotOf(off / BSIZE));
    DataKeepsMarks(sb, r.m.blocks, own'.Keys, r.a, Splice(r.m.blocks[r.a], off % BSIZE, s));
    assert SameBits(sb, r.m, m');
    assert ChangesLogged(r.m, m', [r.a], 0);
    ChangesMore(m, r.m, m', r.logs, [r.a]);
  }

  // Over the loop of `writei`.

  /** Blocks `lo ..< hi` of the file have been written, or tried. */
  ghost predicate Stored(sb: Super, m0: Image, m: Image, i: nat, lo: nat, hi: nat)
    requires i < |m0.inodes|
  {
    && OneInode(m0, m, i)
    && (m.inodes[i].addrs != m0.inodes[i].addrs <==>
          AnyUnpointed(m0.inodes[i], lo, hi) && FirstFree(sb, m0.blocks, 0) < sb.size)
    && (m.inodes[i].addrs == m0.inodes[i].addrs && (hi <= NDIRECT || m0.inodes[i].addrs[NDIRECT] == 0) ==>
          SameBits(sb, m0, m))
  }

  lemma StoredNothing(sb: Super, m: Image, i: nat, lo: nat)
    requires i < |m.inodes|
    ensures Stored(sb, m, m, i, lo, lo)
  {
  }

  lemma OneInodeTrans(m: Image, m1: Image, m2: Image, i: nat)
    requires i < |m.inodes| && OneInode(m, m1, i) && OneInode(m1, m2, i)
    ensures OneInode(m, m2, i)
    ensures m1.inodes[i].addrs != m.inodes[i].addrs ==> m2.inodes[i].addrs != m.inodes[i].addrs
  {
    forall s | 0 <= s <= NDIRECT && m.inodes[i].addrs[s] != 0 ensures m2.inodes[i].addrs[s] == m.inodes[i].addrs[s] {
      assert m1.inodes[i].addrs[s] == m.inodes[i].addrs[s];
    }
    if m1.inodes[i].addrs != m.inodes[i].addrs {
      var s :| 0 <= s <= NDIRECT && m1.inodes[i].addrs[s] != m.inodes[i].addrs[s];
      assert m1.inodes[i].addrs[s] != 0;
      assert m2.inodes[i].addrs[s] == m1.inodes[i].addrs[s];
    }
  }

  lemma StoredMore(sb: Super, m0: Image, m: Image, i: nat, lo: nat, bn: nat, m': Image, logs: seq<nat>)
    requires i < |m0.inodes| && lo <= bn && Stored(sb, m0, m, i, lo, bn) && Effect(sb, m, i, bn, m', logs)
    ensures Stored(sb, m0, m', i, lo, bn + 1)
  {
    OneInodeTrans(m0, m, m', i);
    var ino := m0.inodes[i];
    assert AnyUnpointed(ino, lo, bn + 1) <==> AnyUnpointed(ino, lo, bn) || Unpointed(ino, bn);
    if m.inodes[i].addrs == ino.addrs {
      assert m.inodes[i] == ino;
      if Unpointed(ino, bn) {
        assert bn <= NDIRECT || ino.addrs[NDIRECT] == 0;
        SameFirstFree(sb, m0, m);
      }
    }
  }

  /** After the block that failed no pointer of the inode is needed any more, or none could be set. */
  lemma StoredFailed(sb: Super, m0: Image, m: Image, i: nat, lo: nat, bn: nat, hi: nat)
    requires i < |m0.inodes| && lo <= bn < hi && Stored(sb, m0, m, i, lo, bn + 1)
    requires bn < NDIRECT ==> AnyUnpointed(m0.inodes[i], lo, bn + 1)
    ensures Stored(sb, m0, m, i, lo, hi)
  {
    var ino := m0.inodes[i];
    assert forall c :: NDIRECT <= bn < c < hi && Unpointed(ino, c) ==> Unpointed(ino, bn);
  }

  /** All that was changed since `m0` is among what was logged since `logs0`. */
  ghost predicate Since(m0: Image, logs0: seq<nat>, m: Image, logs: seq<nat>) {
    logs0 <= logs && ChangesLogged(m0, m, logs[|logs0| ..], 0)
  }

  /** The first `n` bytes from `off` on have been written, or tried. */
  ghost predicate Tracked(sb: Super, m0: Image, logs0: seq<nat>, m: Image, logs: seq<nat>, i: nat, off: nat, n: nat)
    requires i < |m0.inodes|
  {
    Stored(sb, m0, m, i, off / BSIZE, off / BSIZE + Touched(off, n)) && Since(m0, logs0, m, logs)
  }

  lemma TrackedNothing(sb: Super, m: Image, logs: seq<nat>, i: nat, off: nat)
    requires i < |m.inodes|
    ensures Tracked(sb, m, logs, m, logs, i, off, 0)
  {
    StoredNothing(sb, m, i, off / BSIZE);
  }

  lemma TrackedMore(sb: Super, m0: Image, logs0: seq<nat>, m: Image, logs: seq<nat>, i: nat, off: nat, n: nat, k: nat,
                    m': Image, news: seq<nat>)
    requires i < |m0.inodes| && Tracked(sb, m0, logs0, m, logs, i, off, n) && i < |m.inodes|
    requires (n == 0 || (off + n) % BSIZE == 0) && 0 < k <= BSIZE - (off + n) % BSIZE
    requires Effect(sb, m, i, (off + n) / BSIZE, m', news)
    ensures Tracked(sb, m0, logs0, m', logs + news, i, off, n + k)
  {
    NextBlock(off, n);
    TouchedMore(off, n, k);
    StoredMore(sb, m0, m, i, off / BSIZE, (off + n) / BSIZE, m', news);
    ChangesMore(m0, m, m', logs[|logs0| ..], news);
    assert (logs + news)[|logs0| ..] == logs[|logs0| ..] + news;
  }

  lemma TrackedFailed(sb: Super, m0: Image, logs0: seq<nat>, m: Image, logs: seq<nat>, i: nat, off: nat, n: nat, k: nat,
                      all: nat)
    requires i < |m0.inodes| && Tracked(sb, m0, logs0, m, logs, i, off, n + k) && n + k <= all
    requires (n == 0 || (off + n) % BSIZE == 0) && 0 < k <= BSIZE - (off + n) % BSIZE
    requires (off + n) / BSIZE < NDIRECT ==> AnyUnpointed(m0.inodes[i], off / BSIZE, (off + n) / BSIZE + 1)
    ensures Tracked(sb, m0, logs0, m, logs, i, off, all)
  {
    NextBlock(off, n);
    TouchedMore(off, n, k);
    TouchedMono(off, n + k, all);
    StoredFailed(sb, m0, m, i, off / BSIZE, (off + n) / BSIZE, off / BSIZE + Touched(off, all));
  }

  /** A direct block fails only for want of its pointer, which was not there from the beginning. */
  lemma FailedUnpointed(m0: Image, m: Image, i: nat, lo: nat, bn: nat)
    requires i < |m0.inodes| && OneInode(m0, m, i) && lo <= bn && Unpointed(m.inodes[i], bn)
    ensures AnyUnpointed(m0.inodes[i], lo, bn + 1)
  {
    var s := if bn < NDIRECT then bn else NDIRECT;
    assert m.inodes[i].addrs[s] == 0;
    assert Unpointed(m0.inodes[i], bn);
  }

  /** The state of the loop of `writei`: bytes `s` have been written, blocks for the first `n` bytes
      tried. */
  ghost predicate Wrote(sb: Super, m0: Image, own0: map<nat, Owner>, logs0: seq<nat>, i: nat, off: nat, s: seq<Byte>,
                        n: nat, m: Image, own: map<nat, Owner>, logs: seq<nat>, data: set<nat>, marks: set<nat>)
  {
    && i < |m0.inodes| == |m.inodes| && Written(sb, m0, own0, i, off, s, m, own)
    && Logged(m0, logs0, i, off, n, m, logs, data, marks) && Tracked(sb, m0, logs0, m, logs, i, off, n)
  }

  lemma WroteNothing(sb: Super, m: Image, own: map<nat, Owner>, logs: seq<nat>, i: nat, off: nat)
    requires Consistent(sb, m.blocks, m.inodes, own) && i < |m.inodes|
    ensures Wrote(sb, m, own, logs, i, off, [], 0, m, own, logs, {}, {})
  {
    NothingWritten(sb, m, own, i, off);
    TrackedNothing(sb, m, logs, i, off);
  }

  /** What a round for the next `k` bytes did. */
  ghost predicate Rounded(sb: Super, m: Image, own: map<nat, Owner>, i: nat, off: nat, s: seq<Byte>, ok: bool,
                          m': Image, own': map<nat, Owner>, news: seq<nat>, data: set<nat>, marks: set<nat>)
    requires i < |m.inodes|
  {
    && |m'.inodes| == |m.inodes| && Written(sb, m, own, i, off, if ok then s else [], m', own')
    && RoundLogged(m, i, off / BSIZE, m', news, data, marks) && Effect(sb, m, i, off / BSIZE, m', news)
    && (!ok && off / BSIZE < NDIRECT ==> Unpointed(m.inodes[i], off / BSIZE))
  }

  lemma WroteMore(sb: Super, m0: Image, own0: map<nat, Owner>, logs0: seq<nat>, i: nat, off: nat, src: seq<Byte>,
                  n: nat, m: Image, own: map<nat, Owner>, logs: seq<nat>, data: set<nat>, marks: set<nat>, ok: bool,
                  k: nat, m': Image, own': map<nat, Owner>, news: seq<nat>, data': set<nat>, marks': set<nat>)
    requires n < |src| && (n == 0 || (off + n) % BSIZE == 0) && k == Room(off + n, |src| - n)
    requires Wrote(sb, m0, own0, logs0, i, off, src[.. n], n, m, own, logs, data, marks)
    requires Rounded(sb, m, own, i, off + n, src[n ..][.. k], ok, m', own', news, data', marks')
    ensures ok ==> Wrote(sb, m0, own0, logs0, i, off, src[.. n + k], n + k, m', own', logs + news, data + data',
                         marks + marks')
    ensures !ok ==> Wrote(sb, m0, own0, logs0, i, off, src[.. n], |src|, m', own', logs + news, data + data',
                          marks + marks')
  {
    var done := if ok then k else 0;
    assert src[n ..][.. done] == if ok then src[n ..][.. k] else [];
    RoundsWritten(sb, m0, own0, i, off, src, n, m, own, done, m', own');
    MoreLogged(m0, own0, logs0, i, off, n, m, own, logs, data, marks, k, m', own', news, data', marks');
    TrackedMore(sb, m0, logs0, m, logs, i, off, n, k, m', news);
    if !ok {
      if (off + n) / BSIZE < NDIRECT { FailedUnpointed(m0, m, i, off / BSIZE, (off + n) / BSIZE); }
      TrackedFailed(sb, m0, logs0, m', logs + news, i, off, n, k, |src|);
      LoggedUpTo(m0, logs0, i, off, n + k, m', logs + news, data + data', marks + marks', |src|);
    }
  }

  /** Within a file without holes no pointer is needed. */
  lemma WholePointed(m: Image, i: nat, off: nat, n: nat)
    requires i < |m.inodes| && Whole(m.blocks, m.inodes[i]) && off + n <= m.inodes[i].size
    ensures !AnyUnpointed(m.inodes[i], off / BSIZE, off / BSIZE + Touched(off, n))
  {
    forall bn | off / BSIZE <= bn < off / BSIZE + Touched(off, n) ensures !Unpointed(m.inodes[i], bn) {
      assert bn * BSIZE < m.inodes[i].size;
      assert DataAddr(m.blocks, m.inodes[i], bn) != 0;
    }
  }

  /** A write of `n` bytes at `off` sets a pointer of the inode: some block of it needs one, and a
      block is free. */
  ghost predicate SetsPointer(sb: Super, m: Image, i: nat, off: nat, n: nat)
    requires i < |m.inodes|
  {
    AnyUnpointed(m.inodes[i], off / BSIZE, off / BSIZE + Touched(off, n)) && FirstFree(sb, m.blocks, 0) < sb.size
  }

  /** The inodes and their stored copies after a write: the copy of inode `i` is renewed exactly when
      the size grew. */
  ghost predicate Copied(sb: Super, m0: Image, saved0: seq<DInode>, i: nat, off: nat, n: nat, m: Image,
                         saved: seq<DInode>, grew: bool)
    requires i < |m0.inodes| == |saved0|
  {
    && |m.inodes| == |m0.inodes| && m.inodes == m0.inodes[i := m.inodes[i]]
    && m.inodes[i] == m0.inodes[i].(addrs := m.inodes[i].addrs, size := m.inodes[i].size)
    && (m.inodes[i].addrs != m0.inodes[i].addrs <==> SetsPointer(sb, m0, i, off, n))
    && (m.inodes[i].size != m0.inodes[i].size ==> grew)
    && saved == if grew then saved0[i := m.inodes[i]] else saved0
  }

  /** A write of `n` bytes at `off` ends with the inode stored: its blocks can be had, and it ends
      beyond the file. */
  ghost predicate Stores(sb: Super, m: Image, i: nat, off: nat, n: nat)
    requires i < |m.inodes|
  {
    Fitting(sb, m, i, off, n) && off + n > m.inodes[i].size
  }

  /** The stored copies are up to date exactly when the write ends with the inode stored or sets no
      pointer. */
  lemma CopiedIff(sb: Super, m0: Image, i: nat, off: nat, n: nat, m: Image, saved: seq<DInode>)
    requires i < |m0.inodes| && Copied(sb, m0, m0.inodes, i, off, n, m, saved, Stores(sb, m0, i, off, n))
    ensures saved == m.inodes <==> Stores(sb, m0, i, off, n) || !SetsPointer(sb, m0, i, off, n)
  {
    if !Stores(sb, m0, i, off, n) {
      assert saved[i] == m0.inodes[i];
      if m.inodes[i].addrs == m0.inodes[i].addrs {
        assert m.inodes[i] == m0.inodes[i];
      }
    }
  }

  lemma WroteCopied(sb: Super, m0: Image, own0: map<nat, Owner>, logs0: seq<nat>, i: nat, off: nat, s: seq<Byte>,
                    n: nat, m: Image, own: map<nat, Owner>, logs: seq<nat>, data: set<nat>, marks: set<nat>, size: nat,
                    m': Image, saved0: seq<DInode>, saved: seq<DInode>, grew: bool)
    requires Wrote(sb, m0, own0, logs0, i, off, s, n, m, own, logs, data, marks) && m' == SetSize(m, i, size)
    requires |saved0| == |m0.inodes| && saved == (if grew then saved0[i := m'.inodes[i]] else saved0)
    requires size != m0.inodes[i].size ==> grew
    ensures Copied(sb, m0, saved0, i, off, n, m', saved, grew)
  {
  }

  /** Where the stored copies satisfy block ownership. */
  ghost predicate StoredOwned(sb: Super, blocks: seq<Block>, saved: seq<DInode>) {
    exists own :: Consistent(sb, blocks, saved, own)
  }

  /** They do exactly when they have the pointers of the inodes. Otherwise some block is marked that
      no stored inode points to. */
  lemma StoredOwnedIff(sb: Super, m: Image, own: map<nat, Owner>, saved: seq<DInode>, i: nat)
    requires Consistent(sb, m.blocks, m.inodes, own) && i < |m.inodes| == |saved|
    requires forall k {:trigger saved[k]} :: 0 <= k < |saved| && k != i ==> saved[k].addrs == m.inodes[k].addrs
    requires forall s {:trigger saved[i].addrs[s]} :: 0 <= s <= NDIRECT && saved[i].addrs[s] != 0 ==>
               saved[i].addrs[s] == m.inodes[i].addrs[s]
    ensures StoredOwned(sb, m.blocks, saved) <==> saved[i].addrs == m.inodes[i].addrs
  {
    if saved[i].addrs == m.inodes[i].addrs {
      SameAddrs(sb, m, own, saved);
    } else {
      var s :| 0 <= s <= NDIRECT && saved[i].addrs[s] != m.inodes[i].addrs[s];
      forall own' ensures !Consistent(sb, m.blocks, saved, own') {
        Unowned(sb, m, own, saved, own', i, s);
      }
    }
  }

  lemma SameAddrs(sb: Super, m: Image, own: map<nat, Owner>, saved: seq<DInode>)
    requires Consistent(sb, m.blocks, m.inodes, own) && |saved| == |m.inodes|
    requires forall k {:trigger saved[k]} :: 0 <= k < |saved| ==> saved[k].addrs == m.inodes[k].addrs
    ensures Consistent(sb, m.blocks, saved, own)
  {
    forall k, t | 0 <= k < |saved| && 0 <= t < SLOTS
      ensures SlotAddr(m.blocks, saved[k], t) == SlotAddr(m.blocks, m.inodes[k], t)
    {
      assert saved[k].addrs == m.inodes[k].addrs;
    }
  }

  /** A pointer that is not stored leaves its block marked without an owner. */
  lemma Unowned(sb: Super, m: Image, own: map<nat, Owner>, saved: seq<DInode>, own': map<nat, Owner>, i: nat, s: nat)
    requires Consistent(sb, m.blocks, m.inodes, own) && i < |m.inodes| == |saved|
    requires forall k {:trigger saved[k]} :: 0 <= k < |saved| && k != i ==> saved[k].addrs == m.inodes[k].addrs
    requires forall t {:trigger saved[i].addrs[t]} :: 0 <= t <= NDIRECT && saved[i].addrs[t] != 0 ==>
               saved[i].addrs[t] == m.inodes[i].addrs[t]
    requires s <= NDIRECT && saved[i].addrs[s] != m.inodes[i].addrs[s]
    ensures !Consistent(sb, m.blocks, saved, own')
    ensures var b := m.inodes[i].addrs[s]; Used(sb, m.blocks, b) && sb.Data(b)
    ensures forall k, t :: 0 <= k < |saved| && 0 <= t < SLOTS ==>
              SlotAddr(m.blocks, saved[k], t) != m.inodes[i].addrs[s]
  {
    var b := m.inodes[i].addrs[s];
    assert saved[i].addrs[s] == 0;
    OwnedSlot(sb, m.blocks, m.inodes, own, i, s);
    assert Used(sb, m.blocks, b);
    forall k, t | 0 <= k < |saved| && 0 <= t < SLOTS ensures SlotAddr(m.blocks, saved[k], t) != b {
      if SlotAddr(m.blocks, m.inodes[k], t) == b { OwnersDiffer(sb, m.blocks, m.inodes, own, i, s, k, t); }
      if k != i { assert saved[k].addrs == m.inodes[k].addrs; }
    }
  }
}
