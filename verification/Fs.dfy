/** The operations on files as the kernel performs them: allocation, block mapping, truncation and
    byte-range access (kernel/src/fs.rs:146-182, 411-420, 512-649). Blocks are seen through
    the buffer cache and the log. */
module Fs {
  import opened FsLayout
  import opened FsImage
  import opened FsFile
  import opened FsOps
  import opened FsWrite
  import opened FsSpace
  import opened FsStored

  datatype IoResult = Count(n: nat) | BeyondEnd | Wraps | TooBig | NoSpace

  /** `c'` is `c` with the bytes of `src` from `off` on, and none lost. */
  ghost predicate Replaced(c: seq<Byte>, off: nat, src: seq<Byte>, c': seq<Byte>) {
    && |c'| >= |c| && off + |src| <= |c'|
    && (forall k {:trigger src[k]} :: 0 <= k < |src| ==> c'[off + k] == src[k])
    && (forall k {:trigger c[k]} :: 0 <= k < |c| && !(off <= k < off + |src|) ==> c'[k] == c[k])
  }

  lemma WrittenReplaced(m: Image, m': Image, i: nat, off: nat, src: seq<Byte>)
    requires i < |m.inodes| && off <= m.inodes[i].size && FileWritten(m, m', i, off, src)
    requires Whole(m.blocks, m.inodes[i]) && (src == [] ==> m'.inodes[i].size == m.inodes[i].size)
    requires src != [] ==> m'.inodes[i].size == Larger(m.inodes[i].size, off + |src|)
    ensures Replaced(Content(m.blocks, m.inodes[i]), off, src, Content(m'.blocks, m'.inodes[i]))
  {
    var c, c' := Content(m.blocks, m.inodes[i]), Content(m'.blocks, m'.inodes[i]);
    assert c' == Overwrite(c, off, src)[.. |c'|];
  }

  lemma WriteEnds(sb: Super, m0: Image, saved0: seq<DInode>, i: nat, off: nat, src: seq<Byte>, n: nat, m: Image,
                  saved: seq<DInode>)
    requires i < |m0.inodes| == |m.inodes| == |saved0| && off <= m0.inodes[i].size && n <= |src|
    requires FileWritten(m0, m, i, off, src[.. n]) && (n == |src| <==> Fitting(sb, m0, i, off, |src|))
    requires Copied(sb, m0, saved0, i, off, |src|, m, saved, Stores(sb, m0, i, off, |src|))
    requires m.inodes[i].size == if 0 < n == |src| then Larger(m0.inodes[i].size, off + n) else m0.inodes[i].size
    ensures n == |src| && Whole(m0.blocks, m0.inodes[i]) ==>
              Replaced(Content(m0.blocks, m0.inodes[i]), off, src, Content(m.blocks, m.inodes[i]))
    ensures saved0 == m0.inodes ==>
              (saved == m.inodes <==> Stores(sb, m0, i, off, |src|) || !SetsPointer(sb, m0, i, off, |src|))
    ensures |saved| == |saved0|
    ensures n == |src| && Whole(m0.blocks, m0.inodes[i]) && saved0[i] == m0.inodes[i] ==> saved[i] == m.inodes[i]
  {
    if n == |src| && Whole(m0.blocks, m0.inodes[i]) {
      assert src[.. n] == src;
      WrittenReplaced(m0, m, i, off, src);
    }
    if saved0 == m0.inodes { CopiedIff(sb, m0, i, off, |src|, m, saved); }
    if Whole(m0.blocks, m0.inodes[i]) && off + |src| <= m0.inodes[i].size { WholePointed(m0, i, off, |src|); }
  }

  lemma Appends(logs: seq<nat>, a: seq<nat>, logs': seq<nat>)
    ensures forall b :: logs' == logs + a + b ==> logs' == logs + (a + b)
  {
  }

  /** `copy_slice` into the middle of `dst`. */
  method CopyOut(dst: array<Byte>, at: nat, n: nat, block: Block, boff: nat)
    requires at + n <= dst.Length && boff + n <= BSIZE
    modifies dst
    ensures forall k :: 0 <= k < dst.Length ==>
              dst[k] == if at <= k < at + n then block[boff + (k - at)] else old(dst[k])
  {
    forall k | at <= k < at + n { dst[k] := block[boff + (k - at)]; }
  }

  lemma SuffixMore(logs0: seq<nat>, logs1: seq<nat>, b: nat)
    requires |logs0| <= |logs1|
    ensures (logs1 + [b])[|logs0| ..] == logs1[|logs0| ..] + [b]
  {
  }

  class Volume {
    const sb: Super
    var blocks: seq<Block>
    var inodes: seq<DInode>
    /** The inodes as last copied to their blocks. */
    var saved: seq<DInode>
    ghost var own: map<nat, Owner>
    /** Blocks given to the log since the operation began, in order. */
    var logs: seq<nat>

    ghost predicate Valid()
      reads this
    {
      Consistent(sb, blocks, inodes, own) && |saved| == |inodes|
    }

    ghost function Img(): Image
      reads this
    {
      Image(blocks, inodes)
    }

    /** A consistent image as it is found on disk. */
    constructor (sb: Super, m: Image, ghost own: map<nat, Owner>)
      requires Consistent(sb, m.blocks, m.inodes, own)
      ensures Valid() && Img() == m && this.sb == sb && saved == m.inodes && logs == []
    {
      this.sb, blocks, inodes, saved := sb, m.blocks, m.inodes, m.inodes;
      this.own, logs := own, [];
    }

    /** `balloc`: the first free block, marked and zeroed; fails exactly when none is free. */
    method Balloc() returns (ok: bool, b: nat)
      requires Fits(sb, Img())
      modifies this`blocks, this`logs
      ensures var r := FsOps.Balloc(sb, old(Img()));
              ok == r.ok && b == r.a && Img() == r.m && logs == old(logs) + r.logs
      ensures if ok then
                && b < sb.size == |blocks| && !Used(sb, old(blocks), b) && blocks[b] == ZeroBlock()
                && (forall c :: 0 <= c < b ==> Used(sb, old(blocks), c))
                && (forall c :: 0 <= c < |blocks| && c != b && c != sb.Bblock(b) ==> blocks[c] == old(blocks)[c])
              else blocks == old(blocks) && forall c :: 0 <= c < sb.size ==> Used(sb, blocks, c)
    {
      var base := 0;
      while base < sb.size
        invariant base % BPB == 0 && blocks == old(blocks) && logs == old(logs)
        invariant forall c :: 0 <= c < base && c < sb.size ==> Used(sb, blocks, c)
        decreases sb.size - base
      {
        var bi := 0;
        while bi < BPB && base + bi < sb.size
          invariant bi <= BPB && base + bi <= sb.size && blocks == old(blocks) && logs == old(logs)
          invariant forall c :: 0 <= c < base + bi ==> Used(sb, blocks, c)
        {
          b := base + bi;
          assert sb.Bblock(b) == sb.Bblock(base) && b % BPB == bi;
          if !Bit(blocks[sb.Bblock(base)], bi) {
            BallocFound(sb, Img(), b);
            blocks := blocks[sb.Bblock(base) := SetBit(blocks[sb.Bblock(base)], bi)];
            blocks := blocks[b := ZeroBlock()];
            logs := logs + [sb.Bblock(b), b];
            return true, b;
          }
          bi := bi + 1;
        }
        base := base + BPB;
      }
      FirstFreeIs(sb, blocks, 0, sb.size);
      ok, b := false, 0;
    }

    /** `bfree`; that the bit is set is what the code asserts. */
    method Bfree(b: nat)
      requires Fits(sb, Img()) && b < sb.size && Used(sb, blocks, b)
      modifies this`blocks, this`logs
      ensures blocks == UnmarkBit(sb, old(blocks), b) && logs == old(logs) + [sb.Bblock(b)]
    {
      blocks := blocks[sb.Bblock(b) := ClearBit(blocks[sb.Bblock(b)], b % BPB)];
      logs := logs + [sb.Bblock(b)];
    }

    method BmapPointer(i: nat, s: nat) returns (ok: bool, a: nat)
      requires Fits(sb, Img()) && i < |inodes| && s <= NDIRECT
      modifies this`blocks, this`inodes, this`logs
      ensures var r := FsOps.BmapPointer(sb, old(Img()), i, s);
              ok == r.ok && Img() == r.m && logs == old(logs) + r.logs && a == r.a
    {
      if inodes[i].addrs[s] == 0 {
        ok, a := Balloc();
        if !ok { return; }
        inodes := inodes[i := inodes[i].(addrs := inodes[i].addrs[s := a])];
      }
      ok, a := true, inodes[i].addrs[s];
    }

    method BmapWord(i: nat, j: nat) returns (ok: bool, a: nat)
      requires Fits(sb, Img()) && i < |inodes| && j < NINDIRECT
      modifies this`blocks, this`logs
      ensures var r := FsOps.BmapWord(sb, old(Img()), i, j);
              ok == r.ok && Img() == r.m && logs == old(logs) + r.logs && a == r.a
    {
      var ind := inodes[i].addrs[NDIRECT];
      if ind >= |blocks| { return false, 0; }
      a := Word(blocks[ind], j);
      if a == 0 {
        ok, a := Balloc();
        if !ok { return; }
        blocks := blocks[ind := SetWord(blocks[ind], j, a)];
        logs := logs + [ind];
      }
      ok := true;
    }

    /** `bmap`. */
    method Bmap(i: nat, bn: nat) returns (ok: bool, a: nat)
      requires Fits(sb, Img()) && i < |inodes|
      modifies this`blocks, this`inodes, this`logs
      ensures var r := FsOps.Bmap(sb, old(Img()), i, bn);
              ok == r.ok && Img() == r.m && logs == old(logs) + r.logs && a == r.a
    {
      if bn < NDIRECT {
        ok, a := BmapPointer(i, bn);
      } else if bn - NDIRECT < NINDIRECT {
        ok, a := BmapPointer(i, NDIRECT);
        if !ok { return; }
        ok, a := BmapWord(i, bn - NDIRECT);
        Appends(old(logs), FsOps.BmapPointer(sb, old(Img()), i, NDIRECT).logs, logs);
      } else {
        ok, a := false, 0;
      }
    }

    /** `update`. */
    method Update(i: nat)
      requires i < |inodes| == |saved|
      modifies this`saved, this`logs
      ensures saved == old(saved)[i := inodes[i]] && logs == old(logs) + [sb.Iblock(i)]
    {
      saved := saved[i := inodes[i]];
      logs := logs + [sb.Iblock(i)];
    }

    /** One round of the loop of `writei`. */
    method WriteRound(i: nat, off: nat, s: seq<Byte>, ghost own0: map<nat, Owner>)
      returns (ok: bool, ghost own1: map<nat, Owner>, ghost data: set<nat>, ghost marks: set<nat>, ghost news: seq<nat>)
      requires Consistent(sb, blocks, inodes, own0) && i < |inodes| && off % BSIZE + |s| <= BSIZE
      modifies this`blocks, this`inodes, this`logs
      ensures logs == old(logs) + news && Rounded(sb, old(Img()), own0, i, off, s, ok, Img(), own1, news, data, marks)
      ensures !ok ==> off / BSIZE >= MAXFILE || FirstFree(sb, blocks, 0) == sb.size
      ensures off / BSIZE < MAXFILE ==> Took(sb, old(Img()), i, off / BSIZE, ok, Img())
    {
      ghost var m, r := Img(), FsOps.Bmap(sb, Img(), i, off / BSIZE);
      BmapInRange(sb, m, own0, i, off / BSIZE);
      ghost var m' := if r.ok then PutBytes(r.m, r.a, off, s) else r.m;
      own1, data, marks := RoundKeeps(sb, m, own0, i, off, s, r, m');
      RoundEffect(sb, m, own0, i, off, s, r, m');
      if off / BSIZE < MAXFILE { RoundTakes(sb, m, own0, i, off, s, r, m'); }
      var a;
      ok, a := Bmap(i, off / BSIZE);
      news := r.logs;
      if ok {
        blocks := blocks[a := Splice(blocks[a], off % BSIZE, s)];
        logs := logs + [a];
        news := r.logs + [a];
      }
      assert Img() == m';
    }

    /** A round that continues a write of `src` at `off` after `done` bytes. */
    method Continue(i: nat, off: nat, src: seq<Byte>, done: nat, ghost m0: Image, ghost own0: map<nat, Owner>,
                    ghost logs0: seq<nat>, ghost own1: map<nat, Owner>, ghost data: set<nat>, ghost marks: set<nat>)
      returns (ok: bool, k: nat, ghost own2: map<nat, Owner>, ghost data': set<nat>, ghost marks': set<nat>)
      requires done < |src| && (0 < done ==> (off + done) % BSIZE == 0)
      requires Wrote(sb, m0, own0, logs0, i, off, src[.. done], done, Img(), own1, logs, data, marks)
      modifies this`blocks, this`inodes, this`logs
      ensures k == Room(off + done, |src| - done)
      ensures ok ==> Wrote(sb, m0, own0, logs0, i, off, src[.. done + k], done + k, Img(), own2, logs, data', marks')
      ensures !ok ==> Wrote(sb, m0, own0, logs0, i, off, src[.. done], |src|, Img(), own2, logs, data', marks')
      ensures !ok ==> (off + done) / BSIZE >= MAXFILE || FirstFree(sb, blocks, 0) == sb.size
      ensures (off + done) / BSIZE < MAXFILE ==> Took(sb, old(Img()), i, (off + done) / BSIZE, ok, Img())
    {
      k := Room(off + done, |src| - done);
      ghost var m1, logs1, news := Img(), logs, [];
      ok, own2, data', marks', news := WriteRound(i, off + done, src[done ..][.. k], own1);
      WroteMore(sb, m0, own0, logs0, i, off, src, done, m1, own1, logs1, data, marks, ok, k, Img(), own2, news, data',
                marks');
      data', marks' := data + data', marks + marks';
    }

    /** The same, with the free blocks it used up. */
    method ContinuePaid(i: nat, off: nat, src: seq<Byte>, done: nat, ghost m0: Image, ghost own0: map<nat, Owner>,
                        ghost logs0: seq<nat>, ghost own1: map<nat, Owner>, ghost data: set<nat>, ghost marks: set<nat>)
      returns (ok: bool, next: nat, ghost own2: map<nat, Owner>, ghost data': set<nat>, ghost marks': set<nat>)
      requires done < |src| && (0 < done ==> (off + done) % BSIZE == 0)
      requires Wrote(sb, m0, own0, logs0, i, off, src[.. done], done, Img(), own1, logs, data, marks)
      requires Paid(sb, m0, Img(), i, off, |src|, done)
      modifies this`blocks, this`inodes, this`logs
      ensures if ok then done < next <= |src| && (next < |src| ==> (off + next) % BSIZE == 0) else next == done
      ensures Wrote(sb, m0, own0, logs0, i, off, src[.. next], if ok then next else |src|, Img(), own2, logs, data',
                    marks')
      ensures if ok then Paid(sb, m0, Img(), i, off, |src|, next) else Short(sb, m0, i, off, |src|, next)
      ensures !ok ==> (off + next) / BSIZE >= MAXFILE || FirstFree(sb, blocks, 0) == sb.size
    {
      var k;
      ghost var m1 := Img();
      ok, k, own2, data', marks' := Continue(i, off, src, done, m0, own0, logs0, own1, data, marks);
      PaidMore(sb, m0, m1, i, off, |src|, done, k, ok, Img());
      next := if ok then done + k else done;
    }

    /** The loop of `writei`, to its end or to the round that fails. */
    method WriteRounds(i: nat, off: nat, src: seq<Byte>, ghost m0: Image, ghost own0: map<nat, Owner>,
                       ghost logs0: seq<nat>)
      returns (ok: bool, done: nat, ghost own1: map<nat, Owner>, ghost data: set<nat>, ghost marks: set<nat>)
      requires Wrote(sb, m0, own0, logs0, i, off, src[.. 0], 0, Img(), own0, logs, {}, {})
      requires Paid(sb, m0, Img(), i, off, |src|, 0)
      modifies this`blocks, this`inodes, this`logs
      ensures done <= |src| && (ok <==> done == |src|) && (0 < done < |src| ==> (off + done) % BSIZE == 0)
      ensures Wrote(sb, m0, own0, logs0, i, off, src[.. done], |src|, Img(), own1, logs, data, marks)
      ensures if ok then Paid(sb, m0, Img(), i, off, |src|, |src|) else Short(sb, m0, i, off, |src|, done)
      ensures !ok ==> (off + done) / BSIZE >= MAXFILE || FirstFree(sb, blocks, 0) == sb.size
    {
      ok, done, own1, data, marks := true, 0, own0, {}, {};
      while done < |src|
        invariant done <= |src| && (0 < done < |src| ==> (off + done) % BSIZE == 0)
        invariant Wrote(sb, m0, own0, logs0, i, off, src[.. done], done, Img(), own1, logs, data, marks)
        invariant ok && Paid(sb, m0, Img(), i, off, |src|, done)
      {
        ok, done, own1, data, marks := ContinuePaid(i, off, src, done, m0, own0, logs0, own1, data, marks);
        if !ok { return; }
      }
    }

    /** The loop of `writei`, and how far the free blocks let it get. */
    method WriteBytes(i: nat, off: nat, src: seq<Byte>, ghost own0: map<nat, Owner>)
      returns (ok: bool, done: nat, ghost own1: map<nat, Owner>, ghost data: set<nat>, ghost marks: set<nat>)
      requires Consistent(sb, blocks, inodes, own0) && i < |inodes|
      modifies this`blocks, this`inodes, this`logs
      ensures done <= |src| && (ok <==> done == |src|)
      ensures Wrote(sb, old(Img()), own0, old(logs), i, off, src[.. done], |src|, Img(), own1, logs, data, marks)
      ensures !ok ==> (off + done) / BSIZE >= MAXFILE || FirstFree(sb, blocks, 0) == sb.size
      ensures off + |src| <= MAXFILE * BSIZE ==>
                done == Fitted(sb, old(Img()), i, off, |src|) && (ok <==> Fitting(sb, old(Img()), i, off, |src|))
    {
      ghost var m0 := Img();
      WroteNothing(sb, m0, own0, logs, i, off);
      PaidNothing(sb, m0, i, off, |src|);
      assert src[.. 0] == [];
      ok, done, own1, data, marks := WriteRounds(i, off, src, m0, own0, logs);
      if off + |src| <= MAXFILE * BSIZE { PaidIsFitted(sb, m0, Img(), i, off, |src|, done); }
    }

    /** The end of `writei`: the size and, when it grew, the copy of the inode. */
    method Grow(i: nat, end: nat)
      requires i < |inodes| == |saved|
      modifies this`inodes, this`saved, this`logs
      ensures |inodes| == old(|inodes|) && Img() == SetSize(old(Img()), i, Larger(old(inodes[i].size), end))
      ensures end <= old(inodes[i].size) ==> saved == old(saved) && logs == old(logs)
      ensures end > old(inodes[i].size) ==> saved == old(saved)[i := inodes[i]] && logs == old(logs) + [sb.Iblock(i)]
    {
      if end > inodes[i].size {
        inodes := inodes[i := inodes[i].(size := end)];
        Update(i);
      }
    }

    /** `writei` once the range is known to be good. */
    method WriteRange(i: nat, src: seq<Byte>, off: nat) returns (done: nat, ghost data: set<nat>, ghost marks: set<nat>)
      requires Valid() && i < |inodes| && off <= inodes[i].size && off + |src| <= MAXFILE * BSIZE
      modifies this
      ensures Valid() && |inodes| == old(|inodes|) && done <= |src|
      ensures inodes[i].size == if 0 < done == |src| then Larger(old(inodes[i].size), off + done)
              else old(inodes[i].size)
      ensures done < |src| ==> FirstFree(sb, blocks, 0) == sb.size
      ensures done == Fitted(sb, old(Img()), i, off, |src|)
      ensures done == |src| <==> Fitting(sb, old(Img()), i, off, |src|)
      ensures OthersSame(old(Img()), Img(), i) && FileWritten(old(Img()), Img(), i, off, src[.. done])
      ensures Copied(sb, old(Img()), old(saved), i, off, |src|, Img(), saved, Stores(sb, old(Img()), i, off, |src|))
      ensures Since(old(Img()), old(logs), Img(), logs) &&
              (saved != old(saved) ==> sb.Iblock(i) in logs[|old(logs)| ..])
      ensures |data| <= Touched(off, |src|) && FewMarks(old(Img()), Img(), i, off, |src|, marks)
      ensures LogsIn(old(logs) + [sb.Iblock(i)], logs, data, marks, inodes[i].addrs[NDIRECT])
    {
      var size := inodes[i].size;
      ghost var m0, own0, logs0, own1 := Img(), own, logs, own;
      var ok;
      ok, done, own1, data, marks := WriteBytes(i, off, src, own);
      ghost var m1, logs1 := Img(), logs;
      assert m1.inodes[i].size == size;
      ghost var size' := if ok && done > 0 then Larger(size, off + done) else size;
      ghost var m2 := SetSize(m1, i, size');
      WriteFinished(sb, m0, own, i, off, src[.. done], m1, own1, size', m2);
      own := own1;
      if ok && done > 0 { Grow(i, off + done); }
      assert Img() == m2;
      WroteCopied(sb, m0, own0, logs0, i, off, src[.. done], |src|, m1, own1, logs1, data, marks, size', m2, old(saved),
                  saved, Stores(sb, m0, i, off, |src|));
      if logs != logs1 { SuffixMore(logs0, logs1, sb.Iblock(i)); }
    }

    /** `writei`: the contents of the file become those with `src` written at `off`, and no other
        file changes. When no block is left a prefix is written and the size stays. Every block that
        changed was given to the log. The stored copy of the inode is renewed exactly when the size
        grew. */
    method Writei(i: nat, src: seq<Byte>, off: nat)
      returns (res: IoResult, ghost done: nat, ghost data: set<nat>, ghost marks: set<nat>)
      requires Valid() && i < |inodes| && off < U64 && |src| < U64
      modifies this
      ensures Valid() && |inodes| == old(|inodes|) && done <= |src|
      ensures res.BeyondEnd? <==> off > old(inodes[i].size)
      ensures res.Wraps? <==> off <= old(inodes[i].size) && off + |src| >= U64
      ensures res.TooBig? <==> off <= old(inodes[i].size) && MAXFILE * BSIZE < off + |src| < U64
      ensures !res.Count? && !res.NoSpace? ==>
                done == 0 && Img() == old(Img()) && saved == old(saved) && logs == old(logs)
      ensures res.NoSpace? <==>
                && off <= old(inodes[i].size) && off + |src| <= MAXFILE * BSIZE
                && !Fitting(sb, old(Img()), i, off, |src|)
      ensures res.Count? ==> res.n == done == |src|
      ensures res.NoSpace? ==> done < |src| && FirstFree(sb, blocks, 0) == sb.size
      ensures res.Count? || res.NoSpace? ==> done == Fitted(sb, old(Img()), i, off, |src|)
      ensures res.Count? || res.NoSpace? ==>
                inodes[i].size == if res.Count? && src != [] then Larger(old(inodes[i].size), off + done)
                else old(inodes[i].size)
      ensures res.Count? || res.NoSpace? ==>
                OthersSame(old(Img()), Img(), i) && FileWritten(old(Img()), Img(), i, off, src[.. done])
      ensures res.Count? && old(Whole(blocks, inodes[i])) ==>
                Replaced(old(Content(blocks, inodes[i])), off, src, Content(blocks, inodes[i]))
      ensures res.Count? || res.NoSpace? ==>
                Copied(sb, old(Img()), old(saved), i, off, |src|, Img(), saved, Stores(sb, old(Img()), i, off, |src|))
      ensures (res.Count? || res.NoSpace?) && old(saved) == old(inodes) ==>
                (saved == inodes <==>
                   Stores(sb, old(Img()), i, off, |src|) || !SetsPointer(sb, old(Img()), i, off, |src|))
      ensures res.Count? && old(Whole(blocks, inodes[i])) && old(saved[i]) == old(inodes[i]) ==> saved[i] == inodes[i]
      ensures Since(old(Img()), old(logs), Img(), logs) &&
              (saved != old(saved) ==> sb.Iblock(i) in logs[|old(logs)| ..])
      ensures |data| <= Touched(off, |src|) && FewMarks(old(Img()), Img(), i, off, |src|, marks)
      ensures LogsIn(old(logs) + [sb.Iblock(i)], logs, data, marks, inodes[i].addrs[NDIRECT])
    {
      if off > inodes[i].size { return BeyondEnd, 0, {}, {}; }
      if (off + |src|) % U64 < off { return Wraps, 0, {}, {}; }
      if off + |src| > MAXFILE * BSIZE { return TooBig, 0, {}, {}; }
      var n;
      n, data, marks := WriteRange(i, src, off);
      done := n;
      res := if n == |src| then Count(|src|) else NoSpace;
      WriteEnds(sb, old(Img()), old(saved), i, off, src, n, Img(), saved);
    }

    // Truncation.

    /** `bfree(*slot); *slot = 0`. The block's bit is set, so the assertion in `bfree` holds. */
    method FreeSlot(i: nat, s: nat, ghost own0: map<nat, Owner>) returns (ghost own1: map<nat, Owner>)
      requires Consistent(sb, blocks, inodes, own0) && i < |inodes| && s < SLOTS && CanWrite(Img(), i, s, 0)
      requires SlotAddr(blocks, inodes[i], s) != 0
      modifies this`blocks, this`inodes, this`logs
      ensures Consistent(sb, blocks, inodes, own1) && OthersKept(old(Img()), own0, Img(), own1, i)
      ensures Emptied(old(Img()), Img(), i, s, s + 1)
      ensures OnlyMeta(sb, old(logs), logs)
      ensures s <= NDIRECT ==> DataSame(sb, old(Img()), Img())
      ensures ChangesLogged(old(Img()), Img(), logs, if s > NDIRECT then inodes[i].addrs[NDIRECT] else 0)
    {
      own1 := FreeSlotKeeps(sb, Img(), own0, i, s);
      ghost var m' := FsOps.FreeSlot(sb, Img(), i, s);
      var a := SlotAddr(blocks, inodes[i], s);
      Bfree(a);
      if s <= NDIRECT {
        inodes := inodes[i := inodes[i].(addrs := inodes[i].addrs[s := 0])];
      } else {
        var ind := inodes[i].addrs[NDIRECT];
        blocks := blocks[ind := SetWord(blocks[ind], s - NDIRECT - 1, 0)];
      }
      assert Img() == m';
    }

    /** Frees the blocks of slots `lo ..< hi`: the loops of `trunc1`. */
    method FreeSlots(i: nat, lo: nat, hi: nat, ghost own0: map<nat, Owner>) returns (ghost own1: map<nat, Owner>)
      requires Consistent(sb, blocks, inodes, own0) && i < |inodes| && lo <= hi
      requires hi <= NDIRECT || (NDIRECT < lo && hi <= SLOTS && inodes[i].addrs[NDIRECT] != 0)
      modifies this`blocks, this`inodes, this`logs
      ensures |inodes| == old(|inodes|) && Consistent(sb, blocks, inodes, own1) &&
              OthersKept(old(Img()), own0, Img(), own1, i)
      ensures Emptied(old(Img()), Img(), i, lo, hi)
      ensures OnlyMeta(sb, old(logs), logs)
      ensures hi <= NDIRECT || !HasWords(old(Img()), i) ==> DataSame(sb, old(Img()), Img())
      ensures ChangesLogged(old(Img()), Img(), logs, if lo > NDIRECT then old(inodes[i].addrs[NDIRECT]) else 0)
    {
      own1 := own0;
      ghost var m0, logs0, ind := Img(), logs, if lo > NDIRECT then inodes[i].addrs[NDIRECT] else 0;
      for s := lo to hi
        invariant |inodes| == |m0.inodes| && Consistent(sb, blocks, inodes, own1) &&
                  OthersKept(m0, own0, Img(), own1, i)
        invariant Emptied(m0, Img(), i, lo, s)
        invariant OnlyMeta(sb, logs0, logs) && ChangesLogged(m0, Img(), logs, ind)
        invariant hi <= NDIRECT || !HasWords(m0, i) ==> DataSame(sb, m0, Img())
      {
        ghost var m1, own2 := Img(), own1;
        assert SlotAddr(m1.blocks, m1.inodes[i], NDIRECT) == SlotAddr(m0.blocks, m0.inodes[i], NDIRECT);
        if SlotAddr(blocks, inodes[i], s) != 0 {
          own1 := FreeSlot(i, s, own2);
          OthersKeptTrans(m0, own0, m1, own2, Img(), own1, i);
          EmptiedMore(m0, m1, Img(), i, lo, s);
          assert SlotAddr(blocks, inodes[i], NDIRECT) == SlotAddr(m1.blocks, m1.inodes[i], NDIRECT);
        }
      }
    }

    /** The body of `trunc1` but for the size. */
    method FreeBlocks(i: nat, ghost own0: map<nat, Owner>) returns (ghost own1: map<nat, Owner>)
      requires Consistent(sb, blocks, inodes, own0) && i < |inodes|
      modifies this`blocks, this`inodes, this`logs
      ensures |inodes| == old(|inodes|) && Consistent(sb, blocks, inodes, own1) &&
              OthersKept(old(Img()), own0, Img(), own1, i)
      ensures forall t {:trigger SlotAddr(blocks, inodes[i], t)} :: 0 <= t < SLOTS ==>
                SlotAddr(blocks, inodes[i], t) == 0
      ensures OnlyMeta(sb, old(logs), logs)
      ensures ChangesLogged(old(Img()), Img(), logs, old(inodes[i].addrs[NDIRECT]))
      ensures old(inodes[i].addrs[NDIRECT]) != 0 ==> old(inodes[i].addrs[NDIRECT]) < |blocks|
      ensures var ind := old(inodes[i].addrs[NDIRECT]);
              ind != 0 ==> (blocks[ind] != old(blocks)[ind] <==> HasWords(old(Img()), i))
    {
      ghost var m0, own2 := Img(), own0;
      own1 := FreeSlots(i, 0, NDIRECT, own0);
      ghost var m1 := Img();
      assert SlotAddr(m1.blocks, m1.inodes[i], NDIRECT) == SlotAddr(m0.blocks, m0.inodes[i], NDIRECT);
      if inodes[i].addrs[NDIRECT] != 0 {
        own2 := FreeSlots(i, NDIRECT + 1, SLOTS, own1);
        ghost var m2 := Img();
        assert SlotAddr(m2.blocks, m2.inodes[i], NDIRECT) == SlotAddr(m1.blocks, m1.inodes[i], NDIRECT);
        OthersKeptTrans(m0, own0, m1, own1, m2, own2, i);
        own1 := FreeSlot(i, NDIRECT, own2);
        OthersKeptTrans(m0, own0, m2, own2, Img(), own1, i);
        AllEmptied(m0, m1, m2, Img(), i);
        IndirectChanged(sb, m0, own0, m1, m2, Img(), i);
      }
    }

    /** `trunc`: the file has no blocks and no bytes, no other file changes, and the stored copy of its
        inode is renewed. The words of the indirect block are cleared in its buffer only: a changed
        block is missing from the log exactly if it is an indirect block with words in use that was
        not in the log before. It is free then. */
    method Trunc(i: nat)
      requires Valid() && i < |inodes|
      modifies this
      ensures Valid() && |inodes| == old(|inodes|) && inodes[i].size == 0 && saved == old(saved)[i := inodes[i]]
      ensures forall b :: b in own ==> own[b].inum != i
      ensures OthersSame(old(Img()), Img(), i)
      ensures forall b :: 0 <= b < |blocks| && blocks[b] != old(blocks)[b] ==> b in logs || !Used(sb, blocks, b)
      ensures forall x :: x in logs ==> x in old(logs) || sb.bmapStart <= x < sb.Meta() || x == sb.Iblock(i)
      ensures forall b :: 0 <= b < |blocks| ==>
                (blocks[b] != old(blocks)[b] && b !in logs <==>
                 b == old(inodes[i].addrs[NDIRECT]) && b != 0 && old(HasWords(Img(), i)) && b !in old(logs))
    {
      ghost var m0, own0 := Img(), own;
      ghost var own1 := FreeBlocks(i, own0);
      ghost var m1 := Img();
      SizeMapped(sb, m1, own1, i, 0);
      inodes := inodes[i := inodes[i].(size := 0)];
      own := own1;
      OthersKeptSame(sb, m0, own0, m1, own1, i, Img());
      NoneOwned(sb, m1, own1, i);
      FreedIndirect(sb, m0, own0, m1, own1, i);
      ghost var logs1 := logs;
      Update(i);
      OwnedSlot(sb, m0.blocks, m0.inodes, own0, i, NDIRECT);
      assert forall x :: x in logs <==> x in logs1 || x == sb.Iblock(i);
    }

    // Reading.

    /** One round of the loop of `readi`: the block of offset `off`. */
    method ReadRound(i: nat, off: nat, ghost own0: map<nat, Owner>)
      returns (ok: bool, a: nat, ghost own1: map<nat, Owner>)
      requires Consistent(sb, blocks, inodes, own0) && i < |inodes|
      modifies this`blocks, this`inodes, this`logs
      ensures |inodes| == old(|inodes|) && Consistent(sb, blocks, inodes, own1) && Keeps(old(Img()), own0, Img(), own1)
      ensures ok ==> a < |blocks|
      ensures DataAddr(old(blocks), old(inodes)[i], off / BSIZE) != 0 ==>
                ok && a == DataAddr(blocks, inodes[i], off / BSIZE)
      ensures old(logs) <= logs && (!ok ==> off / BSIZE >= MAXFILE || Hole(old(Img()), i, off / BSIZE))
      ensures if Hole(old(Img()), i, off / BSIZE) && FirstFree(sb, old(blocks), 0) < sb.size then |logs| > |old(logs)|
              else Img() == old(Img()) && logs == old(logs)
    {
      ghost var r := FsOps.Bmap(sb, Img(), i, off / BSIZE);
      ghost var marks;
      own1, marks := BmapKeeps(sb, Img(), own0, i, off / BSIZE, r);
      BmapLogs(sb, Img(), own0, i, off / BSIZE, r);
      ok, a := Bmap(i, off / BSIZE);
    }

    /** Where a read of blocks `lo ..< bn` stands: it has logged something exactly if it met a hole and
        a block was free, and changed nothing otherwise. */
    ghost predicate Reading(i: nat, m0: Image, own0: map<nat, Owner>, logs0: seq<nat>, own1: map<nat, Owner>, lo: nat,
                            bn: nat)
      reads this
    {
      && i < |inodes| == |m0.inodes| && Consistent(sb, blocks, inodes, own1) && Keeps(m0, own0, Img(), own1)
      && if HoleIn(m0, i, lo, bn) && FirstFree(sb, m0.blocks, 0) < sb.size then |logs| > |logs0|
         else Img() == m0 && logs == logs0
    }

    method ReadNext(i: nat, off: nat, ghost m0: Image, ghost own0: map<nat, Owner>, ghost logs0: seq<nat>,
                    ghost own1: map<nat, Owner>, ghost lo: nat)
      returns (ok: bool, a: nat, ghost own2: map<nat, Owner>)
      requires lo <= off / BSIZE && Reading(i, m0, own0, logs0, own1, lo, off / BSIZE) && off < m0.inodes[i].size
      modifies this`blocks, this`inodes, this`logs
      ensures Reading(i, m0, own0, logs0, own2, lo, off / BSIZE + 1) && (ok ==> a < |blocks|)
      ensures !ok ==> off / BSIZE >= MAXFILE || HoleIn(m0, i, lo, off / BSIZE + 1)
      ensures Whole(m0.blocks, m0.inodes[i]) ==>
                ok && a == DataAddr(m0.blocks, m0.inodes[i], off / BSIZE) != 0 && Img() == m0
    {
      ghost var m1, bn := Img(), off / BSIZE;
      if Whole(m0.blocks, m0.inodes[i]) { WholeNoHole(m0, i, lo, bn); }
      ok, a, own2 := ReadRound(i, off, own1);
      KeepsTrans(m0, own0, m1, own1, Img(), own2);
      assert HoleIn(m0, i, lo, bn + 1) <==> HoleIn(m0, i, lo, bn) || Hole(m0, i, bn);
    }

    /** The round of `readi` after `total` bytes. */
    method ReadPart(i: nat, dst: array<Byte>, off: nat, n: nat, total: nat, ghost m0: Image,
                    ghost own0: map<nat, Owner>, ghost logs0: seq<nat>, ghost own1: map<nat, Owner>,
                    ghost dst0: seq<Byte>)
      returns (ok: bool, next: nat, ghost own2: map<nat, Owner>)
      requires i < |m0.inodes| && total < n && off + n <= m0.inodes[i].size &&
               (0 < total ==> (off + total) % BSIZE == 0)
      requires Reading(i, m0, own0, logs0, own1, off / BSIZE, off / BSIZE + Touched(off, total))
      requires Got(m0, i, off, n, total, dst[..], dst0)
      modifies this`blocks, this`inodes, this`logs, dst
      ensures ok ==> total < next <= n && (next < n ==> (off + next) % BSIZE == 0)
      ensures ok ==> Reading(i, m0, own0, logs0, own2, off / BSIZE, off / BSIZE + Touched(off, next))
      ensures ok ==> Got(m0, i, off, n, next, dst[..], dst0)
      ensures !ok ==> Reading(i, m0, own0, logs0, own2, off / BSIZE, off / BSIZE + Touched(off, n))
      ensures Whole(m0.blocks, m0.inodes[i]) ==> ok
    {
      var m := Room(off + total, n - total);
      next := total + m;
      ReadBlocks(m0, i, off, n, total, m);
      var a;
      ok, a, own2 := ReadNext(i, off + total, m0, own0, logs0, own1, off / BSIZE);
      if !ok { return; }
      ghost var before := dst[..];
      CopyOut(dst, total, m, blocks[a], (off + total) % BSIZE);
      GotMore(m0, i, off, n, total, before, dst0, m, blocks[a], a, dst[..]);
    }

    /** The loop of `readi`. */
    method ReadBytes(i: nat, dst: array<Byte>, off: nat, n: nat, ghost own0: map<nat, Owner>)
      returns (ok: bool, ghost own1: map<nat, Owner>)
      requires Consistent(sb, blocks, inodes, own0) && i < |inodes| && n <= dst.Length && off + n <= inodes[i].size
      modifies this`blocks, this`inodes, this`logs, dst
      ensures |inodes| == old(|inodes|) && Consistent(sb, blocks, inodes, own1) && Keeps(old(Img()), own0, Img(), own1)
      ensures old(Whole(blocks, inodes[i])) ==> ok
      ensures if ReadsHole(sb, old(Img()), i, off, n) then |logs| > |old(logs)|
              else Img() == old(Img()) && logs == old(logs)
      ensures old(Whole(blocks, inodes[i])) ==>
                dst[.. n] == old(Content(blocks, inodes[i]))[off .. off + n] && dst[n ..] == old(dst[n ..])
    {
      ghost var m0, logs0, dst0 := Img(), logs, dst[..];
      ok, own1 := true, own0;
      var total := 0;
      while total < n
        invariant ok && total <= n && (0 < total < n ==> (off + total) % BSIZE == 0)
        invariant Reading(i, m0, own0, logs0, own1, off / BSIZE, off / BSIZE + Touched(off, total))
        invariant Got(m0, i, off, n, total, dst[..], dst0)
      {
        ok, total, own1 := ReadPart(i, dst, off, n, total, m0, own0, logs0, own1, dst0);
        if !ok { return; }
      }
      GotAll(m0, i, off, n, dst[..], dst0);
    }

    /** `readi`: the bytes of the file from `off` on, as many as asked for and present. Reading a
        whole file changes nothing: no block is allocated. */
    method Readi(i: nat, dst: array<Byte>, off: nat) returns (res: IoResult)
      requires Valid() && i < |inodes| && off < U64 && dst.Length < U64
      modifies this, dst
      ensures Valid() && |inodes| == old(|inodes|) && Keeps(old(Img()), old(own), Img(), own) && saved == old(saved)
      ensures res.BeyondEnd? <==> off > old(inodes[i].size)
      ensures res.Wraps? <==> off <= old(inodes[i].size) && off + dst.Length >= U64
      ensures !res.TooBig? && (res.Count? ==> res.n == Smaller(dst.Length, old(inodes[i].size) - off))
      ensures logs != old(logs) <==>
                && off <= old(inodes[i].size) && off + dst.Length < U64
                && ReadsHole(sb, old(Img()), i, off, Smaller(dst.Length, old(inodes[i].size) - off))
      ensures logs == old(logs) ==> Img() == old(Img())
      ensures old(Whole(blocks, inodes[i])) ==> !res.NoSpace? && Img() == old(Img()) && logs == old(logs)
      ensures old(Whole(blocks, inodes[i])) && res.Count? ==>
                dst[.. res.n] == old(Content(blocks, inodes[i]))[off .. off + res.n] &&
                dst[res.n ..] == old(dst[res.n ..])
    {
      if off > inodes[i].size { return BeyondEnd; }
      if (off + dst.Length) % U64 < off { return Wraps; }
      var n := Smaller(dst.Length, inodes[i].size - off);
      ghost var own1;
      var ok;
      if Whole(blocks, inodes[i]) { WholeNoHole(Img(), i, off / BSIZE, off / BSIZE + Touched(off, n)); }
      ok, own1 := ReadBytes(i, dst, off, n, own);
      own := own1;
      res := if ok then Count(n) else NoSpace;
    }
  }

  /** The next block of a read. When there are no more, or it is a hole, whether the rest has holes
      changes nothing. */
  lemma ReadBlocks(m: Image, i: nat, off: nat, n: nat, total: nat, k: nat)
    requires i < |m.inodes| && total < n && (total == 0 || (off + total) % BSIZE == 0) &&
             k == Room(off + total, n - total)
    ensures (off + total) / BSIZE == off / BSIZE + Touched(off, total)
    ensures off / BSIZE + Touched(off, total + k) == (off + total) / BSIZE + 1
    ensures var lo, bn, hi := off / BSIZE, (off + total) / BSIZE, off / BSIZE + Touched(off, n);
            bn >= MAXFILE || HoleIn(m, i, lo, bn + 1) ==> (HoleIn(m, i, lo, bn + 1) <==> HoleIn(m, i, lo, hi))
  {
    NextBlock(off, total);
    TouchedMore(off, total, k);
    TouchedMono(off, total + k, n);
  }

  /** The first `total` of `n` bytes of the file from `off` on are in the buffer. */
  ghost predicate Got(m: Image, i: nat, off: nat, n: nat, total: nat, d: seq<Byte>, d0: seq<Byte>)
    requires i < |m.inodes|
  {
    && total <= n <= |d| == |d0| && (forall k :: n <= k < |d| ==> d[k] == d0[k])
    && (Whole(m.blocks, m.inodes[i]) ==> forall k :: 0 <= k < total ==> d[k] == ByteAt(m.blocks, m.inodes[i], off + k))
  }

  lemma GotMore(m: Image, i: nat, off: nat, n: nat, total: nat, d: seq<Byte>, d0: seq<Byte>, k: nat, block: Block,
                a: nat, d': seq<Byte>)
    requires i < |m.inodes| && Got(m, i, off, n, total, d, d0) && |d'| == |d| && total + k <= n
    requires (off + total) % BSIZE + k <= BSIZE
    requires Whole(m.blocks, m.inodes[i]) ==>
               a == DataAddr(m.blocks, m.inodes[i], (off + total) / BSIZE) != 0 && a < |m.blocks| &&
               block == m.blocks[a]
    requires forall j :: 0 <= j < |d| ==>
               d'[j] == if total <= j < total + k then block[(off + total) % BSIZE + (j - total)] else d[j]
    ensures Got(m, i, off, n, total + k, d', d0)
  {
    forall j | 0 <= j < total + k && Whole(m.blocks, m.inodes[i])
      ensures d'[j] == ByteAt(m.blocks, m.inodes[i], off + j)
    {
      if j >= total { SameBlock(off + total, j - total); }
    }
  }

  lemma GotAll(m: Image, i: nat, off: nat, n: nat, d: seq<Byte>, d0: seq<Byte>)
    requires i < |m.inodes| && Got(m, i, off, n, n, d, d0) && off + n <= m.inodes[i].size
    ensures d[n ..] == d0[n ..]
    ensures Whole(m.blocks, m.inodes[i]) ==> d[.. n] == Content(m.blocks, m.inodes[i])[off .. off + n]
  {
  }

  /** A read of `n` bytes at `off` meets a hole, and a block is free to fill it. */
  ghost predicate ReadsHole(sb: Super, m: Image, i: nat, off: nat, n: nat)
    requires i < |m.inodes|
  {
    HoleIn(m, i, off / BSIZE, off / BSIZE + Touched(off, n)) && FirstFree(sb, m.blocks, 0) < sb.size
  }

  lemma WholeNoHole(m: Image, i: nat, lo: nat, hi: nat)
    requires i < |m.inodes| && Whole(m.blocks, m.inodes[i]) && (lo < hi ==> (hi - 1) * BSIZE < m.inodes[i].size)
    ensures !HoleIn(m, i, lo, hi)
  {
    forall bn | lo <= bn < hi ensures !Hole(m, i, bn) {
      assert bn * BSIZE < m.inodes[i].size;
      assert DataAddr(m.blocks, m.inodes[i], bn) != 0;
    }
  }

  function Smaller(a: nat, b: nat): nat { if a < b then a else b }

  lemma SameBlock(off: nat, k: nat)
    requires off % BSIZE + k < BSIZE
    ensures (off + k) / BSIZE == off / BSIZE && (off + k) % BSIZE == off % BSIZE + k
  {
  }

  lemma AllEmptied(m0: Image, m1: Image, m2: Image, m3: Image, i: nat)
    requires i < |m0.inodes| == |m1.inodes| == |m2.inodes| == |m3.inodes|
    requires Emptied(m0, m1, i, 0, NDIRECT) && Emptied(m1, m2, i, NDIRECT + 1, SLOTS) &&
             Emptied(m2, m3, i, NDIRECT, NDIRECT + 1)
    ensures forall t {:trigger SlotAddr(m3.blocks, m3.inodes[i], t)} :: 0 <= t < SLOTS ==>
              SlotAddr(m3.blocks, m3.inodes[i], t) == 0
  {
    forall t | 0 <= t < SLOTS ensures SlotAddr(m3.blocks, m3.inodes[i], t) == 0 {
      assert SlotAddr(m2.blocks, m2.inodes[i], t) == SlotAddr(m2.blocks, m2.inodes[i], t);
      assert SlotAddr(m1.blocks, m1.inodes[i], t) == SlotAddr(m1.blocks, m1.inodes[i], t);
    }
  }

  /** The indirect block itself changes exactly when it has words to clear. */
  lemma IndirectChanged(sb: Super, m0: Image, own0: map<nat, Owner>, m1: Image, m2: Image, m3: Image, i: nat)
    requires Consistent(sb, m0.blocks, m0.inodes, own0) && i < |m0.inodes| == |m1.inodes| == |m2.inodes|
    requires Emptied(m0, m1, i, 0, NDIRECT) && DataSame(sb, m0, m1)
    requires Emptied(m1, m2, i, NDIRECT + 1, SLOTS) && (!HasWords(m1, i) ==> DataSame(sb, m1, m2)) &&
             DataSame(sb, m2, m3)
    requires |m2.blocks| == |m1.blocks| && m0.inodes[i].addrs[NDIRECT] != 0
    ensures var ind := m0.inodes[i].addrs[NDIRECT];
            ind < |m0.blocks| == |m3.blocks| && (m3.blocks[ind] != m0.blocks[ind] <==> HasWords(m0, i))
  {
    var ind := m0.inodes[i].addrs[NDIRECT];
    OwnedSlot(sb, m0.blocks, m0.inodes, own0, i, NDIRECT);
    forall t | NDIRECT <= t < SLOTS
      ensures SlotAddr(m1.blocks, m1.inodes[i], t) == SlotAddr(m0.blocks, m0.inodes[i], t)
    {
    }
    if HasWords(m0, i) {
      var t :| NDIRECT < t < SLOTS && SlotAddr(m0.blocks, m0.inodes[i], t) != 0;
      assert SlotAddr(m2.blocks, m2.inodes[i], NDIRECT) == ind;
      assert SlotAddr(m2.blocks, m2.inodes[i], t) == 0;
      assert Word(m2.blocks[ind], t - NDIRECT - 1) != Word(m0.blocks[ind], t - NDIRECT - 1);
    } else {
      assert !HasWords(m1, i);
    }
  }

  lemma NoneOwned(sb: Super, m: Image, own: map<nat, Owner>, i: nat)
    requires Mapped(sb, m.blocks, m.inodes, own) && i < |m.inodes| && sb.Valid()
    requires forall t {:trigger SlotAddr(m.blocks, m.inodes[i], t)} :: 0 <= t < SLOTS ==>
               SlotAddr(m.blocks, m.inodes[i], t) == 0
    ensures forall b :: b in own ==> own[b].inum != i
  {
  }

  lemma FreedIndirect(sb: Super, m: Image, own: map<nat, Owner>, m': Image, own': map<nat, Owner>, i: nat)
    requires Consistent(sb, m.blocks, m.inodes, own) && Consistent(sb, m'.blocks, m'.inodes, own') && i < |m.inodes|
    requires OthersKept(m, own, m', own', i) && forall b :: b in own' ==> own'[b].inum != i
    ensures m.inodes[i].addrs[NDIRECT] != 0 ==> !Used(sb, m'.blocks, m.inodes[i].addrs[NDIRECT])
  {
    OwnedSlot(sb, m.blocks, m.inodes, own, i, NDIRECT);
    var ind := m.inodes[i].addrs[NDIRECT];
    if ind != 0 && ind in own' {
      var k := own'[ind].inum;
      OwnedByOther(sb, m, own, m', own', i, ind);
    }
  }

  /** A block owned by another file was so before. */
  lemma OwnedByOther(sb: Super, m: Image, own: map<nat, Owner>, m': Image, own': map<nat, Owner>, i: nat, b: nat)
    requires sb.Valid() && Mapped(sb, m.blocks, m.inodes, own) && Mapped(sb, m'.blocks, m'.inodes, own') &&
             i < |m.inodes|
    requires OthersKept(m, own, m', own', i) && b in own' && own'[b].inum != i
    ensures b in own && own[b] == own'[b]
  {
    var k, t := own'[b].inum, own'[b].slot;
    OwnedSlot(sb, m.blocks, m.inodes, own, k, NDIRECT);
    assert SlotAddr(m'.blocks, m'.inodes[k], t) == SlotAddr(m.blocks, m.inodes[k], t);
    OwnedSlot(sb, m.blocks, m.inodes, own, k, t);
  }
}
