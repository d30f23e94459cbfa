/** Writing in chunks, one file-system operation each (kernel/src/fs.rs:966-980), and the log space
    an operation needs. */
module FsChunks {
  import opened FsLayout
  import opened FsImage
  import opened FsFile
  import opened FsOps
  import opened FsWrite
  import opened Fs
  import LogFormat

  /** Bytes written in one operation. */
  const CHUNK: nat := (LogFormat.MAXOPBLOCKS - 1 - 1 - 2) / 2 * BSIZE

  ghost function Distinct(logs: seq<nat>): set<nat> {
    set x | x in logs
  }

  lemma ChunkTouches(off: nat, n: nat)
    requires n <= CHUNK
    ensures Touched(off, n) <= 31 && (off % BSIZE == 0 ==> Touched(off, n) <= 30)
  {
    assert CHUNK == 122880;
  }

  /** What the write of a chunk to file `i`, a file without holes, gives to the log. */
  ghost predicate ChunkLogged(sb: Super, m: Image, i: nat, off: nat, n: nat, m': Image, logs: seq<nat>, data: set<nat>,
                              marks: set<nat>) {
    && i < |m.inodes| == |m'.inodes| && n <= CHUNK && off <= m.inodes[i].size && Whole(m.blocks, m.inodes[i])
    && |data| <= Touched(off, n) && FewMarks(m, m', i, off, n, marks)
    && LogsIn([sb.Iblock(i)], logs, data, marks, m'.inodes[i].addrs[NDIRECT])
  }

  /** `logs` are the blocks some such write gives to the log. */
  ghost predicate ChunkLogs(sb: Super, logs: seq<nat>) {
    exists m, i, off, n, m', data, marks :: ChunkLogged(sb, m, i, off, n, m', logs, data, marks)
  }

  /** `logs` are blocks a truncation gives to the log: the bit map and one inode. */
  ghost predicate TruncLogs(sb: Super, logs: seq<nat>) {
    exists i: nat :: InodeOnly(sb, i, logs)
  }

  ghost predicate InodeOnly(sb: Super, i: nat, logs: seq<nat>) {
    forall x {:trigger x in logs} :: x in logs ==> sb.bmapStart <= x < sb.Meta() || x == sb.Iblock(i)
  }

  lemma {:induction false} RangeSize(s: set<nat>, lo: nat, hi: nat)
    requires lo <= hi && forall x :: x in s ==> lo <= x < hi
    ensures |s| <= hi - lo
    decreases hi - lo
  {
    if lo < hi {
      RangeSize(s - {lo}, lo + 1, hi);
    } else {
      assert s == {};
    }
  }

  /** A truncation logs at most the bit map and one block more. */
  lemma TruncFits(sb: Super, logs: seq<nat>)
    requires sb.Valid() && TruncLogs(sb, logs)
    ensures |Distinct(logs)| <= sb.Meta() - sb.bmapStart + 1
  {
    var i: nat :| InodeOnly(sb, i, logs);
    RangeSize(Distinct(logs) - {sb.Iblock(i)}, sb.bmapStart, sb.Meta());
  }

  /** Under no holes, the write of a chunk needs at most MAXOPBLOCKS blocks of the log, wherever the
      bits of the blocks it allocates lie. */
  lemma ChunkFits(sb: Super, m: Image, i: nat, off: nat, n: nat, m': Image, logs: seq<nat>, data: set<nat>,
                  marks: set<nat>)
    requires ChunkLogged(sb, m, i, off, n, m', logs, data, marks)
    ensures |Distinct(logs)| <= LogFormat.MAXOPBLOCKS
  {
    ChunkTouches(off, n);
    if off % BSIZE != 0 {
      assert off / BSIZE * BSIZE < m.inodes[i].size;
      assert DataAddr(m.blocks, m.inodes[i], off / BSIZE) != 0;
    }
    var two := {sb.Iblock(i), m'.inodes[i].addrs[NDIRECT]};
    UnionSize(data, marks);
    UnionSize(data + marks, two);
    SubsetSize(Distinct(logs), data + marks + two);
  }

  lemma {:induction false} SubsetSize(a: set<nat>, b: set<nat>)
    requires a <= b
    ensures |a| <= |b|
  {
    if a != {} {
      var x :| x in a;
      SubsetSize(a - {x}, b - {x});
    }
  }

  lemma OverwriteTwice(c: seq<Byte>, off: nat, a: seq<Byte>, b: seq<Byte>)
    requires off <= |c|
    ensures |Overwrite(c, off, a)| == Larger(|c|, off + |a|)
    ensures Overwrite(Overwrite(c, off, a), off + |a|, b) == Overwrite(c, off, a + b)
  {
    assert |Overwrite(c, off, a)| == Larger(|c|, off + |a|);
    var l, r := Overwrite(Overwrite(c, off, a), off + |a|, b), Overwrite(c, off, a + b);
    assert |l| == |r|;
    forall k | 0 <= k < |l| ensures l[k] == r[k] {
    }
  }

  /** A write of `a` that was complete, then one of `b` behind it. */
  lemma FileWrittenTwice(m: Image, m1: Image, m2: Image, i: nat, off: nat, a: seq<Byte>, b: seq<Byte>)
    requires i < |m.inodes| && off <= m.inodes[i].size && FileWritten(m, m1, i, off, a)
    requires m1.inodes[i].size == Larger(m.inodes[i].size, off + |a|) && FileWritten(m1, m2, i, off + |a|, b)
    ensures FileWritten(m, m2, i, off, a + b)
  {
    if Whole(m.blocks, m.inodes[i]) {
      var c := Content(m.blocks, m.inodes[i]);
      OverwriteTwice(c, off, a, b);
      assert Content(m1.blocks, m1.inodes[i]) == Overwrite(c, off, a);
    }
  }

  lemma OthersSameTrans(m: Image, m1: Image, m2: Image, i: nat)
    requires OthersSame(m, m1, i) && OthersSame(m1, m2, i)
    ensures OthersSame(m, m2, i)
  {
    forall k | 0 <= k < |m.inodes| && k != i && Whole(m.blocks, m.inodes[k])
      ensures Whole(m2.blocks, m2.inodes[k]) && Content(m2.blocks, m2.inodes[k]) == Content(m.blocks, m.inodes[k])
    {
      assert Whole(m1.blocks, m1.inodes[k]);
    }
  }

  lemma NothingWrittenYet(m: Image, i: nat, off: nat)
    requires i < |m.inodes| && off <= m.inodes[i].size
    ensures FileWritten(m, m, i, off, []) && OthersSame(m, m, i)
  {
    assert Overwrite(Content(m.blocks, m.inodes[i]), off, [])[.. m.inodes[i].size] == Content(m.blocks, m.inodes[i]);
  }

  /** One operation of `write`: `v.logs` are the blocks it gives to the log. */
  method WriteChunk(v: Volume, i: nat, s: seq<Byte>, off: nat) returns (res: IoResult, ghost done: nat)
    requires v.Valid() && i < |v.inodes| && off < U64 && |s| <= CHUNK
    modifies v
    ensures v.Valid() && |v.inodes| == old(|v.inodes|) && done <= |s| && (res.Count? ==> res.n == done == |s|)
    ensures res.BeyondEnd? <==> off > old(v.inodes[i].size)
    ensures res.BeyondEnd? ==> v.Img() == old(v.Img()) && v.logs == []
    ensures res.Count? && s != [] ==> v.inodes[i].size == Larger(old(v.inodes[i].size), off + |s|)
    ensures res.Count? && s != [] ==> off + |s| <= MAXFILE * BSIZE
    ensures !res.BeyondEnd? ==>
              OthersSame(old(v.Img()), v.Img(), i) && FileWritten(old(v.Img()), v.Img(), i, off, s[.. done])
    ensures old(Whole(v.blocks, v.inodes[i])) ==> ChunkLogs(v.sb, v.logs) || v.logs == []
    ensures old(Whole(v.blocks, v.inodes[i])) ==> |Distinct(v.logs)| <= LogFormat.MAXOPBLOCKS
  {
    v.logs := [];
    ghost var m := v.Img();
    ghost var data, marks;
    if off <= v.inodes[i].size { NothingWrittenYet(m, i, off); }
    assert s[.. 0] == [];
    res, done, data, marks := v.Writei(i, s, off);
    if res.BeyondEnd? { return; }
    assert [] + [v.sb.Iblock(i)] == [v.sb.Iblock(i)];
    if Whole(m.blocks, m.inodes[i]) {
      assert ChunkLogged(v.sb, m, i, off, |s|, v.Img(), v.logs, data, marks);
      ChunkFits(v.sb, m, i, off, |s|, v.Img(), v.logs, data, marks);
    }
  }

  lemma ChunkAppended(m: Image, m1: Image, m2: Image, i: nat, off: nat, buf: seq<Byte>, n: nat, k: nat, some: nat,
                      done: nat)
    requires i < |m.inodes| == |m1.inodes| && some <= k && n + k <= |buf| && done == n + some && off <= m.inodes[i].size
    requires OthersSame(m, m1, i) && OthersSame(m1, m2, i) && FileWritten(m, m1, i, off, buf[.. n])
    requires m1.inodes[i].size == Larger(m.inodes[i].size, off + n) &&
             FileWritten(m1, m2, i, off + n, buf[n .. n + k][.. some])
    ensures OthersSame(m, m2, i) && FileWritten(m, m2, i, off, buf[.. done])
  {
    OthersSameTrans(m, m1, m2, i);
    FileWrittenTwice(m, m1, m2, i, off, buf[.. n], buf[n .. n + k][.. some]);
    assert buf[.. n] + buf[n .. n + k][.. some] == buf[.. done];
  }

  /** The chunk after the first `n` bytes of `buf`. */
  method NextChunk(v: Volume, i: nat, buf: seq<Byte>, n: nat, off: nat, ghost m0: Image)
    returns (res: IoResult, ghost done: nat)
    requires v.Valid() && i < |m0.inodes| && n < |buf| && off <= m0.inodes[i].size && off + n < U64
    requires OthersSame(m0, v.Img(), i) && FileWritten(m0, v.Img(), i, off, buf[.. n])
    requires v.inodes[i].size == Larger(m0.inodes[i].size, off + n)
    modifies v
    ensures v.Valid() && |v.inodes| == |m0.inodes| && n <= done <= |buf|
    ensures OthersSame(m0, v.Img(), i) && FileWritten(m0, v.Img(), i, off, buf[.. done])
    ensures !res.BeyondEnd?
    ensures res.Count? ==>
              n + res.n == done > n && off + done < U64 && v.inodes[i].size == Larger(m0.inodes[i].size, off + done)
    ensures Whole(m0.blocks, m0.inodes[i]) ==> |Distinct(v.logs)| <= LogFormat.MAXOPBLOCKS
  {
    ghost var m1 := v.Img();
    var k := Smaller(|buf| - n, CHUNK);
    ghost var some;
    res, some := WriteChunk(v, i, buf[n .. n + k], off + n);
    done := n + some;
    ChunkAppended(m0, m1, v.Img(), i, off, buf, n, k, some, done);
  }

  /** `write` on a file: on success all of `buf` is written at the file's offset, which moves behind
      it; otherwise a prefix is, and the error is that of the chunk that failed. No other file
      changes, and no operation exceeds its share of the log. */
  method Write(v: Volume, i: nat, buf: seq<Byte>, off: nat)
    returns (res: IoResult, off': nat, ghost done: nat, ghost peak: nat)
    requires v.Valid() && i < |v.inodes| && off < U64
    modifies v
    ensures v.Valid() && |v.inodes| == old(|v.inodes|) && done <= |buf| && off <= off' <= off + done
    ensures res.BeyondEnd? <==> off > old(v.inodes[i].size) && buf != []
    ensures off > old(v.inodes[i].size) ==> v.Img() == old(v.Img())
    ensures res.Count? ==> res.n == done == |buf| && off' == off + |buf|
    ensures res.Count? && buf != [] ==> v.inodes[i].size == Larger(old(v.inodes[i].size), off + |buf|)
    ensures off <= old(v.inodes[i].size) ==>
              OthersSame(old(v.Img()), v.Img(), i) && FileWritten(old(v.Img()), v.Img(), i, off, buf[.. done])
    ensures old(Whole(v.blocks, v.inodes[i])) ==> peak <= LogFormat.MAXOPBLOCKS
  {
    off', done, peak := off, 0, 0;
    if off > v.inodes[i].size {
      // The first chunk fails, if there is one.
      res := Count(0);
      if buf != [] { res, done := WriteChunk(v, i, buf[.. Smaller(|buf|, CHUNK)], off); }
      return;
    }
    ghost var m0 := v.Img();
    NothingWrittenYet(m0, i, off);
    assert buf[.. 0] == [];
    var n := 0;
    while n < |buf|
      invariant done == n <= |buf| && off' == off + n < U64 && v.Valid() && |v.inodes| == |m0.inodes|
      invariant v.inodes[i].size == Larger(m0.inodes[i].size, off + n)
      invariant OthersSame(m0, v.Img(), i) && FileWritten(m0, v.Img(), i, off, buf[.. n])
      invariant Whole(m0.blocks, m0.inodes[i]) ==> peak <= LogFormat.MAXOPBLOCKS
    {
      res, done := NextChunk(v, i, buf, n, off, m0);
      peak := if |Distinct(v.logs)| > peak then |Distinct(v.logs)| else peak;
      if !res.Count? { return; }
      n, off' := n + res.n, off' + res.n;
    }
    res := Count(n);
    assert buf[.. n] == buf;
  }

  /** `trunc` as one operation. */
  method Truncate(v: Volume, i: nat)
    requires v.Valid() && i < |v.inodes|
    modifies v
    ensures v.Valid() && |v.inodes| == old(|v.inodes|) && v.inodes[i].size == 0
    ensures OthersSame(old(v.Img()), v.Img(), i)
    ensures TruncLogs(v.sb, v.logs) && |Distinct(v.logs)| <= v.sb.Meta() - v.sb.bmapStart + 1
  {
    v.logs := [];
    v.Trunc(i);
    assert InodeOnly(v.sb, i, v.logs);
    TruncFits(v.sb, v.logs);
  }

  /** A read through a file, or the panic "logged write outside of transaction". */
  datatype ReadResult = Result(r: IoResult) | Panic

  /** `read` on a file, with so many operations of other processes outstanding in the log: reading is no
      operation itself, so it panics exactly when none is outstanding and it meets a hole that a free
      block could fill. Otherwise the offset moves behind what was read. */
  method Read(v: Volume, i: nat, dst: array<Byte>, off: nat, outstanding: nat) returns (res: ReadResult, off': nat)
    requires v.Valid() && i < |v.inodes| && off < U64 && dst.Length < U64
    modifies v, dst
    ensures res.Panic? <==>
              && outstanding == 0 && off <= old(v.inodes[i].size) && off + dst.Length < U64
              && ReadsHole(v.sb, old(v.Img()), i, off, Smaller(dst.Length, old(v.inodes[i].size) - off))
    ensures v.Valid() && |v.inodes| == old(|v.inodes|) && Keeps(old(v.Img()), old(v.own), v.Img(), v.own)
    ensures off' == if res.Result? && res.r.Count? then off + res.r.n else off
    ensures res.Result? && res.r.Count? ==>
              off <= old(v.inodes[i].size) && res.r.n == Smaller(dst.Length, old(v.inodes[i].size) - off)
    ensures old(Whole(v.blocks, v.inodes[i])) ==> !res.Panic? && v.Img() == old(v.Img()) && v.logs == old(v.logs)
    ensures old(Whole(v.blocks, v.inodes[i])) && off' > off ==>
              dst[.. off' - off] == old(Content(v.blocks, v.inodes[i]))[off .. off']
  {
    off' := off;
    var logs := v.logs;
    var r := v.Readi(i, dst, off);
    if outstanding == 0 && v.logs != logs { return Panic, off; }
    res := Result(r);
    if r.Count? { off' := off + r.n; }
  }
}
