/** What writing a byte range does to the image: the file's bytes, the other files, and the blocks
    given to the log (kernel/src/fs.rs:619-649, 966-980). */
module FsWrite {
  import opened FsLayout
  import opened FsImage
  import opened FsFile
  import opened FsOps

  function Splice(b: Block, o: nat, s: seq<Byte>): Block
    requires o + |s| <= BSIZE
  {
    b[.. o] + s + b[o + |s| ..]
  }

  /** Bytes that go in the first block. */
  function Room(off: nat, n: nat): (k: nat)
    ensures k <= n && off % BSIZE + k <= BSIZE && (n > 0 ==> k > 0) && (k < n ==> (off + k) % BSIZE == 0)
  {
    if n <= BSIZE - off % BSIZE then n else BSIZE - off % BSIZE
  }

  /** Bytes `s` are put into block `a`, which holds offset `off`. */
  function PutBytes(m: Image, a: nat, off: nat, s: seq<Byte>): (r: Image)
    requires a < |m.blocks| && off % BSIZE + |s| <= BSIZE
    ensures |r.blocks| == |m.blocks| && r.inodes == m.inodes
  {
    m.(blocks := m.blocks[a := Splice(m.blocks[a], off % BSIZE, s)])
  }

  /** Everything in use stays, up to the contents of the data blocks of file `i`. */
  ghost predicate Writes(m: Image, own: map<nat, Owner>, m': Image, own': map<nat, Owner>, i: nat) {
    && |m'.blocks| == |m.blocks| && |m'.inodes| == |m.inodes|
    && (forall k {:trigger m'.inodes[k]} :: 0 <= k < |m.inodes| ==>
          m'.inodes[k] == m.inodes[k].(addrs := m'.inodes[k].addrs))
    && (forall k, t {:trigger SlotAddr(m'.blocks, m'.inodes[k], t)} :: 0 <= k < |m.inodes| && 0 <= t < SLOTS ==>
          SlotAddr(m.blocks, m.inodes[k], t) != 0 ==>
            SlotAddr(m'.blocks, m'.inodes[k], t) == SlotAddr(m.blocks, m.inodes[k], t))
    && (forall b {:trigger b in own} :: b in own && b < |m.blocks| ==>
          b in own' && own'[b] == own[b] &&
          (own[b].slot != NDIRECT && own[b].inum != i ==> m'.blocks[b] == m.blocks[b]))
  }

  lemma WritesTrans(m: Image, own: map<nat, Owner>, m1: Image, own1: map<nat, Owner>, m2: Image, own2: map<nat, Owner>,
                    i: nat)
    requires Writes(m, own, m1, own1, i) && Writes(m1, own1, m2, own2, i)
    ensures Writes(m, own, m2, own2, i)
  {
    forall k, t | 0 <= k < |m.inodes| && 0 <= t < SLOTS && SlotAddr(m.blocks, m.inodes[k], t) != 0
      ensures SlotAddr(m2.blocks, m2.inodes[k], t) == SlotAddr(m.blocks, m.inodes[k], t)
    {
      assert SlotAddr(m1.blocks, m1.inodes[k], t) == SlotAddr(m.blocks, m.inodes[k], t);
    }
  }

  /** The other files keep their contents. */
  lemma WritesContent(sb: Super, m: Image, own: map<nat, Owner>, m': Image, own': map<nat, Owner>, i: nat, k: nat)
    requires Mapped(sb, m.blocks, m.inodes, own) && Writes(m, own, m', own', i) && k < |m.inodes| && k != i
    requires Whole(m.blocks, m.inodes[k])
    ensures Whole(m'.blocks, m'.inodes[k]) && Content(m'.blocks, m'.inodes[k]) == Content(m.blocks, m.inodes[k])
  {
    forall bn | 0 <= bn && bn * BSIZE < m.inodes[k].size
      ensures DataAddr(m'.blocks, m'.inodes[k], bn) == DataAddr(m.blocks, m.inodes[k], bn) != 0
    {
    }
    forall j | 0 <= j < m.inodes[k].size
      ensures ByteAt(m'.blocks, m'.inodes[k], j) == ByteAt(m.blocks, m.inodes[k], j)
    {
      assert DataAddr(m.blocks, m.inodes[k], j / BSIZE) != 0;
      OwnedSlot(sb, m.blocks, m.inodes, own, k, SlotOf(j / BSIZE));
    }
  }

  // The bytes of the file written.

  ghost predicate HasByte(m: Image, i: nat, j: nat)
    requires i < |m.inodes|
  {
    DataAddr(m.blocks, m.inodes[i], j / BSIZE) != 0
  }

  /** Byte `j` of file `i` is the one of `s` written at `off`, or the one it was. */
  ghost predicate ByteSet(m: Image, m': Image, i: nat, off: nat, s: seq<Byte>, j: nat)
    requires i < |m.inodes| == |m'.inodes|
  {
    if off <= j < off + |s| then HasByte(m', i, j) && ByteAt(m'.blocks, m'.inodes[i], j) == s[j - off]
    else HasByte(m, i, j) ==>
      HasByte(m', i, j) && ByteAt(m'.blocks, m'.inodes[i], j) == ByteAt(m.blocks, m.inodes[i], j)
  }

  ghost predicate BytesSet(m: Image, m': Image, i: nat, off: nat, s: seq<Byte>)
    requires i < |m.inodes| == |m'.inodes|
  {
    forall j: nat {:trigger ByteSet(m, m', i, off, s, j)} :: ByteSet(m, m', i, off, s, j)
  }

  lemma BytesSetTrans(m: Image, m1: Image, m2: Image, i: nat, off: nat, a: seq<Byte>, b: seq<Byte>)
    requires i < |m.inodes| == |m1.inodes| == |m2.inodes|
    requires BytesSet(m, m1, i, off, a) && BytesSet(m1, m2, i, off + |a|, b)
    ensures BytesSet(m, m2, i, off, a + b)
  {
    forall j: nat ensures ByteSet(m, m2, i, off, a + b, j) {
      assert ByteSet(m, m1, i, off, a, j);
      assert ByteSet(m1, m2, i, off + |a|, b, j);
    }
  }

  lemma KeepsBytes(sb: Super, m: Image, own: map<nat, Owner>, m': Image, own': map<nat, Owner>, i: nat, off: nat)
    requires Mapped(sb, m.blocks, m.inodes, own) && Keeps(m, own, m', own') && i < |m.inodes|
    ensures BytesSet(m, m', i, off, []) && Writes(m, own, m', own', i)
  {
    forall j: nat ensures ByteSet(m, m', i, off, [], j) {
      if HasByte(m, i, j) {
        OwnedSlot(sb, m.blocks, m.inodes, own, i, SlotOf(j / BSIZE));
        assert SlotAddr(m'.blocks, m'.inodes[i], SlotOf(j / BSIZE)) ==
                 SlotAddr(m.blocks, m.inodes[i], SlotOf(j / BSIZE));
      }
    }
  }

  lemma PutBytesMapped(sb: Super, m: Image, own: map<nat, Owner>, i: nat, a: nat, off: nat, s: seq<Byte>, m': Image)
    requires sb.Valid() && Mapped(sb, m.blocks, m.inodes, own) && i < |m.inodes| && off % BSIZE + |s| <= BSIZE
    requires off / BSIZE < MAXFILE && DataAddr(m.blocks, m.inodes[i], off / BSIZE) == a != 0
    requires a < |m.blocks| && m' == PutBytes(m, a, off, s)
    ensures sb.Data(a) && Mapped(sb, m'.blocks, m'.inodes, own) && Writes(m, own, m', own, i)
    ensures forall k, t {:trigger SlotAddr(m'.blocks, m'.inodes[k], t)} :: 0 <= k < |m.inodes| && 0 <= t < SLOTS ==>
              SlotAddr(m'.blocks, m'.inodes[k], t) == SlotAddr(m.blocks, m.inodes[k], t)
  {
    OwnedSlot(sb, m.blocks, m.inodes, own, i, SlotOf(off / BSIZE));
    SlotsFrame(sb, m.blocks, m.inodes, own, m'.blocks);
  }

  lemma PutBytesSets(sb: Super, m: Image, own: map<nat, Owner>, i: nat, a: nat, off: nat, s: seq<Byte>, m': Image)
    requires sb.Valid() && Mapped(sb, m.blocks, m.inodes, own) && i < |m.inodes| && off % BSIZE + |s| <= BSIZE
    requires off / BSIZE < MAXFILE && DataAddr(m.blocks, m.inodes[i], off / BSIZE) == a != 0
    requires a < |m.blocks| && m' == PutBytes(m, a, off, s)
    ensures BytesSet(m, m', i, off, s)
  {
    PutBytesMapped(sb, m, own, i, a, off, s, m');
    var block := Splice(m.blocks[a], off % BSIZE, s);
    forall j: nat ensures ByteSet(m, m', i, off, s, j) {
      if HasByte(m, i, j) {
        BlockWritten(sb, m, own, i, off / BSIZE, block, i, j);
      }
    }
  }

  /** One round of the loop of `writei`: `bmap`, then the bytes are copied. */
  lemma RoundKeeps(sb: Super, m: Image, own: map<nat, Owner>, i: nat, off: nat, s: seq<Byte>, r: Step, m': Image)
    returns (own': map<nat, Owner>, data: set<nat>, marks: set<nat>)
    requires Consistent(sb, m.blocks, m.inodes, own) && i < |m.inodes| && off % BSIZE + |s| <= BSIZE
    requires r == Bmap(sb, m, i, off / BSIZE) && (r.ok ==> r.a < |r.m.blocks|)
    requires m' == if r.ok then PutBytes(r.m, r.a, off, s) else r.m
    ensures Written(sb, m, own, i, off, if r.ok then s else [], m', own')
    ensures RoundLogged(m, i, off / BSIZE, m', if r.ok then r.logs + [r.a] else r.logs, data, marks)
    ensures !r.ok ==> off / BSIZE >= MAXFILE || FirstFree(sb, m'.blocks, 0) == sb.size
    ensures DataAddr(m.blocks, m.inodes[i], off / BSIZE) != 0 ==> m'.inodes == m.inodes
    ensures ChangesLogged(m, m', if r.ok then r.logs + [r.a] else r.logs, 0)
  {
    own', marks := BmapKeeps(sb, m, own, i, off / BSIZE, r);
    data := if r.ok then {r.a} else {};
    RoundWritten(sb, m, own, i, off, s, r, own', marks, m');
    if r.ok { ChangesMore(m, r.m, m', r.logs, [r.a]); }
  }

  lemma RoundWritten(sb: Super, m: Image, own: map<nat, Owner>, i: nat, off: nat, s: seq<Byte>, r: Step,
                     own': map<nat, Owner>, marks: set<nat>, m': Image)
    requires Consistent(sb, m.blocks, m.inodes, own) && i < |m.inodes| && off % BSIZE + |s| <= BSIZE
    requires BmapSpec(sb, m, own, i, off / BSIZE, r, own', marks)
    requires m' == if r.ok then PutBytes(r.m, r.a, off, s) else r.m
    ensures Written(sb, m, own, i, off, if r.ok then s else [], m', own')
    ensures RoundLogged(m, i, off / BSIZE, m', if r.ok then r.logs + [r.a] else r.logs, if r.ok then {r.a} else {},
                        marks)
  {
    KeepsBytes(sb, m, own, r.m, own', i, off);
    if r.ok {
      PutBytesMapped(sb, r.m, own', i, r.a, off, s, m');
      DataKeepsMarks(sb, r.m.blocks, own'.Keys, r.a, Splice(r.m.blocks[r.a], off % BSIZE, s));
      PutBytesSets(sb, r.m, own', i, r.a, off, s, m');
      WritesTrans(m, own, r.m, own', m', own', i);
      BytesSetTrans(m, r.m, m', i, off, [], s);
      assert [] + s == s;
    }
  }

  lemma BmapInRange(sb: Super, m: Image, own: map<nat, Owner>, i: nat, bn: nat)
    requires Consistent(sb, m.blocks, m.inodes, own) && i < |m.inodes|
    ensures var r := Bmap(sb, m, i, bn); r.ok ==> r.a < |r.m.blocks|
  {
    var own', marks := BmapKeeps(sb, m, own, i, bn, Bmap(sb, m, i, bn));
  }

  lemma NoBytes(m: Image, i: nat, off: nat)
    requires i < |m.inodes|
    ensures BytesSet(m, m, i, off, [])
  {
  }

  // Log space.

  /** Number of blocks that hold the `n` bytes from `off` on. */
  function Touched(off: nat, n: nat): nat {
    if n == 0 then 0 else (off + n - 1) / BSIZE - off / BSIZE + 1
  }

  lemma KeptIndirect(m: Image, own: map<nat, Owner>, m': Image, own': map<nat, Owner>, i: nat)
    requires Writes(m, own, m', own', i) && i < |m.inodes|
    ensures m.inodes[i].addrs[NDIRECT] != 0 ==> m'.inodes[i].addrs[NDIRECT] == m.inodes[i].addrs[NDIRECT]
  {
    assert SlotAddr(m'.blocks, m'.inodes[i], NDIRECT) == m'.inodes[i].addrs[NDIRECT];
  }

  /** Everything in `logs` was in `logs0`, or is in `data` or `marks`, or is block `ind`. */
  ghost predicate LogsIn(logs0: seq<nat>, logs: seq<nat>, data: set<nat>, marks: set<nat>, ind: nat) {
    forall x :: x in logs ==> x in logs0 || x in data || x in marks || x == ind != 0
  }

  /** One bit map block for each block allocated among the first `n` bytes from `off` on: the first
      block, when `off` lies within it, is there already. */
  ghost predicate FewMarks(m: Image, m': Image, i: nat, off: nat, n: nat, marks: set<nat>)
    requires i < |m.inodes| == |m'.inodes|
  {
    |marks| <= Touched(off, n) - One(n > 0 && off % BSIZE != 0 && DataAddr(m.blocks, m.inodes[i], off / BSIZE) != 0)
               + One(m.inodes[i].addrs[NDIRECT] == 0 && m'.inodes[i].addrs[NDIRECT] != 0)
  }

  /** The image after `n` of the bytes of `src` were written. */
  ghost predicate Written(sb: Super, m: Image, own: map<nat, Owner>, i: nat, off: nat, s: seq<Byte>, m': Image,
                          own': map<nat, Owner>)
    requires i < |m.inodes|
  {
    Consistent(sb, m'.blocks, m'.inodes, own') && Writes(m, own, m', own', i) && BytesSet(m, m', i, off, s)
  }

  /** The blocks given to the log for up to `n` bytes. */
  ghost predicate Logged(m: Image, logs: seq<nat>, i: nat, off: nat, n: nat, m': Image, logs': seq<nat>, data: set<nat>,
                         marks: set<nat>)
    requires i < |m.inodes| == |m'.inodes|
  {
    && LogsIn(logs, logs', data, marks, m'.inodes[i].addrs[NDIRECT])
    && |data| <= Touched(off, n) && FewMarks(m, m', i, off, n, marks)
  }

  lemma NothingWritten(sb: Super, m: Image, own: map<nat, Owner>, i: nat, off: nat)
    requires Consistent(sb, m.blocks, m.inodes, own) && i < |m.inodes|
    ensures Written(sb, m, own, i, off, [], m, own)
  {
    NoBytes(m, i, off);
  }

  lemma TouchedMore(off: nat, n: nat, k: nat)
    requires n == 0 || (off + n) % BSIZE == 0
    requires 0 < k <= BSIZE - (off + n) % BSIZE
    ensures Touched(off, n + k) == Touched(off, n) + 1
  {
    if n > 0 {
      var q := (off + n) / BSIZE;
      assert (off + n - 1) / BSIZE == q - 1;
      assert (off + n + k - 1) / BSIZE == q;
    }
  }

  lemma NextBlock(off: nat, n: nat)
    requires n == 0 || (off + n) % BSIZE == 0
    ensures (off + n) / BSIZE == off / BSIZE + Touched(off, n)
  {
    if n > 0 {
      var q := (off + n) / BSIZE;
      assert (off + n - 1) / BSIZE == q - 1;
    }
  }

  lemma TouchedMono(off: nat, n: nat, n': nat)
    requires n <= n'
    ensures Touched(off, n) <= Touched(off, n')
  {
  }

  /** A round for `k` more bytes was logged. */
  lemma MoreLogged(m: Image, own: map<nat, Owner>, logs: seq<nat>, i: nat, off: nat, n: nat, m1: Image,
                   own1: map<nat, Owner>, logs1: seq<nat>, data: set<nat>, marks: set<nat>, k: nat, m2: Image,
                   own2: map<nat, Owner>, news: seq<nat>, data': set<nat>, marks': set<nat>)
    requires i < |m.inodes| && Writes(m, own, m1, own1, i) && Writes(m1, own1, m2, own2, i)
    requires (n == 0 || (off + n) % BSIZE == 0) && 0 < k <= BSIZE - (off + n) % BSIZE
    requires Logged(m, logs, i, off, n, m1, logs1, data, marks)
    requires RoundLogged(m1, i, (off + n) / BSIZE, m2, news, data', marks')
    ensures Logged(m, logs, i, off, n + k, m2, logs1 + news, data + data', marks + marks')
  {
    TouchedMore(off, n, k);
    UnionSize(data, data');
    UnionSize(marks, marks');
    KeptIndirect(m, own, m1, own1, i);
    KeptIndirect(m1, own1, m2, own2, i);
    if n == 0 { FirstBlockKept(m, own, m1, own1, i, off); }
  }

  /** What one round gives to the log. */
  ghost predicate RoundLogged(m: Image, i: nat, bn: nat, m': Image, news: seq<nat>, data: set<nat>, marks: set<nat>)
    requires i < |m.inodes| == |m'.inodes|
  {
    && |data| <= 1 && (forall x :: x in news ==> x in data || x in marks || x == m'.inodes[i].addrs[NDIRECT] != 0)
    && |marks| <= One(DataAddr(m.blocks, m.inodes[i], bn) == 0)
                  + One(m.inodes[i].addrs[NDIRECT] == 0 && m'.inodes[i].addrs[NDIRECT] != 0)
  }

  lemma FirstBlockKept(m: Image, own: map<nat, Owner>, m1: Image, own1: map<nat, Owner>, i: nat, off: nat)
    requires Writes(m, own, m1, own1, i) && i < |m.inodes|
    ensures DataAddr(m.blocks, m.inodes[i], off / BSIZE) != 0 ==> DataAddr(m1.blocks, m1.inodes[i], off / BSIZE) != 0
  {
    if off / BSIZE < MAXFILE {
      assert SlotAddr(m.blocks, m.inodes[i], SlotOf(off / BSIZE)) != 0 ==>
               SlotAddr(m1.blocks, m1.inodes[i], SlotOf(off / BSIZE)) ==
                   SlotAddr(m.blocks, m.inodes[i], SlotOf(off / BSIZE));
    }
  }

  // Contents.

  /** `c` with the bytes from `off` on replaced by `s`, longer if need be. */
  function Overwrite(c: seq<Byte>, off: nat, s: seq<Byte>): seq<Byte>
    requires off <= |c|
  {
    c[.. off] + s + (if off + |s| < |c| then c[off + |s| ..] else [])
  }

  function Larger(a: nat, b: nat): nat { if a < b then b else a }

  lemma WrittenByte(m: Image, i: nat, off: nat, s: seq<Byte>, m': Image, j: nat)
    requires i < |m.inodes| == |m'.inodes| && BytesSet(m, m', i, off, s) && off <= m.inodes[i].size
    requires Whole(m.blocks, m.inodes[i]) && j < Larger(m.inodes[i].size, off + |s|)
    ensures HasByte(m', i, j)
    ensures ByteAt(m'.blocks, m'.inodes[i], j) == Overwrite(Content(m.blocks, m.inodes[i]), off, s)[j]
  {
    assert ByteSet(m, m', i, off, s, j);
    if j < m.inodes[i].size { assert DataAddr(m.blocks, m.inodes[i], j / BSIZE) != 0; }
  }

  /** The contents of the file written, once its size covers what was written. */
  lemma WrittenContent(m: Image, i: nat, off: nat, s: seq<Byte>, m': Image, size: nat)
    requires i < |m.inodes| == |m'.inodes| && BytesSet(m, m', i, off, s) && off <= m.inodes[i].size
    requires Whole(m.blocks, m.inodes[i]) && size <= Larger(m.inodes[i].size, off + |s|) && size <= MAXFILE * BSIZE
    ensures var ino := m'.inodes[i].(size := size);
            Whole(m'.blocks, ino) &&
            Content(m'.blocks, ino) == Overwrite(Content(m.blocks, m.inodes[i]), off, s)[.. size]
  {
    var ino := m'.inodes[i].(size := size);
    forall bn | 0 <= bn && bn * BSIZE < size ensures DataAddr(m'.blocks, ino, bn) != 0 {
      WrittenByte(m, i, off, s, m', bn * BSIZE);
    }
    forall j | 0 <= j < size
      ensures Content(m'.blocks, ino)[j] == Overwrite(Content(m.blocks, m.inodes[i]), off, s)[j]
    {
      WrittenByte(m, i, off, s, m', j);
    }
  }

  /** Changing sizes moves no block. */
  lemma SizeMapped(sb: Super, m: Image, own: map<nat, Owner>, i: nat, size: nat)
    requires Mapped(sb, m.blocks, m.inodes, own) && i < |m.inodes|
    ensures Mapped(sb, m.blocks, m.inodes[i := m.inodes[i].(size := size)], own)
  {
    var inodes' := m.inodes[i := m.inodes[i].(size := size)];
    forall k, t | Slot(k, t) && 0 <= k < |inodes'| && 0 <= t < SLOTS
      ensures var a := SlotAddr(m.blocks, inodes'[k], t);
              a != 0 ==> sb.Data(a) && a in own && own[a] == Owner(k, t)
    {
      assert SlotAddr(m.blocks, inodes'[k], t) == SlotAddr(m.blocks, m.inodes[k], t);
    }
  }

  lemma RoundsWritten(sb: Super, m: Image, own: map<nat, Owner>, i: nat, off: nat, src: seq<Byte>, n: nat, m1: Image,
                      own1: map<nat, Owner>, k: nat, m2: Image, own2: map<nat, Owner>)
    requires i < |m.inodes| && n + k <= |src| && Written(sb, m, own, i, off, src[.. n], m1, own1)
    requires i < |m1.inodes| && Written(sb, m1, own1, i, off + n, src[n ..][.. k], m2, own2)
    ensures Written(sb, m, own, i, off, src[.. n + k], m2, own2)
  {
    WritesTrans(m, own, m1, own1, m2, own2, i);
    BytesSetTrans(m, m1, m2, i, off, src[.. n], src[n ..][.. k]);
    assert src[.. n] + src[n ..][.. k] == src[.. n + k];
  }

  lemma LoggedUpTo(m: Image, logs: seq<nat>, i: nat, off: nat, n: nat, m': Image, logs': seq<nat>, data: set<nat>,
                   marks: set<nat>, n': nat)
    requires i < |m.inodes| == |m'.inodes| && n <= n' && (n == 0 ==> n' == 0) &&
             Logged(m, logs, i, off, n, m', logs', data, marks)
    ensures Logged(m, logs, i, off, n', m', logs', data, marks)
  {
    TouchedMono(off, n, n');
  }

  /** Every whole file but `i` is whole and has its contents. */
  ghost predicate OthersSame(m: Image, m': Image, i: nat) {
    && |m'.inodes| == |m.inodes|
    && forall k {:trigger m'.inodes[k]} :: 0 <= k < |m.inodes| && k != i && Whole(m.blocks, m.inodes[k]) ==>
         Whole(m'.blocks, m'.inodes[k]) && Content(m'.blocks, m'.inodes[k]) == Content(m.blocks, m.inodes[k])
  }

  /** File `i`, if whole, is whole with the contents that writing `s` at `off` gives, up to its
      size. */
  ghost predicate FileWritten(m: Image, m': Image, i: nat, off: nat, s: seq<Byte>)
    requires i < |m.inodes| && off <= m.inodes[i].size
  {
    && |m'.inodes| == |m.inodes|
    && (Whole(m.blocks, m.inodes[i]) ==>
          && Whole(m'.blocks, m'.inodes[i])
          && m'.inodes[i].size <= Larger(m.inodes[i].size, off + |s|)
          && Content(m'.blocks, m'.inodes[i]) ==
               Overwrite(Content(m.blocks, m.inodes[i]), off, s)[.. m'.inodes[i].size])
  }

  /** The write of `s` is complete once the size is set. */
  lemma WriteFinished(sb: Super, m: Image, own: map<nat, Owner>, i: nat, off: nat, s: seq<Byte>, m1: Image,
                      own1: map<nat, Owner>, size: nat, m': Image)
    requires sb.Valid() && Mapped(sb, m.blocks, m.inodes, own) && i < |m.inodes| &&
             Written(sb, m, own, i, off, s, m1, own1)
    requires off <= m.inodes[i].size && off + |s| <= MAXFILE * BSIZE
    requires size == m.inodes[i].size || size == Larger(m.inodes[i].size, off + |s|)
    requires i < |m1.inodes| && m' == SetSize(m1, i, size)
    ensures Consistent(sb, m'.blocks, m'.inodes, own1) && OthersSame(m, m', i) && FileWritten(m, m', i, off, s)
  {
    SizeMapped(sb, m1, own1, i, size);
    assert m'.inodes[i] == m1.inodes[i].(size := size) && m'.inodes == m1.inodes[i := m1.inodes[i].(size := size)];
    if Whole(m.blocks, m.inodes[i]) { WrittenContent(m, i, off, s, m1, size); }
    forall k | 0 <= k < |m.inodes| && k != i && Whole(m.blocks, m.inodes[k])
      ensures Whole(m'.blocks, m'.inodes[k]) && Content(m'.blocks, m'.inodes[k]) == Content(m.blocks, m.inodes[k])
    {
      WritesContent(sb, m, own, m1, own1, i, k);
    }
  }

  function SetSize(m: Image, i: nat, size: nat): (r: Image)
    requires i < |m.inodes|
    ensures |r.inodes| == |m.inodes|
    ensures m.inodes[i].size == size ==> r == m
  {
    if m.inodes[i].size == size then m else m.(inodes := m.inodes[i := m.inodes[i].(size := size)])
  }

  lemma OthersKeptSame(sb: Super, m: Image, own: map<nat, Owner>, m1: Image, own1: map<nat, Owner>, i: nat, m': Image)
    requires Mapped(sb, m.blocks, m.inodes, own) && OthersKept(m, own, m1, own1, i) && i < |m.inodes|
    requires m'.blocks == m1.blocks && |m'.inodes| == |m1.inodes| &&
             forall k :: 0 <= k < |m1.inodes| && k != i ==> m'.inodes[k] == m1.inodes[k]
    ensures OthersSame(m, m', i)
  {
    forall k | 0 <= k < |m.inodes| && k != i && Whole(m.blocks, m.inodes[k])
      ensures Whole(m'.blocks, m'.inodes[k]) && Content(m'.blocks, m'.inodes[k]) == Content(m.blocks, m.inodes[k])
    {
      OthersContent(sb, m, own, m1, own1, i, k);
    }
  }
}
