/** The on-disk redo log: geometry, header block, the disk writes of a commit and of a
    recovery, and what recovery makes of any disk image (kernel/src/fslog.rs). */
module LogFormat {

  const MAXOPBLOCKS: nat := 64
  const LOGSIZE: nat := MAXOPBLOCKS * 8 - 1
  /** u64 words in a 4096-byte block. */
  const WORDS: nat := 512

  type Block = b: seq<nat> | |b| == WORDS witness seq(WORDS, i => 0)
  type Disk = seq<Block>

  /** Where the log lives: header block `start`, slots `start + 1 ..< start + size`. */
  datatype Geometry = Geometry(start: nat, size: nat, nblocks: nat) {
    predicate Valid() { 0 < size && start + size <= nblocks }
    predicate Holds(d: Disk) { Valid() && |d| == nblocks }
    predicate Home(b: int) { 0 <= b < nblocks && !(start <= b < start + size) }
    function Slot(i: nat): nat { start + 1 + i }

    /** A block list that fits in the log and names distinct blocks outside it. */
    ghost predicate Loggable(log: seq<nat>) {
      && |log| <= LOGSIZE && |log| + 1 <= size
      && Distinct(log)
      && forall i :: 0 <= i < |log| ==> Home(log[i])
    }
  }

  /** Names a pair of places; proofs mention it to compare those two entries. */
  predicate Places(i: int, j: int) { true }

  ghost predicate Distinct(log: seq<nat>) {
    forall i, j {:trigger Places(i, j)} :: Places(i, j) && 0 <= i < j < |log| ==> log[i] != log[j]
  }

  lemma DistinctFrom(log: seq<nat>, j: nat)
    requires Distinct(log) && j < |log|
    ensures forall i :: 0 <= i < |log| && i != j ==> log[i] != log[j]
  {
    forall i | 0 <= i < |log| && i != j ensures log[i] != log[j] {
      assert Places(i, j) && Places(j, i);
    }
  }

  // Header block: word 0 is the length, the next words are the block numbers.

  function EncodeHeader(hb: Block, log: seq<nat>): Block
    requires |log| <= LOGSIZE
  {
    [|log|] + log + hb[1 + |log|..]
  }

  /** The block list a header block names; a length no block can hold names nothing. */
  function Header(b: Block): seq<nat> {
    if b[0] <= LOGSIZE then b[1..1 + b[0]] else []
  }

  lemma HeaderRoundTrip(hb: Block, log: seq<nat>)
    requires |log| <= LOGSIZE
    ensures Header(EncodeHeader(hb, log)) == log
  {
  }

  /** `Log::insert`: append unless already present. */
  function Insert(log: seq<nat>, b: nat): seq<nat> {
    if b in log then log else log + [b]
  }

  function InsertAll(log: seq<nat>, bs: seq<nat>): seq<nat>
    decreases |bs|
  {
    if bs == [] then log else InsertAll(Insert(log, bs[0]), bs[1..])
  }

  lemma {:induction false} InsertAllDistinct(log: seq<nat>, bs: seq<nat>)
    requires Distinct(log + bs)
    ensures InsertAll(log, bs) == log + bs
    decreases |bs|
  {
    if bs != [] {
      var all := log + bs;
      forall i | 0 <= i < |log| ensures log[i] != bs[0] {
        assert Places(i, |log|) && all[i] == log[i] && all[|log|] == bs[0];
      }
      assert log + [bs[0]] + bs[1..] == log + bs;
      InsertAllDistinct(log + [bs[0]], bs[1..]);
    } else {
      assert log + bs == log;
    }
  }

  /** `Log::read`: the block list loaded at boot, or None where the code panics. */
  datatype Loaded = TooLarge | Loaded(log: seq<nat>)
  function LoadHeader(g: Geometry, hb: Block): Loaded {
    if hb[0] >= LOGSIZE || hb[0] >= g.size - 1 then TooLarge
    else Loaded(InsertAll([], hb[1..1 + hb[0]]))
  }

  /** What boot loads, word by word. */
  lemma LoadHeaderWords(g: Geometry, hb: Block)
    requires LoadHeader(g, hb).Loaded? && Distinct(hb[1 .. 1 + hb[0]])
    ensures var log := LoadHeader(g, hb).log; |log| == hb[0] && forall i :: 0 <= i < |log| ==> log[i] == hb[1 + i]
  {
    var src := hb[1 .. 1 + hb[0]];
    assert [] + src == src;
    InsertAllDistinct([], src);
  }

  // Disk writes.

  datatype Write = Write(blockno: nat, data: Block)

  ghost predicate InRange(ws: seq<Write>, n: nat) {
    forall i :: 0 <= i < |ws| ==> ws[i].blockno < n
  }

  /** The disk after a list of atomic block writes. */
  function Apply(d: Disk, ws: seq<Write>): (r: Disk)
    requires InRange(ws, |d|)
    ensures |r| == |d|
  {
    if ws == [] then d
    else
      var last := ws[|ws| - 1];
      Apply(d, ws[..|ws| - 1])[last.blockno := last.data]
  }

  lemma {:induction false} ApplyAppend(d: Disk, ws: seq<Write>, w: Write)
    requires InRange(ws, |d|) && w.blockno < |d|
    ensures InRange(ws + [w], |d|)
    ensures Apply(d, ws + [w]) == Apply(d, ws)[w.blockno := w.data]
  {
    assert (ws + [w])[..|ws|] == ws;
  }

  lemma {:induction false} ApplyConcat(d: Disk, ws: seq<Write>, more: seq<Write>)
    requires InRange(ws, |d|) && InRange(more, |d|)
    ensures InRange(ws + more, |d|)
    ensures Apply(d, ws + more) == Apply(Apply(d, ws), more)
    decreases |more|
  {
    if more == [] {
      assert ws + more == ws;
    } else {
      var n := |more| - 1;
      ApplyConcat(d, ws, more[..n]);
      assert (ws + more)[..|ws + more| - 1] == ws + more[..n];
    }
  }

  /** The k-th disk write of `op::commit` for block list `log` with new contents `data`: first
      `Log::sync` fills the slots, then the header goes out, then `Log::commit` copies every
      slot home, then the header is cleared. */
  function CommitWrite(g: Geometry, hb: Block, log: seq<nat>, data: seq<Block>, k: nat): Write
    requires |log| == |data| <= LOGSIZE && k < 2 * |log| + 2
  {
    var n := |log|;
    if k < n then Write(g.Slot(k), data[k])
    else if k == n then Write(g.start, EncodeHeader(hb, log))
    else if k <= 2 * n then Write(log[k - n - 1], data[k - n - 1])
    else Write(g.start, EncodeHeader(EncodeHeader(hb, log), []))
  }

  /** All disk writes of `op::commit` in order; an empty transaction writes nothing. */
  function CommitWrites(g: Geometry, hb: Block, log: seq<nat>, data: seq<Block>): (ws: seq<Write>)
    requires |log| == |data| <= LOGSIZE
    ensures |ws| == if log == [] then 0 else 2 * |log| + 2
  {
    seq(if log == [] then 0 else 2 * |log| + 2,
        k requires 0 <= k < 2 * |log| + 2 => CommitWrite(g, hb, log, data, k))
  }

  /** All disk writes of boot-time `recover` on disk `d`, once the header was accepted. */
  function RecoveryWrites(g: Geometry, d: Disk, log: seq<nat>): (ws: seq<Write>)
    requires g.Holds(d) && |log| + 1 <= g.size
    ensures |ws| == |log| + 1
  {
    seq(|log| + 1, k requires 0 <= k <= |log| =>
      if k < |log| then Write(log[k], d[g.Slot(k)]) else Write(g.start, EncodeHeader(d[g.start], [])))
  }

  // What recovery makes of a disk image, block by block.

  function IndexOf(log: seq<nat>, b: nat): (i: nat)
    requires b in log
    ensures i < |log| && log[i] == b
  {
    if log[0] == b then 0 else 1 + IndexOf(log[1..], b)
  }

  ghost predicate Replayable(g: Geometry, d: Disk) {
    g.Holds(d) && d[g.start][0] <= LOGSIZE && g.Loggable(Header(d[g.start]))
  }

  /** The contents home block `b` has once recovery has completed on disk `d`. */
  function Recovered(g: Geometry, d: Disk, b: nat): Block
    requires Replayable(g, d) && g.Home(b)
  {
    var h := Header(d[g.start]);
    if b in h then d[g.Slot(IndexOf(h, b))] else d[b]
  }

  ghost predicate SameRecovered(g: Geometry, d: Disk, e: Disk) {
    && Replayable(g, d) && Replayable(g, e)
    && forall b {:trigger Recovered(g, d, b)} {:trigger Recovered(g, e, b)} ::
         g.Home(b) ==> Recovered(g, d, b) == Recovered(g, e, b)
  }

  lemma LoadHeaderIsHeader(g: Geometry, d: Disk)
    requires Replayable(g, d)
    ensures LoadHeader(g, d[g.start]).Loaded? ==> LoadHeader(g, d[g.start]).log == Header(d[g.start])
  {
    var log := Header(d[g.start]);
    assert [] + log == log;
    InsertAllDistinct([], log);
  }

  /** How far a recovery that has done `k` of its writes has come. */
  ghost predicate RecoveryDisk(g: Geometry, d: Disk, log: seq<nat>, k: nat, e: Disk)
    requires g.Holds(d) && g.Loggable(log)
  {
    && |e| == |d|
    && (k <= |log| ==> e[g.start] == d[g.start])
    && (k > |log| ==> e[g.start] == EncodeHeader(d[g.start], []))
    && (forall i :: 0 <= i < |log| ==> e[g.Slot(i)] == d[g.Slot(i)])
    && (forall b :: g.Home(b) && b !in log ==> e[b] == d[b])
    && (forall i :: 0 <= i < |log| ==> e[log[i]] == if i < k then d[g.Slot(i)] else d[log[i]])
  }

  lemma RecoveryStep(g: Geometry, d: Disk, log: seq<nat>, k: nat, e: Disk)
    requires g.Holds(d) && g.Loggable(log) && k <= |log|
    requires RecoveryDisk(g, d, log, k, e)
    ensures var w := RecoveryWrites(g, d, log)[k];
            w.blockno < |e| && RecoveryDisk(g, d, log, k + 1, e[w.blockno := w.data])
  {
    var w := RecoveryWrites(g, d, log)[k];
    if k < |log| {
      DistinctFrom(log, k);
    }
  }

  lemma {:induction false} RecoveryPrefix(g: Geometry, d: Disk, log: seq<nat>, k: nat)
    requires g.Holds(d) && g.Loggable(log) && k <= |log| + 1
    ensures InRange(RecoveryWrites(g, d, log)[..k], |d|)
    ensures RecoveryDisk(g, d, log, k, Apply(d, RecoveryWrites(g, d, log)[..k]))
    decreases k
  {
    var ws := RecoveryWrites(g, d, log);
    if k > 0 {
      RecoveryPrefix(g, d, log, k - 1);
      assert ws[..k] == ws[..k - 1] + [ws[k - 1]];
      RecoveryStep(g, d, log, k - 1, Apply(d, ws[..k - 1]));
      ApplyAppend(d, ws[..k - 1], ws[k - 1]);
    }
  }

  /** A crash after any number of recovery's writes leaves a disk that recovers to the same
      home contents. */
  lemma RecoveryCrashSafe(g: Geometry, d: Disk, k: nat)
    requires Replayable(g, d) && k <= |Header(d[g.start])| + 1
    ensures InRange(RecoveryWrites(g, d, Header(d[g.start]))[..k], |d|)
    ensures SameRecovered(g, d, Apply(d, RecoveryWrites(g, d, Header(d[g.start]))[..k]))
  {
    var log := Header(d[g.start]);
    RecoveryPrefix(g, d, log, k);
    var e := Apply(d, RecoveryWrites(g, d, log)[..k]);
    HeaderRoundTrip(d[g.start], []);
    forall b | g.Home(b) ensures Recovered(g, d, b) == Recovered(g, e, b) {
      if b in log {
        var i := IndexOf(log, b);
        assert e[log[i]] == if i < k then d[g.Slot(i)] else d[log[i]];
      }
    }
  }

  /** `e` is `d` after a recovery attempt that got out `k` of its writes. */
  ghost predicate CrashedBoot(g: Geometry, d: Disk, e: Disk, k: nat) {
    && Replayable(g, d)
    && var ws := RecoveryWrites(g, d, Header(d[g.start]));
       k <= |ws| && InRange(ws[..k], |d|) && e == Apply(d, ws[..k])
  }

  /** Disks that can be on the platter after any number of crashed recoveries: the j-th attempt
      got out `crashes[j]` writes. */
  ghost predicate CrashedBoots(g: Geometry, ds: seq<Disk>, crashes: seq<nat>) {
    && |ds| == |crashes| + 1
    && Replayable(g, ds[0])
    && forall j :: 0 <= j < |crashes| ==> CrashedBoot(g, ds[j], ds[j + 1], crashes[j])
  }

  lemma {:induction false} RepeatedCrashes(g: Geometry, ds: seq<Disk>, crashes: seq<nat>)
    requires CrashedBoots(g, ds, crashes)
    ensures SameRecovered(g, ds[0], ds[|ds| - 1])
    decreases |ds|
  {
    if |crashes| > 0 {
      var n := |crashes|;
      assert CrashedBoots(g, ds[..n], crashes[..n - 1]);
      RepeatedCrashes(g, ds[..n], crashes[..n - 1]);
      assert CrashedBoot(g, ds[n - 1], ds[n], crashes[n - 1]);
      RecoveryCrashSafe(g, ds[n - 1], crashes[n - 1]);
    }
  }

  /** A recovery that completes leaves the recovered contents in the home blocks and an
      empty log. */
  lemma RecoveryCompletes(g: Geometry, d: Disk)
    requires Replayable(g, d)
    ensures var log := Header(d[g.start]);
            var ws := RecoveryWrites(g, d, log);
            && InRange(ws, |d|)
            && Header(Apply(d, ws)[g.start]) == []
            && forall b :: g.Home(b) ==> Apply(d, ws)[b] == Recovered(g, d, b)
  {
    var log := Header(d[g.start]);
    var ws := RecoveryWrites(g, d, log);
    RecoveryPrefix(g, d, log, |ws|);
    assert ws[..|ws|] == ws;
    HeaderRoundTrip(d[g.start], []);
  }

  /** Running recovery again on a recovered disk changes no block. */
  lemma RecoveryIdempotent(g: Geometry, d: Disk)
    requires Replayable(g, d)
    ensures var ws := RecoveryWrites(g, d, Header(d[g.start]));
            InRange(ws, |d|) &&
            var e := Apply(d, ws);
            && LoadHeader(g, e[g.start]) == (if g.size > 1 then Loaded([]) else TooLarge)
            && InRange(RecoveryWrites(g, e, []), |e|)
            && Apply(e, RecoveryWrites(g, e, [])) == e
  {
    var log := Header(d[g.start]);
    var ws := RecoveryWrites(g, d, log);
    RecoveryPrefix(g, d, log, |ws|);
    assert ws[..|ws|] == ws;
    var e := Apply(d, ws);
    assert EncodeHeader(e[g.start], []) == e[g.start];
    var again := RecoveryWrites(g, e, []);
    assert again == [] + [Write(g.start, e[g.start])];
    ApplyAppend(e, [], again[0]);
  }

  // Commit.

  /** The disk after `k` writes of a commit that started on `d`. */
  ghost predicate CommitDisk(g: Geometry, d: Disk, log: seq<nat>, data: seq<Block>, k: nat, e: Disk)
    requires g.Holds(d) && g.Loggable(log) && |data| == |log|
  {
    var n := |log|;
    && |e| == |d|
    && (k <= n ==> e[g.start] == d[g.start])
    && (n < k <= 2 * n + 1 ==> e[g.start] == EncodeHeader(d[g.start], log))
    && (k > 2 * n + 1 ==> e[g.start] == EncodeHeader(EncodeHeader(d[g.start], log), []))
    && (forall i :: 0 <= i < n && i < k ==> e[g.Slot(i)] == data[i])
    && (forall b :: g.Home(b) && b !in log ==> e[b] == d[b])
    && (forall i :: 0 <= i < n ==> e[log[i]] == if i + n + 1 < k then data[i] else d[log[i]])
  }

  lemma CommitStep(g: Geometry, d: Disk, log: seq<nat>, data: seq<Block>, k: nat, w: Write, e: Disk)
    requires g.Holds(d) && g.Loggable(log) && |data| == |log| > 0 && k < 2 * |log| + 2
    requires CommitDisk(g, d, log, data, k, e) && w == CommitWrite(g, d[g.start], log, data, k)
    ensures w.blockno < |e| && CommitDisk(g, d, log, data, k + 1, e[w.blockno := w.data])
  {
    if |log| < k <= 2 * |log| {
      DistinctFrom(log, k - |log| - 1);
    }
  }

  lemma CommitInRange(g: Geometry, hb: Block, log: seq<nat>, data: seq<Block>)
    requires g.Valid() && g.Loggable(log) && |data| == |log|
    ensures InRange(CommitWrites(g, hb, log, data), g.nblocks)
  {
  }

  lemma ApplyPrefix(d: Disk, ws: seq<Write>, k: nat)
    requires k < |ws| && InRange(ws, |d|)
    ensures Apply(d, ws[..k + 1]) == Apply(d, ws[..k])[ws[k].blockno := ws[k].data]
  {
    assert ws[..k + 1] == ws[..k] + [ws[k]];
    ApplyAppend(d, ws[..k], ws[k]);
  }

  lemma CommitNext(g: Geometry, d: Disk, log: seq<nat>, data: seq<Block>, ws: seq<Write>, k: nat)
    requires g.Holds(d) && g.Loggable(log) && |data| == |log| > 0 && k < |ws| == 2 * |log| + 2
    requires InRange(ws, |d|) && ws[k] == CommitWrite(g, d[g.start], log, data, k)
    requires CommitDisk(g, d, log, data, k, Apply(d, ws[..k]))
    ensures CommitDisk(g, d, log, data, k + 1, Apply(d, ws[..k + 1]))
  {
    var e := Apply(d, ws[..k]);
    CommitStep(g, d, log, data, k, ws[k], e);
    assert Apply(d, ws[..k + 1]) == e[ws[k].blockno := ws[k].data] by { ApplyPrefix(d, ws, k); }
  }

  lemma {:induction false} CommitPrefix(g: Geometry, d: Disk, log: seq<nat>, data: seq<Block>, k: nat)
    requires g.Holds(d) && g.Loggable(log) && |data| == |log| > 0 && k <= 2 * |log| + 2
    requires InRange(CommitWrites(g, d[g.start], log, data), |d|)
    ensures CommitDisk(g, d, log, data, k, Apply(d, CommitWrites(g, d[g.start], log, data)[..k]))
    decreases k
  {
    var ws := CommitWrites(g, d[g.start], log, data);
    if k > 0 {
      CommitPrefix(g, d, log, data, k - 1);
      CommitNext(g, d, log, data, ws, k - 1);
    }
  }

  /** The home contents a committed transaction must have. */
  function Updated(d: Disk, log: seq<nat>, data: seq<Block>, b: nat): Block
    requires |data| == |log| && b < |d|
  {
    if b in log then data[IndexOf(log, b)] else d[b]
  }

  /** Crash atomicity: stopped after any number of its disk writes, a commit leaves a disk that
      recovers to the old contents everywhere (header not out yet) or to the new contents
      everywhere. */
  lemma CommitCrashAtomic(g: Geometry, d: Disk, log: seq<nat>, data: seq<Block>, k: nat)
    requires g.Holds(d) && d[g.start][0] == 0
    requires g.Loggable(log) && |data| == |log|
    requires k <= |CommitWrites(g, d[g.start], log, data)|
    ensures var ws := CommitWrites(g, d[g.start], log, data)[..k];
            InRange(ws, |d|) &&
            var e := Apply(d, ws);
            && Replayable(g, e)
            && forall b :: g.Home(b) ==>
                 Recovered(g, e, b) == if k <= |log| then d[b] else Updated(d, log, data, b)
  {
    var ws := CommitWrites(g, d[g.start], log, data);
    if log == [] {
      assert ws[..k] == [];
    } else {
      CommitInRange(g, d[g.start], log, data);
      CommitPrefix(g, d, log, data, k);
      var e := Apply(d, ws[..k]);
      HeaderRoundTrip(d[g.start], log);
      HeaderRoundTrip(EncodeHeader(d[g.start], log), []);
      forall b | g.Home(b)
        ensures Recovered(g, e, b) == if k <= |log| then d[b] else Updated(d, log, data, b)
      {
        if b in log {
          var i := IndexOf(log, b);
          assert e[log[i]] == if i + |log| + 1 < k then data[i] else d[log[i]];
          assert i < k ==> e[g.Slot(i)] == data[i];
        }
      }
    }
  }

  /** What boot does with the header a commit wrote: it loads exactly the committed list, if and
      only if the list is shorter than `size - 1` (and than LOGSIZE). */
  lemma BootAcceptsIff(g: Geometry, hb: Block, log: seq<nat>)
    requires |log| <= LOGSIZE && Distinct(log)
    ensures LoadHeader(g, EncodeHeader(hb, log)) ==
            if |log| < LOGSIZE && |log| < g.size - 1 then Loaded(log) else TooLarge
  {
    var b := EncodeHeader(hb, log);
    assert b[1..1 + |log|] == log;
    assert [] + log == log;
    InsertAllDistinct([], log);
  }
}
