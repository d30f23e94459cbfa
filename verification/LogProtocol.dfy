/** The log protocol as a transition system: concurrent operations, the committer, buffer
    recycling, crashes at any point and boot-time replay (kernel/src/fslog.rs:190-276,
    kernel/src/bio.rs:229-260). One step is one critical section or one disk write. */
module LogProtocol {
  import opened LogFormat

  type OpId = nat

  datatype Buf = Buf(data: Block, dirty: bool)

  /** One logged modification: operation `op` gave home block `b` the contents `data`. */
  datatype Change = Change(op: OpId, b: nat, data: Block)

  datatype Panic = TransactionTooBig | EndDuringCommit | CorruptLog

  datatype Phase =
    | Running                  // no commit in progress
    | Committing(k: nat)       // `op::commit` has done k of its disk writes
    | Finishing                // commit done, `committing` not yet reset
    | Booting                  // memory lost, header not read yet
    | Replaying(k: nat)        // `recover` has done k of its disk writes
    | Halted(why: Panic)

  datatype State = State(
    disk: Disk,
    cache: map<nat, Buf>,
    stray: set<nat>,           // cached blocks changed without being logged (`trunc1`)
    log: seq<nat>,             // `Log::header`
    outstanding: nat,
    committing: bool,
    phase: Phase,
    ops: map<OpId, set<nat>>,  // active operations and the blocks each has logged
    waiting: set<OpId>,        // asleep in `op::begin`
    done: set<OpId>,           // operations that ended or died in a crash
    changes: seq<Change>,      // every logged change still in effect, oldest first
    durable: nat)              // how many of them are committed

  // The abstract file-system contents: a disk image and a list of changes to it.

  function Replay(d: Disk, cs: seq<Change>): (r: Disk)
    ensures |r| == |d|
  {
    if cs == [] then d
    else
      var r := Replay(d, cs[..|cs| - 1]);
      var c := cs[|cs| - 1];
      if c.b < |r| then r[c.b := c.data] else r
  }

  function Current(d0: Disk, s: State): (r: Disk)
    ensures |r| == |d0|
  {
    Replay(d0, s.changes)
  }

  function Stable(d0: Disk, s: State): (r: Disk)
    ensures |r| == |d0|
  {
    Replay(d0, s.changes[..if s.durable <= |s.changes| then s.durable else 0])
  }

  function View(s: State, b: nat): Block
    requires b < |s.disk|
  {
    if b in s.cache then s.cache[b].data else s.disk[b]
  }

  function IsFull(g: Geometry, log: seq<nat>): bool {
    |log| >= g.size - 1 || |log| >= LOGSIZE
  }

  // Steps.

  ghost predicate Up(s: State) {
    s.phase.Running? || s.phase.Committing? || s.phase.Finishing?
  }

  /** `op::begin`, one pass of its loop: sleep, or enter. */
  ghost predicate Begin(s: State, t: State, p: OpId) {
    && Up(s) && p !in s.ops && p !in s.waiting && p !in s.done
    && t == if s.committing || |s.log| + (s.outstanding + 1) * MAXOPBLOCKS > LOGSIZE
            then s.(waiting := s.waiting + {p})
            else s.(outstanding := s.outstanding + 1, ops := s.ops[p := {}])
  }

  /** A buffer modification followed by `fslog::write`. */
  ghost predicate LogWrite(g: Geometry, s: State, t: State, p: OpId, b: nat, data: Block) {
    && Up(s) && p in s.ops && g.Home(b) && b in s.cache
    && t == if IsFull(g, s.log) then s.(phase := Halted(TransactionTooBig))
            else s.(cache := s.cache[b := Buf(data, true)],
                    stray := s.stray - {b},
                    log := Insert(s.log, b),
                    ops := s.ops[p := s.ops[p] + {b}],
                    changes := s.changes + [Change(p, b, data)])
  }

  /** A buffer modification that is not logged: `trunc1` on a cached indirect block. On a block that
      is already in the log it rides along with the transaction. */
  ghost predicate Scribble(g: Geometry, s: State, t: State, p: OpId, b: nat, data: Block) {
    && Up(s) && p in s.ops && g.Home(b) && b in s.cache
    && t == if b in s.log
            then s.(cache := s.cache[b := Buf(data, true)], changes := s.changes + [Change(p, b, data)])
            else s.(cache := s.cache[b := s.cache[b].(data := data)], stray := s.stray + {b})
  }

  /** `bio::read` of a block that is not cached. */
  ghost predicate Fetch(s: State, t: State, b: nat) {
    && (Up(s) || s.phase.Replaying?) && b < |s.disk| && b !in s.cache
    && t == s.(cache := s.cache[b := Buf(s.disk[b], false)])
  }

  /** `bget` recycles a buffer; it never takes a DIRTY one. */
  ghost predicate Recycle(s: State, t: State, b: nat) {
    && (Up(s) || s.phase.Replaying?) && b in s.cache && !s.cache[b].dirty
    && t == s.(cache := s.cache - {b}, stray := s.stray - {b})
  }

  /** `op::end`'s critical section. */
  ghost predicate End(s: State, t: State, p: OpId) {
    && Up(s) && p in s.ops && s.outstanding > 0
    && t == if s.committing then s.(phase := Halted(EndDuringCommit))
            else
              var u := s.(ops := s.ops - {p}, done := s.done + {p}, outstanding := s.outstanding - 1);
              if u.outstanding == 0
              then u.(committing := true, phase := if s.log == [] then Finishing else Committing(0))
              else u.(waiting := {})
  }

  /** The disk write `op::commit` issues next, from what the cache and the disk hold now. */
  function NextWrite(g: Geometry, s: State, k: nat): (w: Write)
    requires g.Holds(s.disk) && g.Loggable(s.log) && k < 2 * |s.log| + 2
    ensures w.blockno < |s.disk|
  {
    var n := |s.log|;
    if k < n then Write(g.Slot(k), View(s, s.log[k]))
    else if k == n then Write(g.start, EncodeHeader(View(s, g.start), s.log))
    else if k <= 2 * n then Write(s.log[k - n - 1], View(s, g.Slot(k - n - 1)))
    else Write(g.start, EncodeHeader(View(s, g.start), []))
  }

  function DoWrite(s: State, w: Write): State
    requires w.blockno < |s.disk|
  {
    s.(disk := s.disk[w.blockno := w.data],
       cache := s.cache[w.blockno := Buf(w.data, false)],
       stray := s.stray - {w.blockno})
  }

  ghost predicate CommitStep(g: Geometry, s: State, t: State) {
    && s.phase.Committing? && g.Holds(s.disk) && g.Loggable(s.log)
    && s.phase.k < 2 * |s.log| + 2
    && var k, n := s.phase.k, |s.log|;
       var u := DoWrite(s, NextWrite(g, s, k));
       t == if k == n then u.(phase := Committing(k + 1), durable := |s.changes|)
            else if k < 2 * n + 1 then u.(phase := Committing(k + 1))
            else u.(phase := Finishing, log := [])
  }

  ghost predicate FinishCommit(s: State, t: State) {
    && s.phase.Finishing?
    && t == s.(phase := Running, committing := false, waiting := {})
  }

  /** Power fails: the disk stays, memory is gone, active operations die. */
  ghost predicate Crash(s: State, t: State) {
    && s.durable <= |s.changes|
    && t == State(s.disk, map[], {}, [], 0, false, Booting, map[], {},
                  s.done + s.ops.Keys + s.waiting, s.changes[..s.durable], s.durable)
  }

  ghost predicate ReadLog(g: Geometry, s: State, t: State) {
    && s.phase.Booting? && g.Holds(s.disk)
    && t == match LoadHeader(g, s.disk[g.start])
            case TooLarge => s.(phase := Halted(CorruptLog))
            case Loaded(log) => s.(phase := Replaying(0), log := log)
  }

  ghost predicate ReplayStep(g: Geometry, s: State, t: State) {
    && s.phase.Replaying? && g.Holds(s.disk) && g.Loggable(s.log) && s.phase.k <= |s.log|
    && var k, n := s.phase.k, |s.log|;
       var u := DoWrite(s, NextWrite(g, s, n + 1 + k));
       t == if k < n then u.(phase := Replaying(k + 1)) else u.(phase := Running, log := [])
  }

  datatype Action =
    | ABegin(p: OpId)
    | ALogWrite(p: OpId, b: nat, data: Block)
    | AScribble(p: OpId, b: nat, data: Block)
    | AFetch(b: nat)
    | ARecycle(b: nat)
    | AEnd(p: OpId)
    | ACommitStep
    | AFinishCommit
    | ACrash
    | AReadLog
    | AReplayStep

  ghost predicate Step(g: Geometry, s: State, t: State, a: Action) {
    match a
    case ABegin(p) => Begin(s, t, p)
    case ALogWrite(p, b, data) => LogWrite(g, s, t, p, b, data)
    case AScribble(p, b, data) => Scribble(g, s, t, p, b, data)
    case AFetch(b) => Fetch(s, t, b)
    case ARecycle(b) => Recycle(s, t, b)
    case AEnd(p) => End(s, t, p)
    case ACommitStep => CommitStep(g, s, t)
    case AFinishCommit => FinishCommit(s, t)
    case ACrash => Crash(s, t)
    case AReadLog => ReadLog(g, s, t)
    case AReplayStep => ReplayStep(g, s, t)
  }

  /** A freshly made file system, about to boot. */
  ghost predicate Init(g: Geometry, d0: Disk, s: State) {
    && g.Holds(d0) && d0[g.start][0] == 0
    && s == State(d0, map[], {}, [], 0, false, Booting, map[], {}, {}, [], 0)
  }

  ghost predicate Run(g: Geometry, d0: Disk, ss: seq<State>, acts: seq<Action>) {
    && |ss| == |acts| + 1 && Init(g, d0, ss[0])
    && forall i :: 0 <= i < |acts| ==> Step(g, ss[i], ss[i + 1], acts[i])
  }

  // The invariant of every reachable state, in parts that mention only what they constrain.

  ghost predicate IsUp(ph: Phase) {
    ph.Running? || ph.Committing? || ph.Finishing?
  }

  /** Bookkeeping under the log lock. */
  ghost predicate ProtocolInv(s: State) {
    && (Up(s) ==>
          && s.outstanding == |s.ops|
          && (s.committing <==> !s.phase.Running?)
          && (s.committing ==> s.ops == map[])
          && (s.phase.Running? && s.ops == map[] ==> s.log == [])
          && (s.phase.Finishing? ==> s.log == [])
          && (s.waiting != {} ==> s.outstanding > 0 || s.committing))
    && (s.phase.Booting? || s.phase.Replaying? ==>
          s.ops == map[] && s.waiting == {} && s.outstanding == 0 && !s.committing)
  }

  /** The list of changes: the committed ones belong to ended operations, and no operation has
      changes on both sides of the commit point. */
  ghost predicate HistoryInv(g: Geometry, cs: seq<Change>, durable: nat, active: set<OpId>, done: set<OpId>) {
    && durable <= |cs|
    && active !! done
    && (forall i :: 0 <= i < |cs| ==> g.Home(cs[i].b) && (cs[i].op in active || cs[i].op in done))
    && (forall i :: 0 <= i < durable ==> cs[i].op in done)
    && (forall i, j :: 0 <= i < durable <= j < |cs| ==> cs[i].op != cs[j].op)
  }

  /** The header is on disk and not cleared yet. */
  ghost predicate Published(n: nat, ph: Phase) {
    ph.Replaying? || (ph.Committing? && ph.k > n)
  }

  /** Block list entry `i` of `n` has been copied home. */
  ghost predicate Installed(n: nat, ph: Phase, i: nat) {
    || (ph.Replaying? && i < ph.k)
    || (ph.Committing? && n + 1 + i < ph.k)
  }

  ghost predicate LogInv(g: Geometry, log: seq<nat>, ph: Phase) {
    && (!ph.Halted? && !ph.Booting? ==> g.Loggable(log))
    && (ph.Booting? ==> log == [])
    && (ph.Committing? ==> log != [] && ph.k <= 2 * |log| + 1)
    && (ph.Replaying? ==> ph.k <= |log|)
  }

  /** In every state whatever, recovering the disk gives exactly the committed contents. */
  ghost predicate DiskInv(g: Geometry, disk: Disk, stable: Disk) {
    && |stable| == |disk|
    && Replayable(g, disk)
    && forall b {:trigger Recovered(g, disk, b)} :: g.Home(b) ==> Recovered(g, disk, b) == stable[b]
  }

  /** How far the commit or the replay has come on disk. */
  ghost predicate ProgressInv(g: Geometry, disk: Disk, log: seq<nat>, ph: Phase, cur: Disk)
    requires LogInv(g, log, ph) && g.Holds(disk) && |cur| == |disk|
  {
    && (Published(|log|, ph) ==> Header(disk[g.start]) == log)
    && (IsUp(ph) && !Published(|log|, ph) ==> Header(disk[g.start]) == [])
    && (ph.Committing? ==> forall i :: 0 <= i < |log| && i < ph.k ==> disk[g.Slot(i)] == cur[log[i]])
    && (!ph.Halted? && !ph.Booting? ==>
          forall i :: 0 <= i < |log| && Installed(|log|, ph, i) ==> disk[log[i]] == disk[g.Slot(i)])
  }

  /** Changes that are not committed are all in the log. */
  ghost predicate PendingInv(g: Geometry, s: State, cur: Disk, stable: Disk)
    requires |cur| == |stable| == g.nblocks
  {
    && (Up(s) ==> forall b :: g.Home(b) && b !in s.log ==> cur[b] == stable[b])
    && (Published(|s.log|, s.phase) ==> s.durable == |s.changes|)
    && (!s.phase.Halted? && s.log == [] ==> s.durable == |s.changes|)
  }

  /** Buffers: log blocks and clean unscribbled home blocks match the disk. */
  ghost predicate CleanInv(g: Geometry, disk: Disk, cache: map<nat, Buf>, stray: set<nat>, log: seq<nat>) {
    && (forall b :: b in cache ==> b < |disk|)
    && (forall b :: b in cache && !g.Home(b) ==> cache[b] == Buf(disk[b], false))
    && (forall b :: b in cache && !cache[b].dirty && b !in stray ==> cache[b].data == disk[b])
    && (forall b :: b in stray ==> b in cache && !cache[b].dirty && b !in log)
    && (forall b :: b in cache && cache[b].dirty ==> b in log)
  }

  /** Pinning: until it is installed, every logged block is cached, dirty, and holds the
      transaction's contents. */
  ghost predicate PinInv(g: Geometry, cache: map<nat, Buf>, log: seq<nat>, ph: Phase, cur: Disk) {
    IsUp(ph) ==>
      && (forall i :: 0 <= i < |log| && !Installed(|log|, ph, i) ==>
            log[i] < |cur| && log[i] in cache && cache[log[i]] == Buf(cur[log[i]], true))
      && (forall i :: 0 <= i < |log| && Installed(|log|, ph, i) && log[i] in cache ==>
            !cache[log[i]].dirty)
  }

  ghost predicate BootInv(s: State) {
    s.phase.Replaying? || s.phase.Booting? ==>
      s.stray == {} && forall b :: b in s.cache ==> !s.cache[b].dirty
  }

  ghost predicate Books(g: Geometry, s: State) {
    && ProtocolInv(s)
    && HistoryInv(g, s.changes, s.durable, s.ops.Keys, s.done)
    && LogInv(g, s.log, s.phase)
  }

  ghost predicate Media(g: Geometry, s: State, cur: Disk, stable: Disk)
    requires LogInv(g, s.log, s.phase) && |cur| == |stable|
  {
    && DiskInv(g, s.disk, stable)
    && ProgressInv(g, s.disk, s.log, s.phase, cur)
    && PendingInv(g, s, cur, stable)
    && (!s.phase.Halted? ==> CleanInv(g, s.disk, s.cache, s.stray, s.log))
    && PinInv(g, s.cache, s.log, s.phase, cur)
    && BootInv(s)
  }

  ghost predicate Inv(g: Geometry, d0: Disk, s: State) {
    Books(g, s) && Media(g, s, Current(d0, s), Stable(d0, s))
  }

  lemma InitInv(g: Geometry, d0: Disk, s: State)
    requires Init(g, d0, s)
    ensures Inv(g, d0, s)
  {
  }

  lemma ReplayAppend(d: Disk, cs: seq<Change>, c: Change)
    requires c.b < |d|
    ensures Replay(d, cs + [c]) == Replay(d, cs)[c.b := c.data]
  {
    assert (cs + [c])[..|cs|] == cs;
  }

  lemma BeginBooks(g: Geometry, s: State, t: State, p: OpId)
    requires Books(g, s) && Begin(s, t, p)
    ensures Books(g, t)
  {
  }

  lemma BeginInv(g: Geometry, d0: Disk, s: State, t: State, p: OpId)
    requires Inv(g, d0, s) && Begin(s, t, p)
    ensures Inv(g, d0, t)
  {
    BeginBooks(g, s, t, p);
  }

  lemma FetchInv(g: Geometry, d0: Disk, s: State, t: State, b: nat)
    requires Inv(g, d0, s) && Fetch(s, t, b)
    ensures Inv(g, d0, t)
  {
  }

  lemma RecycleInv(g: Geometry, d0: Disk, s: State, t: State, b: nat)
    requires Inv(g, d0, s) && Recycle(s, t, b)
    ensures Inv(g, d0, t)
  {
  }

  lemma EndBooks(g: Geometry, s: State, t: State, p: OpId)
    requires Books(g, s) && End(s, t, p)
    ensures Books(g, t)
  {
  }

  lemma EndInv(g: Geometry, d0: Disk, s: State, t: State, p: OpId)
    requires Inv(g, d0, s) && End(s, t, p)
    ensures Inv(g, d0, t)
  {
    EndBooks(g, s, t, p);
  }

  lemma FinishCommitInv(g: Geometry, d0: Disk, s: State, t: State)
    requires Inv(g, d0, s) && FinishCommit(s, t)
    ensures Inv(g, d0, t)
  {
  }

  lemma CrashInv(g: Geometry, d0: Disk, s: State, t: State)
    requires Inv(g, d0, s) && Crash(s, t)
    ensures Inv(g, d0, t)
  {
    assert t.changes[..t.durable] == s.changes[..s.durable];
  }

  lemma ReadLogInv(g: Geometry, d0: Disk, s: State, t: State)
    requires Inv(g, d0, s) && ReadLog(g, s, t)
    ensures Inv(g, d0, t)
  {
    LoadHeaderIsHeader(g, s.disk);
  }

  // Logged and unlogged buffer modifications.

  lemma HistoryAppend(g: Geometry, cs: seq<Change>, durable: nat, active: set<OpId>, done: set<OpId>, c: Change)
    requires HistoryInv(g, cs, durable, active, done) && c.op in active && g.Home(c.b)
    ensures HistoryInv(g, cs + [c], durable, active, done)
    ensures (cs + [c])[..durable] == cs[..durable]
  {
  }

  lemma InsertLoggable(g: Geometry, log: seq<nat>, b: nat)
    requires g.Loggable(log) && g.Home(b) && !IsFull(g, log)
    ensures g.Loggable(Insert(log, b)) && b in Insert(log, b)
    ensures forall c :: c in Insert(log, b) <==> c in log || c == b
  {
  }

  lemma CleanAfterDirtying(g: Geometry, disk: Disk, cache: map<nat, Buf>, stray: set<nat>,
                           log: seq<nat>, log': seq<nat>, b: nat, data: Block)
    requires CleanInv(g, disk, cache, stray, log) && g.Home(b) && g.Holds(disk)
    requires b in log' && forall c :: c in log' <==> c in log || c == b
    ensures CleanInv(g, disk, cache[b := Buf(data, true)], stray - {b}, log')
  {
  }

  lemma PinAfterDirtying(g: Geometry, cache: map<nat, Buf>, log: seq<nat>, cur: Disk, b: nat, data: Block)
    requires PinInv(g, cache, log, Running, cur) && b < |cur|
    ensures PinInv(g, cache[b := Buf(data, true)], Insert(log, b), Running, cur[b := data])
  {
    var log' := Insert(log, b);
    forall i | 0 <= i < |log'|
      ensures log'[i] < |cur| && log'[i] in cache[b := Buf(data, true)]
      ensures cache[b := Buf(data, true)][log'[i]] == Buf(cur[b := data][log'[i]], true)
    {
      if i < |log| {
        assert log'[i] == log[i] && !Installed(|log|, Running, i);
      }
    }
  }

  lemma LogWriteBooks(g: Geometry, s: State, t: State, p: OpId, b: nat, data: Block)
    requires Books(g, s) && LogWrite(g, s, t, p, b, data)
    ensures Books(g, t) && s.phase.Running?
  {
    assert s.phase.Running?;
    if !IsFull(g, s.log) {
      HistoryAppend(g, s.changes, s.durable, s.ops.Keys, s.done, Change(p, b, data));
      assert t.ops.Keys == s.ops.Keys && |t.ops| == |s.ops|;
      InsertLoggable(g, s.log, b);
    }
  }

  lemma LogWriteMedia(g: Geometry, s: State, t: State, p: OpId, b: nat, data: Block, cur: Disk, stable: Disk)
    requires Books(g, s) && |cur| == |stable| && Media(g, s, cur, stable)
    requires LogWrite(g, s, t, p, b, data) && !IsFull(g, s.log) && s.phase.Running?
    ensures LogInv(g, t.log, t.phase) && Media(g, t, cur[b := data], stable)
  {
    InsertLoggable(g, s.log, b);
    CleanAfterDirtying(g, s.disk, s.cache, s.stray, s.log, t.log, b, data);
    PinAfterDirtying(g, s.cache, s.log, cur, b, data);
  }

  lemma LogWriteInv(g: Geometry, d0: Disk, s: State, t: State, p: OpId, b: nat, data: Block)
    requires Inv(g, d0, s) && LogWrite(g, s, t, p, b, data)
    ensures Inv(g, d0, t)
  {
    LogWriteBooks(g, s, t, p, b, data);
    if !IsFull(g, s.log) {
      ReplayAppend(d0, s.changes, Change(p, b, data));
      assert (s.changes + [Change(p, b, data)])[..s.durable] == s.changes[..s.durable];
      LogWriteMedia(g, s, t, p, b, data, Current(d0, s), Stable(d0, s));
    }
  }

  lemma ScribbleInv(g: Geometry, d0: Disk, s: State, t: State, p: OpId, b: nat, data: Block)
    requires Inv(g, d0, s) && Scribble(g, s, t, p, b, data)
    ensures Inv(g, d0, t)
  {
    assert s.phase.Running?;
    if b in s.log {
      var cur, stable := Current(d0, s), Stable(d0, s);
      ReplayAppend(d0, s.changes, Change(p, b, data));
      HistoryAppend(g, s.changes, s.durable, s.ops.Keys, s.done, Change(p, b, data));
      assert Current(d0, t) == cur[b := data] && Stable(d0, t) == stable;
      CleanAfterDirtying(g, s.disk, s.cache, s.stray, s.log, s.log, b, data);
      PinAfterDirtying(g, s.cache, s.log, cur, b, data);
      assert s.stray - {b} == s.stray;
    } else {
      assert CleanInv(g, t.disk, t.cache, t.stray, t.log);
      assert PinInv(g, t.cache, t.log, t.phase, Current(d0, t));
    }
  }

  // Disk writes of commit and replay.

  lemma CleanAfterWrite(g: Geometry, disk: Disk, cache: map<nat, Buf>, stray: set<nat>, log: seq<nat>, w: Write)
    requires CleanInv(g, disk, cache, stray, log) && w.blockno < |disk|
    ensures CleanInv(g, disk[w.blockno := w.data], cache[w.blockno := Buf(w.data, false)], stray - {w.blockno}, log)
  {
  }

  /** Slot `i` to its home block. */
  function HomeCopy(g: Geometry, s: State, i: nat): (w: Write)
    requires g.Holds(s.disk) && g.Loggable(s.log) && i < |s.log|
    ensures w.blockno < |s.disk|
  {
    Write(s.log[i], s.disk[g.Slot(i)])
  }

  lemma LogBlockView(g: Geometry, s: State, b: nat)
    requires g.Holds(s.disk) && CleanInv(g, s.disk, s.cache, s.stray, s.log) && g.start <= b < g.start + g.size
    ensures View(s, b) == s.disk[b]
  {
  }

  lemma PinnedView(g: Geometry, s: State, i: nat, cur: Disk)
    requires g.Holds(s.disk) && |cur| == |s.disk| && PinInv(g, s.cache, s.log, s.phase, cur)
    requires g.Loggable(s.log) && Up(s) && i < |s.log| && !Installed(|s.log|, s.phase, i)
    ensures View(s, s.log[i]) == cur[s.log[i]]
  {
  }

  lemma SlotWrite(g: Geometry, disk: Disk, log: seq<nat>, k: nat, cur: Disk, stable: Disk)
    requires g.Loggable(log) && k < |log| && DiskInv(g, disk, stable) && |cur| == |disk|
    requires LogInv(g, log, Committing(k)) && ProgressInv(g, disk, log, Committing(k), cur)
    ensures var e := disk[g.Slot(k) := cur[log[k]]];
            DiskInv(g, e, stable) && ProgressInv(g, e, log, Committing(k + 1), cur)
  {
    var e := disk[g.Slot(k) := cur[log[k]]];
    forall b | g.Home(b) ensures Recovered(g, e, b) == stable[b] {
      assert Recovered(g, disk, b) == stable[b];
    }
  }

  lemma HeaderWrite(g: Geometry, disk: Disk, log: seq<nat>, cur: Disk, stable: Disk)
    requires g.Loggable(log) && log != [] && DiskInv(g, disk, stable) && |cur| == |disk|
    requires ProgressInv(g, disk, log, Committing(|log|), cur)
    requires forall b :: g.Home(b) && b !in log ==> cur[b] == stable[b]
    ensures var e := disk[g.start := EncodeHeader(disk[g.start], log)];
            DiskInv(g, e, cur) && ProgressInv(g, e, log, Committing(|log| + 1), cur)
  {
    HeaderRoundTrip(disk[g.start], log);
    var e := disk[g.start := EncodeHeader(disk[g.start], log)];
    forall b | g.Home(b) ensures Recovered(g, e, b) == cur[b] {
      if b in log {
        var i := IndexOf(log, b);
        assert e[g.Slot(i)] == disk[g.Slot(i)] == cur[log[i]];
      } else {
        assert Recovered(g, disk, b) == stable[b];
      }
    }
  }

  lemma HomeWrite(g: Geometry, disk: Disk, log: seq<nat>, i: nat, stable: Disk)
    requires g.Loggable(log) && i < |log| && DiskInv(g, disk, stable)
    requires Header(disk[g.start]) == log
    ensures DiskInv(g, disk[log[i] := disk[g.Slot(i)]], stable)
  {
    var e := disk[log[i] := disk[g.Slot(i)]];
    forall b | g.Home(b) ensures Recovered(g, e, b) == stable[b] {
      assert Recovered(g, disk, b) == stable[b];
    }
  }

  lemma InstallProgress(g: Geometry, disk: Disk, log: seq<nat>, k: nat, cur: Disk)
    requires g.Loggable(log) && |log| < k <= 2 * |log| && g.Holds(disk) && |cur| == |disk|
    requires ProgressInv(g, disk, log, Committing(k), cur)
    ensures var i := k - |log| - 1;
            ProgressInv(g, disk[log[i] := disk[g.Slot(i)]], log, Committing(k + 1), cur)
  {
    DistinctFrom(log, k - |log| - 1);
  }

  lemma ReplayProgress(g: Geometry, disk: Disk, log: seq<nat>, k: nat, cur: Disk)
    requires g.Loggable(log) && k < |log| && g.Holds(disk) && |cur| == |disk|
    requires ProgressInv(g, disk, log, Replaying(k), cur)
    ensures ProgressInv(g, disk[log[k] := disk[g.Slot(k)]], log, Replaying(k + 1), cur)
  {
    DistinctFrom(log, k);
  }

  /** A commit write keeps the pins of every entry it does not install. */
  lemma PinAfterWrite(g: Geometry, cache: map<nat, Buf>, log: seq<nat>, k: nat, cur: Disk, w: Write)
    requires g.Loggable(log) && k <= 2 * |log|
    requires PinInv(g, cache, log, Committing(k), cur)
    requires if k <= |log| then !g.Home(w.blockno) else w.blockno == log[k - |log| - 1]
    ensures PinInv(g, cache[w.blockno := Buf(w.data, false)], log, Committing(k + 1), cur)
  {
    var n := |log|;
    if k > n {
      DistinctFrom(log, k - n - 1);
    }
    forall i | 0 <= i < n
      ensures Installed(n, Committing(k + 1), i) <==> Installed(n, Committing(k), i) || i == k - n - 1
    {
    }
  }

  lemma ClearWrite(g: Geometry, disk: Disk, log: seq<nat>, stable: Disk)
    requires g.Loggable(log) && DiskInv(g, disk, stable)
    requires Header(disk[g.start]) == log
    requires forall i :: 0 <= i < |log| ==> disk[log[i]] == disk[g.Slot(i)]
    ensures DiskInv(g, disk[g.start := EncodeHeader(disk[g.start], [])], stable)
    ensures Header(EncodeHeader(disk[g.start], [])) == []
  {
    HeaderRoundTrip(disk[g.start], []);
    var e := disk[g.start := EncodeHeader(disk[g.start], [])];
    forall b | g.Home(b) ensures Recovered(g, e, b) == stable[b] {
      assert Recovered(g, disk, b) == stable[b];
      if b in log {
        assert disk[log[IndexOf(log, b)]] == disk[g.Slot(IndexOf(log, b))];
      }
    }
  }

  lemma CommitBooks(g: Geometry, s: State, t: State)
    requires Books(g, s) && CommitStep(g, s, t)
    ensures Books(g, t)
  {
  }

  lemma CommitSlotInv(g: Geometry, d0: Disk, s: State, t: State)
    requires Inv(g, d0, s) && CommitStep(g, s, t) && s.phase.k < |s.log|
    ensures Inv(g, d0, t)
  {
    CommitBooks(g, s, t);
    var k := s.phase.k;
    PinnedView(g, s, k, Current(d0, s));
    SlotWrite(g, s.disk, s.log, k, Current(d0, s), Stable(d0, s));
    CleanAfterWrite(g, s.disk, s.cache, s.stray, s.log, NextWrite(g, s, k));
    PinAfterWrite(g, s.cache, s.log, k, Current(d0, s), NextWrite(g, s, k));
  }

  lemma CommitHeaderInv(g: Geometry, d0: Disk, s: State, t: State)
    requires Inv(g, d0, s) && CommitStep(g, s, t) && s.phase.k == |s.log|
    ensures Inv(g, d0, t)
  {
    CommitBooks(g, s, t);
    var k := s.phase.k;
    LogBlockView(g, s, g.start);
    HeaderWrite(g, s.disk, s.log, Current(d0, s), Stable(d0, s));
    assert t.changes[..t.durable] == s.changes;
    CleanAfterWrite(g, s.disk, s.cache, s.stray, s.log, NextWrite(g, s, k));
    PinAfterWrite(g, s.cache, s.log, k, Current(d0, s), NextWrite(g, s, k));
  }

  lemma SameContents(g: Geometry, d0: Disk, s: State, t: State)
    requires t.changes == s.changes && t.durable == s.durable && LogInv(g, t.log, t.phase)
    requires Books(g, t) && Media(g, t, Current(d0, s), Stable(d0, s))
    ensures Inv(g, d0, t)
  {
  }

  /** A disk write that keeps the log and the changes keeps all that is said about pending changes. */
  lemma PendingAfterWrite(g: Geometry, s: State, t: State, cur: Disk, stable: Disk)
    requires |cur| == |stable| == g.nblocks && PendingInv(g, s, cur, stable)
    requires t.log == s.log && t.changes == s.changes && t.durable == s.durable
    requires Up(s) == Up(t) && Published(|t.log|, t.phase) == Published(|s.log|, s.phase) && !s.phase.Halted?
    ensures PendingInv(g, t, cur, stable)
  {
  }

  lemma CommitHomeDisk(g: Geometry, disk: Disk, log: seq<nat>, i: nat, k: nat, cur: Disk, stable: Disk,
                       e: Disk)
    requires g.Loggable(log) && i < |log| && k == |log| + 1 + i && g.Holds(disk) && |cur| == |disk|
    requires DiskInv(g, disk, stable) && ProgressInv(g, disk, log, Committing(k), cur)
    requires e == disk[log[i] := disk[g.Slot(i)]]
    ensures DiskInv(g, e, stable) && ProgressInv(g, e, log, Committing(k + 1), cur)
  {
    HomeWrite(g, disk, log, i, stable);
    InstallProgress(g, disk, log, k, cur);
  }

  lemma CommitHomeCache(g: Geometry, disk: Disk, cache: map<nat, Buf>, stray: set<nat>, log: seq<nat>, i: nat, k: nat,
                        cur: Disk, w: Write)
    requires g.Loggable(log) && i < |log| && k == |log| + 1 + i && w.blockno == log[i] && w.blockno < |disk|
    requires CleanInv(g, disk, cache, stray, log) && PinInv(g, cache, log, Committing(k), cur)
    ensures CleanInv(g, disk[w.blockno := w.data], cache[w.blockno := Buf(w.data, false)], stray - {w.blockno}, log)
    ensures PinInv(g, cache[w.blockno := Buf(w.data, false)], log, Committing(k + 1), cur)
  {
    CleanAfterWrite(g, disk, cache, stray, log, w);
    PinAfterWrite(g, cache, log, k, cur, w);
  }

  lemma CommitHomeMedia(g: Geometry, s: State, t: State, i: nat, k: nat, cur: Disk, stable: Disk)
    requires LogInv(g, s.log, s.phase) && |cur| == |stable| && Media(g, s, cur, stable)
    requires i < |s.log| && k == |s.log| + 1 + i && s.phase == Committing(k)
    requires t == DoWrite(s, HomeCopy(g, s, i)).(phase := Committing(k + 1))
    ensures LogInv(g, t.log, t.phase) && Media(g, t, cur, stable)
    ensures t.changes == s.changes && t.durable == s.durable
  {
    PendingAfterWrite(g, s, t, cur, stable);
    CommitHomeDisk(g, s.disk, s.log, i, k, cur, stable, t.disk);
    CommitHomeCache(g, s.disk, s.cache, s.stray, s.log, i, k, cur, HomeCopy(g, s, i));
  }

  lemma CommitHomeShape(g: Geometry, s: State, t: State, i: nat, k: nat)
    requires CommitStep(g, s, t) && i < |s.log| && s.phase.k == k == |s.log| + 1 + i
    requires CleanInv(g, s.disk, s.cache, s.stray, s.log)
    ensures t == DoWrite(s, HomeCopy(g, s, i)).(phase := Committing(k + 1))
  {
    LogBlockView(g, s, g.Slot(i));
  }

  lemma CommitHomeInv(g: Geometry, d0: Disk, s: State, t: State)
    requires Inv(g, d0, s) && CommitStep(g, s, t) && |s.log| < s.phase.k <= 2 * |s.log|
    ensures Inv(g, d0, t)
  {
    CommitBooks(g, s, t);
    var k := s.phase.k;
    var i := k - |s.log| - 1;
    CommitHomeShape(g, s, t, i, k);
    CommitHomeMedia(g, s, t, i, k, Current(d0, s), Stable(d0, s));
    SameContents(g, d0, s, t);
  }

  lemma CleanAfterClear(g: Geometry, disk: Disk, cache: map<nat, Buf>, stray: set<nat>, log: seq<nat>)
    requires CleanInv(g, disk, cache, stray, log)
    requires forall i :: 0 <= i < |log| && log[i] in cache ==> !cache[log[i]].dirty
    ensures CleanInv(g, disk, cache, stray, [])
  {
  }

  lemma CommitClearMedia(g: Geometry, s: State, cur: Disk, stable: Disk)
    requires LogInv(g, s.log, s.phase) && |cur| == |stable| && Media(g, s, cur, stable)
    requires s.phase == Committing(2 * |s.log| + 1)
    ensures var t := DoWrite(s, Write(g.start, EncodeHeader(s.disk[g.start], []))).(phase := Finishing, log := []);
            Media(g, t, cur, stable)
  {
    var n, w := |s.log|, Write(g.start, EncodeHeader(s.disk[g.start], []));
    assert forall i :: 0 <= i < n ==> Installed(n, s.phase, i);
    ClearWrite(g, s.disk, s.log, stable);
    var u := DoWrite(s, w);
    CleanAfterWrite(g, s.disk, s.cache, s.stray, s.log, w);
    CleanAfterClear(g, u.disk, u.cache, u.stray, s.log);
    forall b | g.Home(b) ensures cur[b] == stable[b] {
      if b in s.log {
        var i := IndexOf(s.log, b);
        assert Recovered(g, s.disk, b) == s.disk[g.Slot(i)];
      }
    }
  }

  lemma CommitClearInv(g: Geometry, d0: Disk, s: State, t: State)
    requires Inv(g, d0, s) && CommitStep(g, s, t) && s.phase.k == 2 * |s.log| + 1
    ensures Inv(g, d0, t)
  {
    CommitBooks(g, s, t);
    LogBlockView(g, s, g.start);
    CommitClearMedia(g, s, Current(d0, s), Stable(d0, s));
    SameContents(g, d0, s, t);
  }

  lemma CommitStepInv(g: Geometry, d0: Disk, s: State, t: State)
    requires Inv(g, d0, s) && CommitStep(g, s, t)
    ensures Inv(g, d0, t)
  {
    var k, n := s.phase.k, |s.log|;
    if k < n {
      CommitSlotInv(g, d0, s, t);
    } else if k == n {
      CommitHeaderInv(g, d0, s, t);
    } else if k <= 2 * n {
      CommitHomeInv(g, d0, s, t);
    } else {
      CommitClearInv(g, d0, s, t);
    }
  }

  lemma ReplayBooks(g: Geometry, s: State, t: State)
    requires Books(g, s) && ReplayStep(g, s, t)
    ensures Books(g, t)
  {
  }

  lemma ReplayHomeDisk(g: Geometry, disk: Disk, log: seq<nat>, k: nat, cur: Disk, stable: Disk, e: Disk)
    requires g.Loggable(log) && k < |log| && g.Holds(disk) && |cur| == |disk|
    requires DiskInv(g, disk, stable) && ProgressInv(g, disk, log, Replaying(k), cur)
    requires e == disk[log[k] := disk[g.Slot(k)]]
    ensures DiskInv(g, e, stable) && ProgressInv(g, e, log, Replaying(k + 1), cur)
  {
    HomeWrite(g, disk, log, k, stable);
    ReplayProgress(g, disk, log, k, cur);
  }

  lemma ReplayHomeMedia(g: Geometry, s: State, t: State, k: nat, cur: Disk, stable: Disk)
    requires LogInv(g, s.log, s.phase) && |cur| == |stable| && Media(g, s, cur, stable)
    requires s.phase == Replaying(k) && k < |s.log|
    requires t == DoWrite(s, HomeCopy(g, s, k)).(phase := Replaying(k + 1))
    ensures LogInv(g, t.log, t.phase) && Media(g, t, cur, stable)
    ensures t.changes == s.changes && t.durable == s.durable
  {
    PendingAfterWrite(g, s, t, cur, stable);
    ReplayHomeDisk(g, s.disk, s.log, k, cur, stable, t.disk);
    CleanAfterWrite(g, s.disk, s.cache, s.stray, s.log, HomeCopy(g, s, k));
  }

  lemma ReplayHomeInv(g: Geometry, d0: Disk, s: State, t: State)
    requires Inv(g, d0, s) && ReplayStep(g, s, t) && s.phase.k < |s.log|
    ensures Inv(g, d0, t)
  {
    ReplayBooks(g, s, t);
    LogBlockView(g, s, g.Slot(s.phase.k));
    ReplayHomeMedia(g, s, t, s.phase.k, Current(d0, s), Stable(d0, s));
    SameContents(g, d0, s, t);
  }

  lemma ReplayClearInv(g: Geometry, d0: Disk, s: State, t: State)
    requires Inv(g, d0, s) && ReplayStep(g, s, t) && s.phase.k == |s.log|
    ensures Inv(g, d0, t)
  {
    ReplayBooks(g, s, t);
    var k, n := s.phase.k, |s.log|;
    LogBlockView(g, s, g.start);
    assert forall i :: 0 <= i < n ==> Installed(n, s.phase, i);
    assert s.changes[..s.durable] == s.changes;
    ClearWrite(g, s.disk, s.log, Stable(d0, s));
    CleanAfterWrite(g, s.disk, s.cache, s.stray, s.log, NextWrite(g, s, n + 1 + k));
    CleanAfterClear(g, t.disk, t.cache, t.stray, s.log);
  }

  lemma ReplayStepInv(g: Geometry, d0: Disk, s: State, t: State)
    requires Inv(g, d0, s) && ReplayStep(g, s, t)
    ensures Inv(g, d0, t)
  {
    if s.phase.k < |s.log| {
      ReplayHomeInv(g, d0, s, t);
    } else {
      ReplayClearInv(g, d0, s, t);
    }
  }
}
