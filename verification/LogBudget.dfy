/** The log-space budget: what `begin`'s admission test guarantees when every operation logs at
    most MAXOPBLOCKS distinct blocks, and the runs in which the log's own size tests still panic. */
module LogBudget {
  import opened LogFormat
  import opened LogProtocol
  import opened LogTheorems

  type Ops = map<OpId, set<nat>>

  /** Budget the active operations have not used yet. */
  ghost function Unused(ops: Ops): int {
    if ops == map[] then 0
    else
      var p :| p in ops;
      MAXOPBLOCKS - |ops[p]| + Unused(ops - {p})
  }

  lemma {:induction false} UnusedSplit(ops: Ops, p: OpId)
    requires p in ops
    ensures Unused(ops) == MAXOPBLOCKS - |ops[p]| + Unused(ops - {p})
    decreases |ops|
  {
    var q :| q in ops && Unused(ops) == MAXOPBLOCKS - |ops[q]| + Unused(ops - {q});
    if p != q {
      UnusedSplit(ops - {q}, p);
      UnusedSplit(ops - {p}, q);
      assert ops - {q} - {p} == ops - {p} - {q};
    }
  }

  lemma {:induction false} UnusedBound(ops: Ops)
    ensures Unused(ops) <= MAXOPBLOCKS * |ops|
    decreases |ops|
  {
    if ops != map[] {
      var p :| p in ops;
      UnusedSplit(ops, p);
      assert (ops - {p}).Keys == ops.Keys - {p};
      UnusedBound(ops - {p});
    }
  }

  ghost predicate InBudget(ops: Ops) {
    forall p :: p in ops ==> |ops[p]| <= MAXOPBLOCKS
  }

  lemma {:induction false} UnusedNonNegative(ops: Ops)
    requires InBudget(ops)
    ensures Unused(ops) >= 0
    decreases |ops|
  {
    if ops != map[] {
      var p :| p in ops;
      UnusedSplit(ops, p);
      UnusedNonNegative(ops - {p});
    }
  }

  /** The promise of every operation: at most MAXOPBLOCKS distinct logged blocks. */
  ghost predicate BoundedStep(s: State, a: Action) {
    a.ALogWrite? && a.p in s.ops ==> |s.ops[a.p] + {a.b}| <= MAXOPBLOCKS
  }

  ghost predicate BoundedRun(g: Geometry, d0: Disk, ss: seq<State>, acts: seq<Action>) {
    Run(g, d0, ss, acts) && forall i :: 0 <= i < |acts| ==> BoundedStep(ss[i], acts[i])
  }

  ghost predicate BudgetInv(s: State) {
    && (Up(s) ==> InBudget(s.ops) && |s.log| + Unused(s.ops) <= LOGSIZE)
    && (Up(s) ==> forall q, c :: q in s.ops && c in s.ops[q] ==> c in s.log)
  }

  lemma AdmitKeepsBudget(log: seq<nat>, ops: Ops, p: OpId)
    requires |log| + (|ops| + 1) * MAXOPBLOCKS <= LOGSIZE && p !in ops
    ensures |log| + Unused(ops[p := {}]) <= LOGSIZE
  {
    UnusedSplit(ops[p := {}], p);
    assert ops[p := {}] - {p} == ops;
    UnusedBound(ops);
  }

  lemma WriteKeepsBudget(log: seq<nat>, ops: Ops, p: OpId, b: nat)
    requires p in ops && |log| + Unused(ops) <= LOGSIZE && InBudget(ops) && |ops[p] + {b}| <= MAXOPBLOCKS
    requires forall q, c :: q in ops && c in ops[q] ==> c in log
    ensures |Insert(log, b)| + Unused(ops[p := ops[p] + {b}]) <= LOGSIZE
  {
    var ops' := ops[p := ops[p] + {b}];
    UnusedSplit(ops, p);
    UnusedSplit(ops', p);
    assert ops' - {p} == ops - {p};
    if b in ops[p] {
      assert ops[p] + {b} == ops[p];
    }
  }

  lemma BudgetBegin(s: State, t: State, p: OpId)
    requires ProtocolInv(s) && BudgetInv(s) && Begin(s, t, p)
    ensures BudgetInv(t)
  {
    if !(s.committing || |s.log| + (s.outstanding + 1) * MAXOPBLOCKS > LOGSIZE) {
      AdmitKeepsBudget(s.log, s.ops, p);
    }
  }

  lemma BudgetWrite(g: Geometry, s: State, t: State, p: OpId, b: nat, data: Block)
    requires BudgetInv(s) && LogWrite(g, s, t, p, b, data) && |s.ops[p] + {b}| <= MAXOPBLOCKS
    ensures BudgetInv(t)
  {
    if !IsFull(g, s.log) { WriteKeepsBudget(s.log, s.ops, p, b); }
  }

  lemma BudgetEnd(s: State, t: State, p: OpId)
    requires BudgetInv(s) && End(s, t, p)
    ensures BudgetInv(t)
  {
    UnusedSplit(s.ops, p);
  }

  /** Steps that neither begin, write nor end keep the log and the operations, or empty them. */
  lemma BudgetOther(g: Geometry, s: State, t: State, a: Action)
    requires ProtocolInv(s) && BudgetInv(s) && Step(g, s, t, a)
    requires !a.ABegin? && !a.ALogWrite? && !a.AEnd?
    ensures BudgetInv(t)
  {
  }

  lemma BudgetStep(g: Geometry, s: State, t: State, a: Action)
    requires ProtocolInv(s) && BudgetInv(s) && Step(g, s, t, a) && BoundedStep(s, a)
    ensures BudgetInv(t)
  {
    match a
    case ABegin(p) => BudgetBegin(s, t, p);
    case ALogWrite(p, b, data) => BudgetWrite(g, s, t, p, b, data);
    case AEnd(p) => BudgetEnd(s, t, p);
    case _ => BudgetOther(g, s, t, a);
  }

  lemma {:induction false} BudgetRun(g: Geometry, d0: Disk, ss: seq<State>, acts: seq<Action>, i: nat)
    requires BoundedRun(g, d0, ss, acts) && i < |ss|
    ensures BudgetInv(ss[i])
    decreases i
  {
    if i > 0 {
      BudgetRun(g, d0, ss, acts, i - 1);
      RunInv(g, d0, ss, acts, i - 1);
      BudgetStep(g, ss[i - 1], ss[i], acts[i - 1]);
    }
  }

  /** The log-space bound: in every run of operations that keep their promise, the log plus all
      unused budget fits in LOGSIZE. */
  lemma LogSpaceBound(g: Geometry, d0: Disk, ss: seq<State>, acts: seq<Action>, i: nat)
    requires BoundedRun(g, d0, ss, acts) && i < |ss| && Up(ss[i])
    ensures |ss[i].log| + Unused(ss[i].ops) <= LOGSIZE
    ensures |ss[i].log| <= LOGSIZE
  {
    BudgetRun(g, d0, ss, acts, i);
    UnusedNonNegative(ss[i].ops);
  }

  /** A full log leaves no operation any budget. */
  lemma FullSpends(ops: Ops, p: OpId)
    requires p in ops && InBudget(ops) && Unused(ops) <= 0
    ensures |ops[p]| == MAXOPBLOCKS
  {
    UnusedSplit(ops, p);
    UnusedNonNegative(ops - {p});
  }

  lemma SpentMeansRepeat(logged: set<nat>, b: nat)
    requires |logged| == MAXOPBLOCKS && |logged + {b}| <= MAXOPBLOCKS
    ensures b in logged
  {
  }

  /** The "transaction too big" panic, exactly: in every run of operations that keep their promise a
      logged write panics if and only if the log has LOGSIZE blocks or all blocks of its region but
      the header. */
  lemma WritePanicsIff(g: Geometry, d0: Disk, ss: seq<State>, acts: seq<Action>, i: nat)
    requires BoundedRun(g, d0, ss, acts) && i < |acts| && acts[i].ALogWrite?
    ensures ss[i + 1].phase.Halted? <==> |ss[i].log| == LOGSIZE || |ss[i].log| + 1 >= g.size
  {
    assert Step(g, ss[i], ss[i + 1], acts[i]);
    LogSpaceBound(g, d0, ss, acts, i);
  }

  /** In a log region of more than LOGSIZE blocks a logged write panics if and only if the log has
      LOGSIZE blocks. Then every active operation has spent its whole budget, and the block is one
      its operation has logged before: it would have been absorbed, but the test comes first. */
  lemma LargeLogPanicsIff(g: Geometry, d0: Disk, ss: seq<State>, acts: seq<Action>, i: nat)
    requires BoundedRun(g, d0, ss, acts) && i < |acts| && acts[i].ALogWrite? && g.size > LOGSIZE
    ensures ss[i + 1].phase.Halted? <==> |ss[i].log| == LOGSIZE
    ensures |ss[i].log| == LOGSIZE ==>
              && (forall q :: q in ss[i].ops ==> |ss[i].ops[q]| == MAXOPBLOCKS)
              && acts[i].p in ss[i].ops && acts[i].b in ss[i].ops[acts[i].p]
  {
    var s, a := ss[i], acts[i];
    assert Step(g, s, ss[i + 1], a) && BoundedStep(s, a);
    WritePanicsIff(g, d0, ss, acts, i);
    LogSpaceBound(g, d0, ss, acts, i);
    BudgetRun(g, d0, ss, acts, i);
    if |s.log| == LOGSIZE {
      forall q | q in s.ops ensures |s.ops[q]| == MAXOPBLOCKS {
        FullSpends(s.ops, q);
      }
      SpentMeansRepeat(s.ops[a.p], a.b);
    }
  }

  /** So there a block new to its operation never panics. */
  lemma NewBlockFits(g: Geometry, d0: Disk, ss: seq<State>, acts: seq<Action>, i: nat)
    requires BoundedRun(g, d0, ss, acts) && i < |acts|
    requires acts[i].ALogWrite? && acts[i].p in ss[i].ops && acts[i].b !in ss[i].ops[acts[i].p]
    requires g.size > LOGSIZE
    ensures !ss[i + 1].phase.Halted?
  {
    LargeLogPanicsIff(g, d0, ss, acts, i);
  }

  // Whatever the size of the log, the promise does not keep the panic away.

  ghost predicate Reach(g: Geometry, d0: Disk, s: State) {
    exists ss, acts :: BoundedRun(g, d0, ss, acts) && ss[|ss| - 1] == s
  }

  lemma ReachStep(g: Geometry, d0: Disk, s: State, t: State, a: Action)
    requires Reach(g, d0, s) && Step(g, s, t, a) && BoundedStep(s, a)
    ensures Reach(g, d0, t)
  {
    var ss, acts :| BoundedRun(g, d0, ss, acts) && ss[|ss| - 1] == s;
    var ss', acts' := ss + [t], acts + [a];
    forall i | 0 <= i < |acts'|
      ensures Step(g, ss'[i], ss'[i + 1], acts'[i]) && BoundedStep(ss'[i], acts'[i])
    {
      if i < |acts| {
        assert ss'[i] == ss[i] && ss'[i + 1] == ss[i + 1] && acts'[i] == acts[i];
      }
    }
    assert BoundedRun(g, d0, ss', acts');
  }

  function Range(b: nat, n: nat): (r: seq<nat>)
    ensures |r| == n
  {
    seq(n, i requires 0 <= i < n => b + i)
  }

  /** A running system with empty commit pipeline whose log is the first `n` home blocks past the
      log region. */
  ghost predicate Filled(g: Geometry, s: State, n: nat) {
    && s.phase.Running? && !s.committing && s.outstanding == |s.ops|
    && g.Holds(s.disk) && s.log == Range(g.start + g.size, n)
  }

  lemma {:induction false} FillOp(g: Geometry, d0: Disk, s: State, p: OpId, n: nat, m: nat) returns (t: State)
    requires Reach(g, d0, s) && Filled(g, s, n) && p in s.ops
    requires |s.ops[p]| + m <= MAXOPBLOCKS && n + m <= LOGSIZE && n + m < g.size
    requires g.start + g.size + LOGSIZE <= g.nblocks
    ensures Reach(g, d0, t) && Filled(g, t, n + m)
    ensures t.ops.Keys == s.ops.Keys && t.done == s.done && t.waiting == s.waiting
    ensures |t.ops[p]| <= |s.ops[p]| + m
    ensures forall q :: q in s.ops && q != p ==> t.ops[q] == s.ops[q]
    decreases m
  {
    if m == 0 { return s; }
    var b := g.start + g.size + n;
    var u := s;
    if b !in s.cache {
      u := s.(cache := s.cache[b := Buf(s.disk[b], false)]);
      assert Step(g, s, u, AFetch(b));
      ReachStep(g, d0, s, u, AFetch(b));
    }
    var data := u.cache[b].data;
    var v := u.(cache := u.cache[b := Buf(data, true)], stray := u.stray - {b}, log := Insert(u.log, b),
                ops := u.ops[p := u.ops[p] + {b}], changes := u.changes + [Change(p, b, data)]);
    assert b !in u.log;
    assert v.log == Range(g.start + g.size, n + 1);
    assert Step(g, u, v, ALogWrite(p, b, data));
    ReachStep(g, d0, u, v, ALogWrite(p, b, data));
    assert v.ops.Keys == u.ops.Keys;
    t := FillOp(g, d0, v, p, n + 1, m - 1);
  }

  lemma ReachInv(g: Geometry, d0: Disk, s: State)
    requires Reach(g, d0, s)
    ensures Inv(g, d0, s) && BudgetInv(s)
  {
    var ss, acts :| BoundedRun(g, d0, ss, acts) && ss[|ss| - 1] == s;
    RunInv(g, d0, ss, acts, |ss| - 1);
    BudgetRun(g, d0, ss, acts, |ss| - 1);
  }

  lemma Boot(g: Geometry, d0: Disk) returns (s: State)
    requires g.Holds(d0) && d0[g.start][0] == 0 && g.size > 1
    ensures Reach(g, d0, s) && Filled(g, s, 0) && s.ops == map[] && s.done == {} && s.waiting == {}
  {
    var s0 := State(d0, map[], {}, [], 0, false, Booting, map[], {}, {}, [], 0);
    assert BoundedRun(g, d0, [s0], []);
    var s1 := s0.(phase := Replaying(0));
    assert Step(g, s0, s1, AReadLog);
    ReachStep(g, d0, s0, s1, AReadLog);
    s := DoWrite(s1, NextWrite(g, s1, 1)).(phase := Running);
    assert Step(g, s1, s, AReplayStep);
    ReachStep(g, d0, s1, s, AReplayStep);
    assert s.log == Range(g.start + g.size, 0);
  }

  lemma BeginOp(g: Geometry, d0: Disk, s: State, p: OpId, n: nat) returns (t: State)
    requires Reach(g, d0, s) && Filled(g, s, n) && p !in s.ops && p !in s.done && p !in s.waiting
    requires n + (|s.ops| + 1) * MAXOPBLOCKS <= LOGSIZE
    ensures Reach(g, d0, t) && Filled(g, t, n) && t.ops == s.ops[p := {}]
    ensures t.done == s.done && t.waiting == s.waiting
  {
    t := s.(outstanding := s.outstanding + 1, ops := s.ops[p := {}]);
    assert Step(g, s, t, ABegin(p));
    ReachStep(g, d0, s, t, ABegin(p));
  }

  /** Exactly operations 1 to `q - 1` are active. */
  ghost predicate ActiveUpTo(ops: map<OpId, set<nat>>, q: nat) {
    forall i {:trigger i in ops} :: i in ops <==> 1 <= i < q
  }

  /** Operations `p ..< q` begin while `p - 1` others are active. */
  lemma {:induction false} BeginOps(g: Geometry, d0: Disk, s: State, p: OpId, q: OpId, n: nat) returns (t: State)
    requires Reach(g, d0, s) && Filled(g, s, n) && p <= q && s.waiting == {} && s.done <= {0}
    requires 1 <= p && ActiveUpTo(s.ops, p) && |s.ops| == p - 1
    requires forall i :: 1 <= i < p ==> s.ops[i] == {}
    requires n + (q - 1) * MAXOPBLOCKS <= LOGSIZE
    ensures Reach(g, d0, t) && Filled(g, t, n) && t.waiting == {} && t.done <= {0}
    ensures ActiveUpTo(t.ops, q)
    ensures forall i :: 1 <= i < q ==> t.ops[i] == {}
    decreases q - p
  {
    if p == q { return s; }
    var u := BeginOp(g, d0, s, p, n);
    t := BeginOps(g, d0, u, p + 1, q, n);
  }

  /** Operations `p ..< q` each log a full budget. */
  lemma {:induction false} FillOps(g: Geometry, d0: Disk, s: State, p: OpId, q: OpId, n: nat) returns (t: State)
    requires Reach(g, d0, s) && Filled(g, s, n) && 1 <= p <= q
    requires forall i :: p <= i < q ==> i in s.ops && s.ops[i] == {}
    requires n + (q - p) * MAXOPBLOCKS < g.size && n + (q - p) * MAXOPBLOCKS <= LOGSIZE
    requires g.start + g.size + LOGSIZE <= g.nblocks
    ensures Reach(g, d0, t) && Filled(g, t, n + (q - p) * MAXOPBLOCKS)
    ensures t.ops.Keys == s.ops.Keys && forall i :: i in s.ops && i >= q ==> t.ops[i] == s.ops[i]
    decreases q - p
  {
    if p == q { return s; }
    var u := FillOp(g, d0, s, p, n, MAXOPBLOCKS);
    t := FillOps(g, d0, u, p + 1, q, n + MAXOPBLOCKS);
  }

  /** Operation 0 logs `r` blocks and ends while operation 1 is active. */
  lemma SmallOpEnds(g: Geometry, d0: Disk, r: nat) returns (t: State)
    requires g.Holds(d0) && d0[g.start][0] == 0 && 1 < g.size && r < g.size && r <= MAXOPBLOCKS
    requires g.start + g.size + LOGSIZE <= g.nblocks
    ensures Reach(g, d0, t) && Filled(g, t, r) && t.waiting == {} && t.done == {0}
    ensures t.ops == map[1 := {}]
  {
    var s := Boot(g, d0);
    s := BeginOp(g, d0, s, 0, 0);
    s := BeginOp(g, d0, s, 1, 0);
    s := FillOp(g, d0, s, 0, 0, r);
    assert s.outstanding == 2 by { assert |s.ops.Keys| == |{0, 1}|; }
    t := s.(ops := s.ops - {0}, done := s.done + {0}, outstanding := s.outstanding - 1, waiting := {});
    assert Step(g, s, t, AEnd(0));
    ReachStep(g, d0, s, t, AEnd(0));
  }

  /** Then operations 1 to `q` together log all but `64 - last` of their budgets. */
  lemma FillTo(g: Geometry, d0: Disk, r: nat, q: nat, last: nat) returns (s: State)
    requires g.Holds(d0) && d0[g.start][0] == 0 && 1 < g.size && g.start + g.size + LOGSIZE <= g.nblocks
    requires 1 <= q && last <= MAXOPBLOCKS && r <= MAXOPBLOCKS
    requires r + q * MAXOPBLOCKS <= LOGSIZE && r + (q - 1) * MAXOPBLOCKS + last < g.size
    ensures Reach(g, d0, s) && Filled(g, s, r + (q - 1) * MAXOPBLOCKS + last)
    ensures q in s.ops && |s.ops[q]| <= last
  {
    s := SmallOpEnds(g, d0, r);
    s := BeginOps(g, d0, s, 2, q + 1, r);
    s := FillOps(g, d0, s, 1, q, r);
    s := FillOp(g, d0, s, q, r + (q - 1) * MAXOPBLOCKS, last);
  }

  /** From boot to a log as full as it gets: `size - 1` or LOGSIZE blocks. In the first case some
      operation still has budget. */
  lemma FillLog(g: Geometry, d0: Disk) returns (s: State, p: OpId)
    requires g.Holds(d0) && d0[g.start][0] == 0 && 1 < g.size
    requires g.start + g.size + LOGSIZE <= g.nblocks
    ensures Reach(g, d0, s) && p in s.ops
    ensures Filled(g, s, if g.size <= LOGSIZE then g.size - 1 else LOGSIZE)
    ensures g.size <= LOGSIZE ==> |s.ops[p]| < MAXOPBLOCKS
  {
    if g.size > LOGSIZE {
      p := 7;
      s := FillTo(g, d0, MAXOPBLOCKS - 1, 7, MAXOPBLOCKS);
    } else if g.size < MAXOPBLOCKS {
      p := 0;
      s := Boot(g, d0);
      s := BeginOp(g, d0, s, 0, 0);
      s := FillOp(g, d0, s, 0, 0, g.size - 1);
    } else {
      p := g.size / MAXOPBLOCKS;
      s := FillTo(g, d0, g.size % MAXOPBLOCKS, p, MAXOPBLOCKS - 1);
    }
  }

  /** A log region of LOGSIZE blocks or fewer (mkfs makes one of exactly LOGSIZE): some run of
      operations that all keep their promise ends in the "transaction too big" panic, on a block
      its operation has not logged before. */
  lemma NewBlockCanPanic(g: Geometry, d0: Disk) returns (s: State, t: State, p: OpId, b: nat, data: Block)
    requires g.Holds(d0) && d0[g.start][0] == 0 && 1 < g.size <= LOGSIZE
    requires g.start + g.size + LOGSIZE <= g.nblocks
    ensures Reach(g, d0, s) && p in s.ops && b !in s.ops[p] && |s.ops[p] + {b}| <= MAXOPBLOCKS
    ensures LogWrite(g, s, t, p, b, data) && t.phase == Halted(TransactionTooBig)
  {
    s, p := FillLog(g, d0);
    b := g.start + g.size + g.size - 1;
    if b !in s.cache {
      var u := s.(cache := s.cache[b := Buf(s.disk[b], false)]);
      assert Step(g, s, u, AFetch(b));
      ReachStep(g, d0, s, u, AFetch(b));
      s := u;
    }
    ReachInv(g, d0, s);
    assert b !in s.log;
    data := s.cache[b].data;
    t := s.(phase := Halted(TransactionTooBig));
  }

  /** In a larger region some run of such operations ends in the same panic on a block its operation
      has logged before. */
  lemma RepeatCanPanic(g: Geometry, d0: Disk) returns (s: State, t: State, p: OpId, b: nat, data: Block)
    requires g.Holds(d0) && d0[g.start][0] == 0 && g.size > LOGSIZE
    requires g.start + g.size + LOGSIZE <= g.nblocks
    ensures Reach(g, d0, s) && p in s.ops && b in s.ops[p] && |s.ops[p] + {b}| <= MAXOPBLOCKS
    ensures LogWrite(g, s, t, p, b, data) && t.phase == Halted(TransactionTooBig)
  {
    s, p := FillLog(g, d0);
    ReachInv(g, d0, s);
    UnusedNonNegative(s.ops);
    FullSpends(s.ops, p);
    b :| b in s.ops[p];
    assert s.ops[p] + {b} == s.ops[p];
    assert b in s.log;
    var i :| 0 <= i < |s.log| && s.log[i] == b;
    assert !Installed(|s.log|, s.phase, i);
    data := s.cache[b].data;
    t := s.(phase := Halted(TransactionTooBig));
  }

  lemma {:induction false} EndAll(g: Geometry, d0: Disk, s: State, n: nat) returns (t: State)
    requires Reach(g, d0, s) && Filled(g, s, n) && n > 0 && s.ops != map[]
    ensures Reach(g, d0, t) && t.phase == Committing(0) && |t.log| == n
    decreases |s.ops|
  {
    var p :| p in s.ops;
    var u := s.(ops := s.ops - {p}, done := s.done + {p}, outstanding := s.outstanding - 1);
    assert u.ops.Keys == s.ops.Keys - {p};
    if u.outstanding == 0 {
      t := u.(committing := true, phase := Committing(0));
      assert Step(g, s, t, AEnd(p));
      ReachStep(g, d0, s, t, AEnd(p));
    } else {
      u := u.(waiting := {});
      assert Step(g, s, u, AEnd(p));
      ReachStep(g, d0, s, u, AEnd(p));
      t := EndAll(g, d0, u, n);
    }
  }

  lemma {:induction false} CommitUpTo(g: Geometry, d0: Disk, s: State, k: nat) returns (t: State)
    requires Reach(g, d0, s) && s.phase.Committing? && s.phase.k <= k <= |s.log| + 1
    ensures Reach(g, d0, t) && t.phase == Committing(k) && |t.log| == |s.log|
    decreases k - s.phase.k
  {
    if s.phase.k == k { return s; }
    ReachInv(g, d0, s);
    var j := s.phase.k;
    var u := DoWrite(s, NextWrite(g, s, j)).(phase := Committing(j + 1));
    if j == |s.log| { u := u.(durable := |s.changes|); }
    assert Step(g, s, u, ACommitStep);
    ReachStep(g, d0, s, u, ACommitStep);
    t := CommitUpTo(g, d0, u, k);
  }

  /** And whatever the size of the log, a committed transaction can be too large for boot: after a
      crash right behind the header write, `recover` panics on it. */
  lemma BootCanPanic(g: Geometry, d0: Disk) returns (s: State)
    requires g.Holds(d0) && d0[g.start][0] == 0 && 1 < g.size
    requires g.start + g.size + LOGSIZE <= g.nblocks
    ensures Reach(g, d0, s) && s.phase == Halted(CorruptLog)
  {
    var p;
    s, p := FillLog(g, d0);
    s := EndAll(g, d0, s, |s.log|);
    s := CommitUpTo(g, d0, s, |s.log| + 1);
    ReachInv(g, d0, s);
    var t := State(s.disk, map[], {}, [], 0, false, Booting, map[], {},
                   s.done + s.ops.Keys + s.waiting, s.changes[..s.durable], s.durable);
    assert Step(g, s, t, ACrash);
    ReachStep(g, d0, s, t, ACrash);
    ReachInv(g, d0, t);
    assert Header(t.disk[g.start]) == s.log;
    s := t.(phase := Halted(CorruptLog));
    assert Step(g, t, s, AReadLog);
    ReachStep(g, d0, t, s, AReadLog);
  }
}
