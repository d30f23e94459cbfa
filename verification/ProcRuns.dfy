/** Every run of the process table: no child is lost (kernel/src/proc.rs:277-307, 393-478, 589-651).
    A step is one critical section of PROCS. */
module ProcRuns {
  import opened Proc

  datatype Ended = Ended(pid: nat, status: int)
  datatype Collected = Collected(pid: nat, status: int, collector: nat)

  /** Besides the table: which process is `init`, the next serial number, and by serial number who
      the parent was at birth, how the process ended, and who collected it. */
  datatype State = State(t: Table, init: nat, next: nat, born: map<nat, nat>, ends: map<nat, Ended>,
                         collects: map<nat, Collected>)

  datatype Action =
    | DoFork(me: nat, c: nat, pid: nat)
    | ForkFails(c: nat, pid: nat)
    | DoExit(me: nat, status: int)
    | Collect(me: nat, z: nat)
    | WaitSleeps(me: nat)
    | Sleep(me: nat, chan: nat)
    | Wakeup(chan: nat)
    | DoKill(p: nat)
    | Schedule(p: nat)
    | Yield(p: nat)

  predicate Runs(t: Table, p: nat) { p < |t| && t[p].state == RUNNING }

  predicate NoZombieBefore(t: Table, me: nat, z: nat)
    requires z <= |t|
  {
    forall i {:trigger ZombieChild(t, me, i)} :: 0 <= i < z ==> !ZombieChild(t, me, i)
  }

  predicate Enabled(s: State, a: Action) {
    match a
    case DoFork(me, c, pid) => Runs(s.t, me) && c < |s.t| && s.t[c].state == UNUSED
    case ForkFails(c, pid) => c < |s.t| && s.t[c].state == UNUSED
    case DoExit(me, status) => Runs(s.t, me) && me != s.init
    case Collect(me, z) => Runs(s.t, me) && z < |s.t| && ZombieChild(s.t, me, z) && NoZombieBefore(s.t, me, z)
    case WaitSleeps(me) => Runs(s.t, me) && NoZombieBefore(s.t, me, |s.t|)
    case Sleep(me, chan) => Runs(s.t, me) && chan >= |s.t|
    case Wakeup(chan) => true
    case DoKill(p) => p < |s.t|
    case Schedule(p) => p < |s.t| && s.t[p].state == RUNNABLE
    case Yield(p) => Runs(s.t, p)
  }

  function Do(s: State, a: Action): State
    requires Enabled(s, a)
  {
    match a
    case DoFork(me, c, pid) => s.(t := Fork(s.t, me, c, pid, s.next), next := s.next + 1,
                                  born := s.born[s.next := s.t[me].serial])
    case ForkFails(c, pid) => s.(t := s.t[c := s.t[c].(pid := pid)])
    case DoExit(me, status) => s.(t := Exit(s.t, me, s.init, status),
                                  ends := s.ends[s.t[me].serial := Ended(s.t[me].pid, status)])
    case Collect(me, z) =>
      s.(t := Reap(s.t, z),
         collects := s.collects[s.t[z].serial := Collected(s.t[z].pid, s.t[z].state.status, s.t[me].serial)])
    case WaitSleeps(me) => s.(t := SetState(s.t, me, SLEEPING(me)))
    case Sleep(me, chan) => s.(t := SetState(s.t, me, SLEEPING(chan)))
    case Wakeup(chan) => s.(t := Wake(s.t, chan))
    case DoKill(p) => s.(t := Kill(s.t, p))
    case Schedule(p) => s.(t := SetState(s.t, p, RUNNING))
    case Yield(p) => s.(t := SetState(s.t, p, RUNNABLE))
  }

  function Run(s: State, acts: seq<Action>): (r: State)
    requires CanRun(s, acts)
    decreases |acts|
  {
    if acts == [] then s else Run(Do(s, acts[0]), acts[1..])
  }

  predicate CanRun(s: State, acts: seq<Action>)
    decreases |acts|
  {
    acts == [] || (Enabled(s, acts[0]) && CanRun(Do(s, acts[0]), acts[1..]))
  }

  /** A table with `init` alone, its own parent. */
  ghost predicate Initial(s: State) {
    && s.init < |s.t| && s.t[s.init].state == RUNNABLE && s.t[s.init].parent == s.init
    && (forall p {:trigger s.t[p]} :: 0 <= p < |s.t| && p != s.init ==> s.t[p].state == UNUSED)
    && s.t[s.init].serial < s.next && s.born == map[] && s.ends == map[] && s.collects == map[]
  }

  // The invariant.

  ghost predicate InitLives(t: Table, init: nat) {
    init < |t| && Initialized(t[init]) && !t[init].state.ZOMBIE? && t[init].parent == init
  }

  ghost predicate ParentAt(t: Table, p: nat)
    requires p < |t|
  {
    Initialized(t[p]) ==> t[p].parent < |t| && Initialized(t[t[p].parent]) && !t[t[p].parent].state.ZOMBIE?
  }

  /** The parent of every process is there and has not exited. */
  ghost predicate ParentLives(t: Table) {
    forall p {:trigger ParentAt(t, p)} :: 0 <= p < |t| ==> ParentAt(t, p)
  }

  ghost predicate OwnParent(t: Table, init: nat) {
    forall p {:trigger t[p]} :: 0 <= p < |t| && Initialized(t[p]) && t[p].parent == p ==> p == init
  }

  /** Nobody sleeps in `wait` over a child that has exited. */
  ghost predicate NoLostChild(t: Table) {
    forall p, q {:trigger ZombieChild(t, p, q)} :: 0 <= p < |t| && 0 <= q < |t| && t[p].state == SLEEPING(p) ==>
      !ZombieChild(t, p, q)
  }

  ghost predicate Pair(p: int, q: int) { true }

  ghost predicate SerialsDiffer(t: Table, next: nat) {
    && (forall p {:trigger t[p]} :: 0 <= p < |t| && Initialized(t[p]) ==> t[p].serial < next)
    && (forall p, q {:trigger Pair(p, q)} :: Pair(p, q) && 0 <= p < q < |t| && Initialized(t[p]) &&
                                              Initialized(t[q]) ==>
          t[p].serial != t[q].serial)
  }

  /** What is known about the process with this serial number: it has ended exactly if it is a zombie
      in the table or has been collected, never both. */
  ghost predicate Books(t: Table, next: nat, ends: map<nat, Ended>, collects: map<nat, Collected>) {
    && (forall p {:trigger t[p]} :: 0 <= p < |t| && Initialized(t[p]) ==>
          && t[p].serial !in collects
          && (t[p].state.ZOMBIE? <==> t[p].serial in ends)
          && (t[p].state.ZOMBIE? ==> ends[t[p].serial] == Ended(t[p].pid, t[p].state.status)))
    && (forall x {:trigger x in ends} :: x in ends ==> x < next && (x in collects || InTable(t, x)))
    && (forall x {:trigger x in collects} :: x in collects ==>
          x in ends && ends[x] == Ended(collects[x].pid, collects[x].status))
  }

  ghost predicate InTable(t: Table, x: nat) {
    exists p :: 0 <= p < |t| && t[p].state.ZOMBIE? && t[p].serial == x
  }

  ghost predicate LineageAt(t: Table, init: nat, born: map<nat, nat>, p: nat)
    requires p < |t|
  {
    Initialized(t[p]) && t[p].parent != init && t[p].parent < |t| ==>
      t[p].serial in born && t[t[p].parent].serial == born[t[p].serial]
  }

  /** A process's parent is the one that forked it, or `init`, and so is who collected it. */
  ghost predicate Lineage(t: Table, init: nat, born: map<nat, nat>, collects: map<nat, Collected>) {
    && init < |t|
    && (forall p {:trigger LineageAt(t, init, born, p)} :: 0 <= p < |t| ==> LineageAt(t, init, born, p))
    && (forall x {:trigger x in collects} :: x in collects ==>
          collects[x].collector == t[init].serial || (x in born && collects[x].collector == born[x]))
  }

  ghost predicate Family(t: Table, init: nat, next: nat) {
    InitLives(t, init) && ParentLives(t) && OwnParent(t, init) && NoLostChild(t) && SerialsDiffer(t, next)
  }

  ghost predicate Inv(s: State) {
    && Family(s.t, s.init, s.next)
    && Books(s.t, s.next, s.ends, s.collects) && Lineage(s.t, s.init, s.born, s.collects)
    && (forall x {:trigger x in s.born} :: x in s.born ==> x < s.next)
  }

  lemma InitialInv(s: State)
    requires Initial(s)
    ensures Inv(s)
  {
  }

  /** Steps that change only states, and none to or from UNUSED or ZOMBIE. */
  ghost predicate OnlyAwake(t: Table, t': Table) {
    |t'| == |t| && forall p {:trigger t'[p]} :: 0 <= p < |t| ==>
      && (!Initialized(t[p]) ==> !Initialized(t'[p]))
      && (Initialized(t[p]) ==> Initialized(t'[p]) && t'[p] == t[p].(state := t'[p].state, killed := t'[p].killed))
      && (t'[p].state != t[p].state ==> !t[p].state.ZOMBIE? && !t'[p].state.ZOMBIE?)
      && (t'[p].state == SLEEPING(p) ==> t[p].state == SLEEPING(p) || NoZombieBefore(t, p, |t|))
  }

  lemma AwakeInv(s: State, t': Table)
    requires Inv(s) && OnlyAwake(s.t, t')
    ensures Inv(s.(t := t'))
  {
    AwakeFamily(s.t, s.init, s.next, t');
    forall x | x in s.ends && x !in s.collects ensures InTable(t', x) {
      assert InTable(s.t, x);
      var p :| 0 <= p < |s.t| && s.t[p].state.ZOMBIE? && s.t[p].serial == x;
      assert t'[p].state == s.t[p].state;
    }
    forall p | 0 <= p < |t'| ensures LineageAt(t', s.init, s.born, p) {
      assert LineageAt(s.t, s.init, s.born, p) && ParentAt(s.t, p);
    }
    assert t'[s.init].serial == s.t[s.init].serial;
  }

  lemma AwakeFamily(t: Table, init: nat, next: nat, t': Table)
    requires Family(t, init, next) && OnlyAwake(t, t')
    ensures Family(t', init, next)
  {
    forall p | 0 <= p < |t'| ensures ParentAt(t', p) { assert ParentAt(t, p); }
    forall p, q | 0 <= p < |t'| && 0 <= q < |t'| && t'[p].state == SLEEPING(p) ensures !ZombieChild(t', p, q) {
      assert !ZombieChild(t, p, q);
    }
    forall p, q | 0 <= p < q < |t'| && Initialized(t'[p]) && Initialized(t'[q]) ensures t'[p].serial != t'[q].serial {
      assert Pair(p, q);
    }
  }

  lemma ForkInv(s: State, me: nat, c: nat, pid: nat)
    requires Inv(s) && Enabled(s, DoFork(me, c, pid))
    ensures Inv(Do(s, DoFork(me, c, pid)))
  {
    var t' := Fork(s.t, me, c, pid, s.next);
    ForkFamily(s.t, s.init, s.next, me, c, pid);
    forall x | x in s.ends && x !in s.collects ensures InTable(t', x) {
      assert InTable(s.t, x);
      var p :| 0 <= p < |s.t| && s.t[p].state.ZOMBIE? && s.t[p].serial == x;
      assert t'[p] == s.t[p];
    }
    var born' := s.born[s.next := s.t[me].serial];
    forall p | 0 <= p < |t'| ensures LineageAt(t', s.init, born', p) {
      assert LineageAt(s.t, s.init, s.born, p) && ParentAt(s.t, p);
    }
  }

  lemma ForkFamily(t: Table, init: nat, next: nat, me: nat, c: nat, pid: nat)
    requires Family(t, init, next) && Runs(t, me) && c < |t| && t[c].state == UNUSED
    ensures Family(Fork(t, me, c, pid, next), init, next + 1)
  {
    var t' := Fork(t, me, c, pid, next);
    forall p | 0 <= p < |t'| ensures ParentAt(t', p) { assert ParentAt(t, p); }
    forall p, q | 0 <= p < |t'| && 0 <= q < |t'| && t'[p].state == SLEEPING(p) ensures !ZombieChild(t', p, q) {
      assert !ZombieChild(t, p, q);
    }
    forall p, q | 0 <= p < q < |t'| && Initialized(t'[p]) && Initialized(t'[q]) ensures t'[p].serial != t'[q].serial {
      assert Pair(p, q);
    }
  }

  /** What `exit` does to slot `i`. */
  lemma ExitAt(t: Table, me: nat, init: nat, status: int, i: nat)
    requires me < |t| && i < |t| && me != init && Runs(t, me)
    ensures var p := Exit(t, me, init, status)[i];
            && p.parent == (if Initialized(t[i]) && t[i].parent == me then init else t[i].parent)
            && p == t[i].(parent := p.parent, state := p.state)
            && (i == me ==> p.state == ZOMBIE(status))
            && (i != me ==>
                  p.state ==
                    if t[i].state == SLEEPING(t[me].parent) || (t[i].state == SLEEPING(init) && AnyZombie(t, me, 0))
                    then RUNNABLE else t[i].state)
  {
    var t1 := Wake(t, t[me].parent);
    ReparentAt(t1, me, init, 0, i);
    ReparentAt(t1, me, init, 0, me);
    assert forall j :: 0 <= j < |t| ==> (ZombieChild(t1, me, j) <==> ZombieChild(t, me, j));
  }

  /** What `exit` leaves of slot `i`, the waking aside. */
  ghost predicate ExitedAt(t: Table, t': Table, me: nat, init: nat, status: int, i: nat)
    requires i < |t| == |t'|
  {
    && t'[i].parent == (if Initialized(t[i]) && t[i].parent == me then init else t[i].parent)
    && t'[i] == t[i].(parent := t'[i].parent, state := t'[i].state)
    && (i == me ==> t'[i].state == ZOMBIE(status))
    && (i != me ==> t'[i].state == t[i].state || (t[i].state.SLEEPING? && t'[i].state == RUNNABLE))
  }

  ghost predicate Exited(t: Table, t': Table, me: nat, init: nat, status: int) {
    |t'| == |t| && forall i {:trigger t'[i]} :: 0 <= i < |t| ==> ExitedAt(t, t', me, init, status, i)
  }

  lemma ExitInv(s: State, me: nat, status: int)
    requires Inv(s) && Enabled(s, DoExit(me, status))
    ensures Inv(Do(s, DoExit(me, status)))
  {
    var t, t' := s.t, Exit(s.t, me, s.init, status);
    forall i | 0 <= i < |t| ensures ExitedAt(t, t', me, s.init, status, i) { ExitAt(t, me, s.init, status, i); }
    ExitNoLost(t, s.init, s.next, me, status);
    ExitedFamily(t, s.init, s.next, me, status, t');
    ExitedBooks(t, s.init, s.next, s.ends, s.collects, me, status, t');
    forall p | 0 <= p < |t'| ensures LineageAt(t', s.init, s.born, p) {
      assert LineageAt(t, s.init, s.born, p) && ParentAt(t, p);
      if t[p].parent < |t| { assert t'[t[p].parent].serial == t[t[p].parent].serial; }
      assert t'[p].serial == t[p].serial;
    }
    assert t'[s.init].serial == t[s.init].serial;
  }

  lemma ExitedFamily(t: Table, init: nat, next: nat, me: nat, status: int, t': Table)
    requires Family(t, init, next) && Runs(t, me) && me != init && Exited(t, t', me, init, status) && NoLostChild(t')
    ensures Family(t', init, next)
  {
    forall p | 0 <= p < |t'| ensures ParentAt(t', p) {
      assert ParentAt(t, p);
      assert t'[p].parent < |t| && Initialized(t'[p]) ==> ExitedAt(t, t', me, init, status, t'[p].parent);
    }
    forall p, q | 0 <= p < q < |t'| && Initialized(t'[p]) && Initialized(t'[q]) ensures t'[p].serial != t'[q].serial {
      assert Pair(p, q);
    }
  }

  lemma ExitedBooks(t: Table, init: nat, next: nat, ends: map<nat, Ended>, collects: map<nat, Collected>, me: nat,
                    status: int, t': Table)
    requires SerialsDiffer(t, next) && Books(t, next, ends, collects) && Runs(t, me) && Exited(t, t', me, init, status)
    ensures Books(t', next, ends[t[me].serial := Ended(t[me].pid, status)], collects)
  {
    forall x | x in ends && x !in collects ensures InTable(t', x) {
      assert InTable(t, x);
      var p :| 0 <= p < |t| && t[p].state.ZOMBIE? && t[p].serial == x;
      assert t'[p].state == t[p].state;
    }
    assert InTable(t', t[me].serial) by { assert t'[me].state.ZOMBIE?; }
    forall p | 0 <= p < |t| && p != me && Initialized(t[p]) ensures t[p].serial != t[me].serial {
      assert Pair(p, me) && Pair(me, p);
    }
  }

  lemma ExitNoLost(t: Table, init: nat, next: nat, me: nat, status: int)
    requires Family(t, init, next) && Runs(t, me) && me != init
    ensures NoLostChild(Exit(t, me, init, status))
  {
    var t' := Exit(t, me, init, status);
    forall p, q | 0 <= p < |t'| && 0 <= q < |t'| && t'[p].state == SLEEPING(p) ensures !ZombieChild(t', p, q) {
      ExitAt(t, me, init, status, p);
      ExitAt(t, me, init, status, q);
      assert !ZombieChild(t, p, q);
      if q != me && ZombieChild(t', p, q) && t[q].parent == me {
        assert ZombieChild(t, me, q);
      }
    }
  }

  lemma CollectInv(s: State, me: nat, z: nat)
    requires Inv(s) && Enabled(s, Collect(me, z))
    ensures Inv(Do(s, Collect(me, z)))
  {
    var t, t' := s.t, Reap(s.t, z);
    CollectFamily(t, s.init, s.next, z);
    CollectBooks(t, s.next, s.ends, s.collects, z, t[me].serial);
    assert LineageAt(t, s.init, s.born, z);
    forall p | 0 <= p < |t'| ensures LineageAt(t', s.init, s.born, p) {
      assert LineageAt(t, s.init, s.born, p) && ParentAt(t, p);
    }
  }

  lemma CollectFamily(t: Table, init: nat, next: nat, z: nat)
    requires Family(t, init, next) && z < |t| && t[z].state.ZOMBIE?
    ensures Family(Reap(t, z), init, next)
  {
    var t' := Reap(t, z);
    forall p | 0 <= p < |t'| ensures ParentAt(t', p) { assert ParentAt(t, p); }
    forall p, q | 0 <= p < |t'| && 0 <= q < |t'| && t'[p].state == SLEEPING(p) ensures !ZombieChild(t', p, q) {
      assert !ZombieChild(t, p, q);
    }
    forall p, q | 0 <= p < q < |t'| && Initialized(t'[p]) && Initialized(t'[q]) ensures t'[p].serial != t'[q].serial {
      assert Pair(p, q);
    }
  }

  lemma CollectBooks(t: Table, next: nat, ends: map<nat, Ended>, collects: map<nat, Collected>, z: nat, who: nat)
    requires SerialsDiffer(t, next) && Books(t, next, ends, collects) && z < |t| && t[z].state.ZOMBIE?
    ensures Books(Reap(t, z), next, ends, collects[t[z].serial := Collected(t[z].pid, t[z].state.status, who)])
  {
    var t' := Reap(t, z);
    forall x | x in ends && x !in collects && x != t[z].serial ensures InTable(t', x) {
      assert InTable(t, x);
      var p :| 0 <= p < |t| && t[p].state.ZOMBIE? && t[p].serial == x;
      assert t'[p] == t[p];
    }
    forall p | 0 <= p < |t| && p != z && Initialized(t[p]) ensures t[p].serial != t[z].serial {
      assert Pair(p, z) && Pair(z, p);
    }
  }

  lemma StepInv(s: State, a: Action)
    requires Inv(s) && Enabled(s, a)
    ensures Inv(Do(s, a))
  {
    match a
    case DoFork(me, c, pid) => ForkInv(s, me, c, pid);
    case DoExit(me, status) => ExitInv(s, me, status);
    case Collect(me, z) => CollectInv(s, me, z);
    case _ => AwakeInv(s, Do(s, a).t);
  }

  lemma {:induction false} RunInv(s: State, acts: seq<Action>)
    requires Inv(s) && CanRun(s, acts)
    ensures Inv(Run(s, acts))
    decreases |acts|
  {
    if acts != [] {
      StepInv(s, acts[0]);
      RunInv(Do(s, acts[0]), acts[1..]);
    }
  }

  /** In every reachable state no process sleeps in `wait` while it has a zombie child, and every
      process's parent is there and has not exited. */
  lemma NoChildLost(s0: State, acts: seq<Action>, p: nat, q: nat)
    requires Initial(s0) && CanRun(s0, acts)
    requires p < |Run(s0, acts).t| && q < |Run(s0, acts).t|
    ensures var t := Run(s0, acts).t;
            && (t[p].state == SLEEPING(p) ==> !(t[q].state.ZOMBIE? && t[q].parent == p))
            && (Initialized(t[q]) ==> t[q].parent < |t| && Initialized(t[t[q].parent]) && !t[t[q].parent].state.ZOMBIE?)
  {
    InitialInv(s0);
    RunInv(s0, acts);
    var t := Run(s0, acts).t;
    assert ParentAt(t, q);
    assert t[p].state == SLEEPING(p) ==> !ZombieChild(t, p, q);
  }

  lemma {:induction false} RunKeeps(s: State, acts: seq<Action>, x: nat)
    requires Inv(s) && CanRun(s, acts)
    ensures x in s.ends ==> x in Run(s, acts).ends && Run(s, acts).ends[x] == s.ends[x]
    ensures x in s.collects ==> x in Run(s, acts).collects && Run(s, acts).collects[x] == s.collects[x]
    decreases |acts|
  {
    if acts != [] {
      StepInv(s, acts[0]);
      StepKeeps(s, acts[0], x);
      RunKeeps(Do(s, acts[0]), acts[1..], x);
    }
  }

  lemma StepKeeps(s: State, a: Action, x: nat)
    requires Inv(s) && Enabled(s, a)
    ensures x in s.ends ==> x in Do(s, a).ends && Do(s, a).ends[x] == s.ends[x]
    ensures x in s.collects ==> x in Do(s, a).collects && Do(s, a).collects[x] == s.collects[x]
  {
    if a.DoExit? { assert s.t[a.me].serial !in s.ends; }
    if a.Collect? { assert s.t[a.z].serial !in s.collects; }
  }

  /** Each process that exits is collected at most once, with the pid and status it ended with, by
      the process that forked it or by `init`; until then it stays in the table. Whatever is once in
      these records stays there. */
  lemma CollectedOnce(s0: State, acts: seq<Action>, more: seq<Action>, x: nat)
    requires Initial(s0) && CanRun(s0, acts) && CanRun(Run(s0, acts), more)
    ensures var s := Run(s0, acts);
            && s.init < |s.t|
            && (x in s.collects ==>
                  && x in s.ends && s.ends[x] == Ended(s.collects[x].pid, s.collects[x].status)
                  && (s.collects[x].collector == s.t[s.init].serial ||
                      (x in s.born && s.collects[x].collector == s.born[x]))
                  && x in Run(s, more).collects && Run(s, more).collects[x] == s.collects[x])
            && (x in s.ends && x !in s.collects ==>
                  exists p ::
                    && 0 <= p < |s.t| && s.t[p].serial == x && s.t[p].state == ZOMBIE(s.ends[x].status)
                    && s.t[p].pid == s.ends[x].pid)
            && (forall p :: 0 <= p < |s.t| && s.t[p].state.ZOMBIE? ==>
                  s.t[p].serial in s.ends && s.t[p].serial !in s.collects)
  {
    InitialInv(s0);
    RunInv(s0, acts);
    var s := Run(s0, acts);
    RunKeeps(s, more, x);
    if x in s.ends && x !in s.collects {
      assert InTable(s.t, x);
      var p :| 0 <= p < |s.t| && s.t[p].state.ZOMBIE? && s.t[p].serial == x;
      assert s.ends[x] == Ended(s.t[p].pid, s.t[p].state.status);
    }
  }
}
