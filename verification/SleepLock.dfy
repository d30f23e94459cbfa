/** The sleep lock over every interleaving of its steps with those of `sleep` and `wakeup`
    (kernel/src/sleeplock.rs:31-53, kernel/src/proc.rs:466-478, 627-637). Each step takes or drops
    one of the two spin locks involved, the lock's own and PROCS, or is what is done under them. */
module SleepLock {
  import opened Options

  /** Where a process is. */
  datatype PC =
    | Outside          // not using the lock
    | Entering         // acquire: about to take the inner lock
    | Testing          // holds the inner lock, at the test of `locked`
    | ToSleep          // saw `locked`; in sleep, about to take PROCS
    | Both             // holds PROCS and the inner lock
    | Dropped          // holds PROCS only, about to become SLEEPING
    | Asleep           // SLEEPING on the lock
    | Woken            // RUNNABLE again, not yet scheduled
    | Holding          // acquire has returned
    | Leaving          // release: about to take the inner lock
    | Clearing         // holds the inner lock, `locked` still set
    | Cleared          // `locked` cleared, about to take PROCS in wakeup
    | Waking           // holds PROCS and the inner lock
    | Woke             // sleepers are RUNNABLE, PROCS dropped, about to drop the inner lock

  datatype State = State(spin: Option<nat>, procs: Option<nat>, locked: bool, pid: Option<nat>, pc: seq<PC>)

  predicate HasSpin(c: PC) { c.Testing? || c.ToSleep? || c.Both? || c.Clearing? || c.Cleared? || c.Waking? || c.Woke? }
  predicate HasProcs(c: PC) { c.Both? || c.Dropped? || c.Waking? }
  predicate Owns(c: PC) { c.Holding? || c.Leaving? || c.Clearing? }
  predicate Wakes(c: PC) { c.Cleared? || c.Waking? }
  predicate Sleeps(c: PC) { c.Dropped? || c.Asleep? }

  /** Process `p` can take its next step. A spin lock can be taken when it is free; a woken process
      runs again when the scheduler, holding PROCS, switches to it. */
  predicate Can(s: State, p: nat) {
    && p < |s.pc|
    && match s.pc[p] {
         case Entering => s.spin.None?
         case Leaving => s.spin.None?
         case ToSleep => s.procs.None?
         case Cleared => s.procs.None?
         case Woken => s.procs.None?
         case Asleep => false
         case _ => true
       }
  }

  function WakeAll(pc: seq<PC>): (r: seq<PC>)
    ensures |r| == |pc|
  {
    seq(|pc|, i requires 0 <= i < |pc| => if pc[i].Asleep? then Woken else pc[i])
  }

  /** The next step of process `p`. */
  function Step(s: State, p: nat): State
    requires Can(s, p)
  {
    match s.pc[p]
    case Outside => s.(pc := s.pc[p := Entering])
    case Entering => s.(spin := Some(p), pc := s.pc[p := Testing])
    case Testing =>
      if s.locked then s.(pc := s.pc[p := ToSleep])
      else s.(locked := true, pid := Some(p), spin := None, pc := s.pc[p := Holding])
    case ToSleep => s.(procs := Some(p), pc := s.pc[p := Both])
    case Both => s.(spin := None, pc := s.pc[p := Dropped])
    case Dropped => s.(procs := None, pc := s.pc[p := Asleep])
    case Woken => s.(pc := s.pc[p := Entering])
    case Holding => s.(pc := s.pc[p := Leaving])
    case Leaving => s.(spin := Some(p), pc := s.pc[p := Clearing])
    case Clearing => s.(locked := false, pid := None, pc := s.pc[p := Cleared])
    case Cleared => s.(procs := Some(p), pc := s.pc[p := Waking])
    case Waking => s.(procs := None, pc := WakeAll(s.pc)[p := Woke])
    case Woke => s.(spin := None, pc := s.pc[p := Outside])
  }

  /** `kill` makes a sleeper runnable; it takes PROCS to do so. */
  predicate CanKill(s: State, p: nat) { p < |s.pc| && s.pc[p].Asleep? && s.procs.None? }

  function Kill(s: State, p: nat): State
    requires CanKill(s, p)
  {
    s.(pc := s.pc[p := Woken])
  }

  datatype Action = Go(p: nat) | Killed(p: nat)

  predicate Enabled(s: State, a: Action) {
    match a
    case Go(p) => Can(s, p)
    case Killed(p) => CanKill(s, p)
  }

  function Do(s: State, a: Action): State
    requires Enabled(s, a)
  {
    match a
    case Go(p) => Step(s, p)
    case Killed(p) => Kill(s, p)
  }

  predicate CanRun(s: State, acts: seq<Action>)
    decreases |acts|
  {
    acts == [] || (Enabled(s, acts[0]) && CanRun(Do(s, acts[0]), acts[1..]))
  }

  function Run(s: State, acts: seq<Action>): State
    requires CanRun(s, acts)
    decreases |acts|
  {
    if acts == [] then s else Run(Do(s, acts[0]), acts[1..])
  }

  predicate Initial(s: State) {
    s.spin.None? && s.procs.None? && !s.locked && s.pid.None? && forall p :: 0 <= p < |s.pc| ==> s.pc[p].Outside?
  }

  /** Who holds what; a process that goes to sleep saw `locked` set and still finds it so; and while
      anybody sleeps the lock is held or its releaser is about to wake the sleepers. */
  ghost predicate Inv(s: State) {
    && (forall p {:trigger s.pc[p]} :: 0 <= p < |s.pc| ==>
          && (HasSpin(s.pc[p]) <==> s.spin == Some(p))
          && (HasProcs(s.pc[p]) <==> s.procs == Some(p))
          && (Owns(s.pc[p]) <==> s.pid == Some(p))
          && (s.pc[p].ToSleep? || s.pc[p].Both? ==> s.locked)
          && (Sleeps(s.pc[p]) ==> s.locked || (s.spin.Some? && s.spin.value < |s.pc| && Wakes(s.pc[s.spin.value]))))
    && (s.locked <==> s.pid.Some?)
    && (s.spin.Some? ==> s.spin.value < |s.pc|) && (s.procs.Some? ==> s.procs.value < |s.pc|) &&
       (s.pid.Some? ==> s.pid.value < |s.pc|)
  }

  lemma AcquireInv(s: State, p: nat)
    requires Inv(s) && Can(s, p) && (s.pc[p].Outside? || s.pc[p].Entering? || s.pc[p].Testing?)
    ensures Inv(Step(s, p))
  {
  }

  lemma SleepInv(s: State, p: nat)
    requires Inv(s) && Can(s, p) && (s.pc[p].ToSleep? || s.pc[p].Both? || s.pc[p].Dropped? || s.pc[p].Woken?)
    ensures Inv(Step(s, p))
  {
  }

  lemma ReleaseInv(s: State, p: nat)
    requires Inv(s) && Can(s, p) && (s.pc[p].Holding? || s.pc[p].Leaving? || s.pc[p].Clearing? || s.pc[p].Woke?)
    ensures Inv(Step(s, p))
  {
  }

  lemma WakeupInv(s: State, p: nat)
    requires Inv(s) && Can(s, p) && Wakes(s.pc[p])
    ensures Inv(Step(s, p))
  {
  }

  lemma StepInv(s: State, p: nat)
    requires Inv(s) && Can(s, p)
    ensures Inv(Step(s, p))
  {
    var c := s.pc[p];
    if c.Outside? || c.Entering? || c.Testing? {
      AcquireInv(s, p);
    } else if c.ToSleep? || c.Both? || c.Dropped? || c.Woken? {
      SleepInv(s, p);
    } else if Wakes(c) {
      WakeupInv(s, p);
    } else {
      ReleaseInv(s, p);
    }
  }

  lemma KillInv(s: State, p: nat)
    requires Inv(s) && CanKill(s, p)
    ensures Inv(Kill(s, p))
  {
  }

  lemma {:induction false} RunInv(s: State, acts: seq<Action>)
    requires Inv(s) && CanRun(s, acts)
    ensures Inv(Run(s, acts))
    decreases |acts|
  {
    if acts != [] {
      match acts[0] {
        case Go(p) => StepInv(s, p);
        case Killed(p) => KillInv(s, p);
      }
      RunInv(Do(s, acts[0]), acts[1..]);
    }
  }

  /** In every run at most one process holds the lock. */
  lemma MutualExclusion(s: State, acts: seq<Action>, p: nat, q: nat)
    requires Initial(s) && CanRun(s, acts) && p < |Run(s, acts).pc| && q < |Run(s, acts).pc|
    ensures var pc := Run(s, acts).pc; Owns(pc[p]) && Owns(pc[q]) ==> p == q
  {
    RunInv(s, acts);
  }

  /** In every run, when the inner lock is free and `locked` is false nobody sleeps on the lock. */
  lemma NoSleeperLeft(s: State, acts: seq<Action>, p: nat)
    requires Initial(s) && CanRun(s, acts) && p < |Run(s, acts).pc|
    ensures var r := Run(s, acts); r.spin.None? && !r.locked ==> !r.pc[p].Asleep?
  {
    RunInv(s, acts);
  }
}
