/** The process table and what each critical section of PROCS does to it
    (kernel/src/proc.rs:277-307, 393-478, 589-651). A process's own channel is its slot number; other
    channels are numbers beyond the table. */
module Proc {

  datatype ProcState = UNUSED | SLEEPING(chan: nat) | RUNNABLE | RUNNING | ZOMBIE(status: int)

  /** `serial` numbers processes over all time; it is not stored by the kernel. */
  datatype Process = Process(state: ProcState, pid: nat, parent: nat, killed: bool, serial: nat)

  type Table = seq<Process>

  predicate Initialized(p: Process) { !p.state.UNUSED? }

  /** `wakeup1`. */
  function Wake(t: Table, chan: nat): (r: Table)
    ensures |r| == |t|
  {
    seq(|t|, i requires 0 <= i < |t| => if t[i].state == SLEEPING(chan) then t[i].(state := RUNNABLE) else t[i])
  }

  predicate ZombieChild(t: Table, parent: nat, i: nat)
    requires i < |t|
  {
    t[i].state.ZOMBIE? && t[i].parent == parent
  }

  ghost predicate AnyZombie(t: Table, parent: nat, k: nat) {
    exists j :: k <= j < |t| && ZombieChild(t, parent, j)
  }

  /** The loop of `exit` over slots `k` and up: children go to `init`, which is woken for each that
      is a zombie. */
  function Reparent(t: Table, me: nat, init: nat, k: nat): (r: Table)
    requires k <= |t|
    ensures |r| == |t|
    decreases |t| - k
  {
    if k == |t| then t
    else if Initialized(t[k]) && t[k].parent == me then
      var t1 := t[k := t[k].(parent := init)];
      Reparent(if t[k].state.ZOMBIE? then Wake(t1, init) else t1, me, init, k + 1)
    else Reparent(t, me, init, k + 1)
  }

  /** `exit` from the point where it takes PROCS. */
  function Exit(t: Table, me: nat, init: nat, status: int): (r: Table)
    requires me < |t|
    ensures |r| == |t|
  {
    var t1 := Reparent(Wake(t, t[me].parent), me, init, 0);
    t1[me := t1[me].(state := ZOMBIE(status))]
  }

  /** What the loop does to slot `i`. */
  lemma {:induction false} ReparentAt(t: Table, me: nat, init: nat, k: nat, i: nat)
    requires k <= |t| && i < |t| && me != init
    ensures var p := Reparent(t, me, init, k)[i];
            && p.parent == (if i >= k && Initialized(t[i]) && t[i].parent == me then init else t[i].parent)
            && p == t[i].(parent := p.parent, state := p.state)
            && p.state == if t[i].state == SLEEPING(init) && AnyZombie(t, me, k) then RUNNABLE else t[i].state
    decreases |t| - k
  {
    if k < |t| {
      assert AnyZombie(t, me, k) <==> ZombieChild(t, me, k) || AnyZombie(t, me, k + 1);
      if Initialized(t[k]) && t[k].parent == me {
        var t1 := t[k := t[k].(parent := init)];
        var t2 := if t[k].state.ZOMBIE? then Wake(t1, init) else t1;
        ReparentAt(t2, me, init, k + 1, i);
        assert forall j :: k + 1 <= j < |t| ==> (ZombieChild(t2, me, j) <==> ZombieChild(t, me, j));
      } else {
        ReparentAt(t, me, init, k + 1, i);
      }
    }
  }

  /** `wait1`'s collection of the zombie in slot `z`. */
  function Reap(t: Table, z: nat): (r: Table)
    requires z < |t|
    ensures |r| == |t|
  {
    t[z := t[z].(state := UNUSED, pid := 0, parent := 0, killed := false)]
  }

  /** `fork` into the unused slot `c`. */
  function Fork(t: Table, me: nat, c: nat, pid: nat, serial: nat): (r: Table)
    requires c < |t|
    ensures |r| == |t|
  {
    t[c := t[c].(state := RUNNABLE, pid := pid, parent := me, serial := serial)]
  }

  function SetState(t: Table, p: nat, s: ProcState): (r: Table)
    requires p < |t|
    ensures |r| == |t|
  {
    t[p := t[p].(state := s)]
  }

  /** `kill` of the process in slot `p`. */
  function Kill(t: Table, p: nat): (r: Table)
    requires p < |t|
    ensures |r| == |t|
  {
    t[p := t[p].(killed := true, state := if t[p].state.SLEEPING? then RUNNABLE else t[p].state)]
  }
}
