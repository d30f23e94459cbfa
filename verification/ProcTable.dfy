/** The process table as the kernel changes it, slot by slot, under PROCS
    (kernel/src/proc.rs:277-307, 393-478, 589-651). */
module ProcTable {
  import opened Proc
  import opened ProcRuns

  ghost predicate OtherSlots(t: Table, t': Table, p: nat) {
    |t'| == |t| && forall i {:trigger t'[i]} :: 0 <= i < |t| && i != p ==> t'[i] == t[i]
  }

  class Procs {
    var procs: Table
    const init: nat

    /** `wakeup1`. */
    method Wakeup1(chan: nat)
      modifies this`procs
      ensures procs == Wake(old(procs), chan) && |procs| == |old(procs)|
      ensures forall i {:trigger procs[i]} :: 0 <= i < |procs| ==>
                if old(procs)[i].state == SLEEPING(chan) then procs[i] == old(procs)[i].(state := RUNNABLE)
                else procs[i] == old(procs)[i]
    {
      for i := 0 to |procs|
        invariant |procs| == |old(procs)|
        invariant forall j {:trigger procs[j]} :: 0 <= j < i ==> procs[j] == Wake(old(procs), chan)[j]
        invariant forall j {:trigger procs[j]} :: i <= j < |procs| ==> procs[j] == old(procs)[j]
      {
        if procs[i].state == SLEEPING(chan) {
          procs := procs[i := procs[i].(state := RUNNABLE)];
        }
      }
    }

    /** `exit`, from taking PROCS to the switch to the scheduler. */
    method ExitProc(me: nat, status: int)
      requires me < |procs|
      modifies this`procs
      ensures procs == Exit(old(procs), me, init, status) && procs[me].state == ZOMBIE(status)
    {
      Wakeup1(procs[me].parent);
      ghost var t1 := procs;
      for k := 0 to |procs|
        invariant |procs| == |t1|
        invariant Reparent(procs, me, init, k) == Reparent(t1, me, init, 0)
      {
        if Initialized(procs[k]) && procs[k].parent == me {
          var zombie := procs[k].state.ZOMBIE?;
          procs := procs[k := procs[k].(parent := init)];
          if zombie { Wakeup1(init); }
        }
      }
      procs := procs[me := procs[me].(state := ZOMBIE(status))];
    }

    /** One pass of `wait1`: the first zombie child in table order is collected; without one the
        caller sleeps on its own channel, or gives up when it has no child or has been killed. */
    method Wait1(me: nat) returns (got: bool, pid: nat, status: int, ghost z: nat)
      requires me < |procs|
      modifies this`procs
      ensures z <= |procs| == |old(procs)| && NoZombieBefore(old(procs), me, z)
      ensures got <==> z < |procs|
      ensures got ==> ZombieChild(old(procs), me, z) && pid == old(procs)[z].pid && status == old(procs)[z].state.status
                      && procs == Reap(old(procs), z)
      ensures got ==>
                && procs[z].state == UNUSED && procs[z].pid == 0 && !procs[z].killed && OtherSlots(old(procs), procs, z)
      ensures !got ==>
                var kids :=
                  exists i :: 0 <= i < |old(procs)| && Initialized(old(procs)[i]) && old(procs)[i].parent == me;
                if kids && !old(procs)[me].killed
                then
                  && procs[me] == old(procs)[me].(state := SLEEPING(me)) && OtherSlots(old(procs), procs, me)
                  && procs == SetState(old(procs), me, SLEEPING(me))
                else procs == old(procs)
    {
      var kids := false;
      z := 0;
      for i := 0 to |procs|
        invariant z == i && procs == old(procs) && NoZombieBefore(procs, me, i)
        invariant kids <==> exists j :: 0 <= j < i && Initialized(procs[j]) && procs[j].parent == me
      {
        if Initialized(procs[i]) && procs[i].parent == me {
          kids := true;
          if procs[i].state.ZOMBIE? {
            assert ZombieChild(procs, me, i);
            pid, status := procs[i].pid, procs[i].state.status;
            procs := procs[i := procs[i].(pid := 0, parent := 0, killed := false, state := UNUSED)];
            return true, pid, status, i;
          }
        }
        assert !ZombieChild(procs, me, i);
        z := i + 1;
      }
      got, pid, status := false, 0, 0;
      if kids && !procs[me].killed {
        procs := procs[me := procs[me].(state := SLEEPING(me))];
      }
    }

    /** `fork`: the first unused slot, if there is one, becomes a runnable child of the caller; when
        the address space cannot be copied the slot stays unused. */
    method ForkProc(me: nat, pid: nat, copied: bool) returns (ok: bool, c: nat)
      requires me < |procs|
      modifies this`procs
      ensures c <= |procs| == |old(procs)| && (forall i :: 0 <= i < c ==> old(procs)[i].state != UNUSED)
      ensures ok <==> c < |procs| && copied
      ensures c < |procs| ==> old(procs)[c].state == UNUSED
      ensures ok ==> procs[c] == Fork(old(procs), me, c, pid, procs[c].serial)[c] && procs == old(procs)[c := procs[c]]
      ensures ok ==>
                && procs[c].state == RUNNABLE && procs[c].pid == pid && procs[c].parent == me
                && procs[c].killed == old(procs)[c].killed && OtherSlots(old(procs), procs, c)
      ensures !ok && c < |procs| ==> procs == old(procs)[c := old(procs)[c].(pid := pid)]
      ensures c == |procs| ==> procs == old(procs)
    {
      c := 0;
      while c < |procs| && procs[c].state != UNUSED
        invariant c <= |procs| && procs == old(procs) && forall i :: 0 <= i < c ==> procs[i].state != UNUSED
      {
        c := c + 1;
      }
      if c == |procs| { return false, c; }
      procs := procs[c := procs[c].(pid := pid)];
      ok := copied;
      if ok {
        procs := procs[c := procs[c].(parent := me, state := RUNNABLE)];
      }
    }

    /** `kill`: the first slot with the pid, asleep or not, is marked; a sleeper becomes runnable. */
    method KillPid(pid: nat) returns (p: nat)
      modifies this`procs
      ensures p <= |procs| == |old(procs)| && (forall i :: 0 <= i < p ==> old(procs)[i].pid != pid)
      ensures p < |procs| ==> old(procs)[p].pid == pid && procs == Kill(old(procs), p)
      ensures p < |procs| ==>
                && procs[p].killed && procs[p].pid == pid && procs[p].parent == old(procs)[p].parent
                && procs[p].state == (if old(procs)[p].state.SLEEPING? then RUNNABLE else old(procs)[p].state)
                && OtherSlots(old(procs), procs, p)
      ensures p == |procs| ==> procs == old(procs)
    {
      p := 0;
      while p < |procs| && procs[p].pid != pid
        invariant p <= |procs| && procs == old(procs) && forall i :: 0 <= i < p ==> procs[i].pid != pid
      {
        p := p + 1;
      }
      if p < |procs| {
        procs := procs[p := procs[p].(killed := true)];
        if procs[p].state.SLEEPING? {
          procs := procs[p := procs[p].(state := RUNNABLE)];
        }
      }
    }
  }
}
