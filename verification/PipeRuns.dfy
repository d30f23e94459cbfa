/** A pipe between any number of readers and writers, over every interleaving of their critical
    sections (kernel/src/pipe.rs:109-172, kernel/src/proc.rs:466-478). A section runs from taking the
    pipe's lock to the return or to the sleep that drops the lock; `sleep` takes PROCS before it
    drops it, so no wakeup falls between. A woken process runs its section again. */
module PipeRuns {
  import opened Pipe

  /** The bytes written and those read so far, the open flags, who sleeps on which channel, and who
      has been killed. */
  datatype State = State(written: seq<Byte>, got: seq<Byte>, readOpen: bool, writeOpen: bool,
                         readers: set<nat>, writers: set<nat>, dead: set<nat>)

  datatype Action =
    | Read(p: nat, n: nat)
    | Write(p: nat, buf: seq<Byte>)
    | CloseRead
    | CloseWrite
    | Kill(p: nat)

  function Unread(s: State): nat
    requires |s.got| <= |s.written|
  {
    |s.written| - |s.got|
  }

  predicate Awake(s: State, p: nat) { p !in s.readers && p !in s.writers }

  /** A process asleep takes no step; an end is closed when nobody uses it. */
  predicate Enabled(s: State, a: Action) {
    && |s.got| <= |s.written|
    && match a {
         case Read(p, n) => Awake(s, p) && s.readOpen
         case Write(p, buf) => Awake(s, p) && s.writeOpen
         case CloseRead => s.readers == {}
         case CloseWrite => s.writers == {}
         case Kill(p) => true
       }
  }

  predicate Readable(s: State)
    requires |s.got| <= |s.written|
  {
    Unread(s) > 0 || !s.writeOpen
  }

  /** Bytes a read of up to `n` returns once the pipe is readable. */
  function Chunk(s: State, n: nat): seq<Byte>
    requires |s.got| <= |s.written|
  {
    s.written[|s.got| .. |s.got| + (if n < Unread(s) then n else Unread(s))]
  }

  /** How many of the bytes fit. */
  function Fit(s: State, buf: seq<Byte>): nat
    requires |s.got| <= |s.written| <= |s.got| + PAGE
  {
    if |buf| < PAGE - Unread(s) then |buf| else PAGE - Unread(s)
  }

  function Do(s: State, a: Action): State
    requires Enabled(s, a) && |s.written| <= |s.got| + PAGE
  {
    match a
    case Read(p, n) =>
      if !Readable(s) then if p in s.dead then s else s.(readers := s.readers + {p})
      else s.(got := s.got + Chunk(s, n), writers := {})
    case Write(p, buf) =>
      var s' := s.(written := s.written + buf[.. Fit(s, buf)]);
      if Fit(s, buf) == |buf| then s'.(readers := {})
      else if !s.readOpen then s'
      else s'.(readers := {}, writers := s.writers + {p})
    case CloseRead => s.(readOpen := false, writers := {})
    case CloseWrite => s.(writeOpen := false, readers := {})
    case Kill(p) => s.(readers := s.readers - {p}, writers := s.writers - {p}, dead := s.dead + {p})
  }

  /** Bytes read are a prefix of those written, with at most a page between; a sleeping reader waits
      for an empty pipe to fill, a sleeping writer for a full one to drain. */
  ghost predicate Inv(s: State) {
    && |s.got| <= |s.written| <= |s.got| + PAGE && s.got == s.written[.. |s.got|]
    && (s.readers != {} ==> |s.got| == |s.written| && s.writeOpen && s.readOpen)
    && (s.writers != {} ==> |s.written| == |s.got| + PAGE && s.readOpen && s.writeOpen)
  }

  lemma StepInv(s: State, a: Action)
    requires Inv(s) && Enabled(s, a)
    ensures Inv(Do(s, a))
  {
    var s' := Do(s, a);
    match a
    case Read(p, n) =>
      if Readable(s) { assert s'.got == s.written[.. |s'.got|]; }
    case Write(p, buf) =>
      assert s'.written[.. |s.got|] == s.written[.. |s.got|];
    case _ =>
  }

  predicate CanRun(s: State, acts: seq<Action>)
    decreases |acts|
  {
    acts == [] || (Enabled(s, acts[0]) && |s.written| <= |s.got| + PAGE && CanRun(Do(s, acts[0]), acts[1..]))
  }

  function Run(s: State, acts: seq<Action>): State
    requires CanRun(s, acts)
    decreases |acts|
  {
    if acts == [] then s else Run(Do(s, acts[0]), acts[1..])
  }

  const START: State := State([], [], true, true, {}, {}, {})

  lemma {:induction false} RunInv(s: State, acts: seq<Action>)
    requires Inv(s) && CanRun(s, acts)
    ensures Inv(Run(s, acts))
    decreases |acts|
  {
    if acts != [] {
      StepInv(s, acts[0]);
      RunInv(Do(s, acts[0]), acts[1..]);
    }
  }

  /** In every run the bytes read are a prefix of the bytes written, at most a page behind. */
  lemma ReadIsPrefix(acts: seq<Action>)
    requires CanRun(START, acts)
    ensures var s := Run(START, acts); s.got <= s.written && |s.written| - |s.got| <= PAGE
  {
    RunInv(START, acts);
  }

  // What is written is what the writers passed in.

  /** The first `ns[k]` bytes of the buffer of the `k`-th action, over all actions that write. */
  function Accepted(acts: seq<Action>, ns: seq<nat>): seq<Byte>
    requires Counts(acts, ns)
  {
    if acts == [] then []
    else (if acts[0].Write? then acts[0].buf[.. ns[0]] else []) + Accepted(acts[1..], ns[1..])
  }

  predicate Counts(acts: seq<Action>, ns: seq<nat>) {
    |ns| == |acts| &&
    forall k {:trigger ns[k]} :: 0 <= k < |ns| ==> ns[k] <= if acts[k].Write? then |acts[k].buf| else 0
  }

  /** A write takes as many of its bytes as there is room for, in order, and no other step adds any. */
  lemma WrittenStep(s: State, a: Action) returns (n: nat)
    requires Inv(s) && Enabled(s, a)
    ensures if a.Write? then n <= |a.buf| && Do(s, a).written == s.written + a.buf[.. n]
            else n == 0 && Do(s, a).written == s.written
    ensures a.Write? && n < |a.buf| ==> |Do(s, a).written| == |s.got| + PAGE
  {
    n := if a.Write? then Fit(s, a.buf) else 0;
  }

  /** After the `k`-th action a whole page is unread. */
  predicate FullAfter(s: State, acts: seq<Action>, k: nat)
    requires CanRun(s, acts) && k < |acts|
    decreases k
  {
    var s' := Do(s, acts[0]);
    if k == 0 then |s'.written| == |s'.got| + PAGE else FullAfter(s', acts[1..], k - 1)
  }

  lemma {:induction false} WrittenRun(s: State, acts: seq<Action>) returns (ns: seq<nat>)
    requires Inv(s) && CanRun(s, acts)
    ensures Counts(acts, ns) && Run(s, acts).written == s.written + Accepted(acts, ns)
    ensures forall k {:trigger ns[k]} :: 0 <= k < |acts| && acts[k].Write? && ns[k] < |acts[k].buf| ==>
              FullAfter(s, acts, k)
    decreases |acts|
  {
    if acts == [] {
      ns := [];
    } else {
      StepInv(s, acts[0]);
      var n := WrittenStep(s, acts[0]);
      var rest := WrittenRun(Do(s, acts[0]), acts[1..]);
      ns := [n] + rest;
      assert ns[1..] == rest;
      forall k | 0 <= k < |ns| ensures ns[k] <= if acts[k].Write? then |acts[k].buf| else 0 {
        if k > 0 { assert ns[k] == rest[k - 1] && acts[k] == acts[1..][k - 1]; }
      }
      forall k | 0 <= k < |acts| && acts[k].Write? && ns[k] < |acts[k].buf| ensures FullAfter(s, acts, k) {
        if k > 0 { assert ns[k] == rest[k - 1] && acts[k] == acts[1..][k - 1]; }
      }
    }
  }

  /** In every run the bytes written are, in the order of the writes, a prefix of the buffer of each, all
      of it unless the page is full then; and the bytes read are a prefix of those. */
  lemma ReadIsPassedIn(acts: seq<Action>) returns (ns: seq<nat>)
    requires CanRun(START, acts)
    ensures Counts(acts, ns) && Run(START, acts).written == Accepted(acts, ns)
    ensures Run(START, acts).got <= Accepted(acts, ns)
    ensures forall k {:trigger ns[k]} :: 0 <= k < |acts| && acts[k].Write? && ns[k] < |acts[k].buf| ==>
              FullAfter(START, acts, k)
  {
    ns := WrittenRun(START, acts);
    ReadIsPrefix(acts);
    assert [] + Accepted(acts, ns) == Accepted(acts, ns);
  }

  /** A killed reader never goes to sleep again. */
  lemma {:induction false} KilledNeverSleeps(s: State, acts: seq<Action>, k: nat)
    requires CanRun(s, acts) && k < |acts| && acts[k].Kill?
    ensures acts[k].p !in Run(s, acts).readers
    decreases |acts|
  {
    if k == 0 {
      DeadStays(Do(s, acts[0]), acts[1..], acts[0].p);
    } else {
      KilledNeverSleeps(Do(s, acts[0]), acts[1..], k - 1);
    }
  }

  lemma {:induction false} DeadStays(s: State, acts: seq<Action>, p: nat)
    requires CanRun(s, acts) && p in s.dead && p !in s.readers
    ensures p !in Run(s, acts).readers
    decreases |acts|
  {
    if acts != [] { DeadStays(Do(s, acts[0]), acts[1..], p); }
  }

  /** In every run, between critical sections, no reader and writer sleep at the same time. */
  lemma NeverBothAsleep(acts: seq<Action>)
    requires CanRun(START, acts)
    ensures var s := Run(START, acts); s.readers == {} || s.writers == {}
  {
    RunInv(START, acts);
  }

  /** A read of at least one byte that returns none finds the writer closed and all bytes drained. */
  lemma EmptyReadMeansEnd(acts: seq<Action>, p: nat, n: nat)
    requires CanRun(START, acts) && Enabled(Run(START, acts), Read(p, n)) && n > 0
    ensures var s := Run(START, acts); Readable(s) && Chunk(s, n) == [] ==> !s.writeOpen && s.got == s.written
  {
    RunInv(START, acts);
    var s := Run(START, acts);
    assert |s.got| == |s.written| ==> s.written[.. |s.got|] == s.written;
  }

  /** A reader asleep can be woken only by a writer or by the end of the writers, and both wake it: it
      sleeps on only while there is nothing for it to return. */
  lemma SleepersWaitForCause(acts: seq<Action>)
    requires CanRun(START, acts)
    ensures var s := Run(START, acts);
            && (s.readers != {} ==> s.got == s.written && s.writeOpen)
            && (s.writers != {} ==> |s.written| == |s.got| + PAGE && s.readOpen)
  {
    RunInv(START, acts);
    var s := Run(START, acts);
    assert |s.got| == |s.written| ==> s.written[.. |s.got|] == s.written;
  }

  /** How a critical section ends. */
  datatype End = Done(n: nat) | Slept(n: nat) | Dead | Broken | Panic

  /** A pipe with the processes asleep on its channels: the critical sections as code. */
  class Shared {
    const ring: Ring
    var readers: set<nat>
    var writers: set<nat>
    var dead: set<nat>

    ghost predicate Valid()
      reads this, ring
    {
      ring.Valid()
    }

    ghost function Now(): State
      reads this, ring
      requires Valid()
    {
      State(ring.written, ring.written[.. ring.count], ring.readOpen, ring.writeOpen, readers, writers, dead)
    }

    constructor (checked: bool)
      ensures Valid() && fresh(ring) && Now() == START && ring.checked == checked
    {
      ring := new Ring(checked);
      readers, writers, dead := {}, {}, {};
    }

    /** `read` from taking the lock to the return or the sleep. */
    method Read(p: nat, buf: array<Byte>) returns (end: End)
      requires Valid() && Enabled(Now(), Action.Read(p, buf.Length))
      modifies ring`nread, ring`count, this`readers, this`writers, buf
      ensures Valid() && Now() == Do(old(Now()), Action.Read(p, buf.Length))
      ensures end == if Readable(old(Now())) then Done(|Chunk(old(Now()), buf.Length)|)
                     else if p in dead then Dead else Slept(0)
      ensures end.Done? ==>
                && end.n == (if buf.Length < |ring.written| - old(ring.count) then buf.Length
                             else |ring.written| - old(ring.count))
                && buf[.. end.n] == ring.written[old(ring.count) .. old(ring.count) + end.n]
      ensures ring.count == old(ring.count) + (if end.Done? then end.n else 0)
      ensures buf[if end.Done? then end.n else 0 ..] == old(buf[if end.Done? then end.n else 0 ..])
      ensures readers == old(readers) + (if end.Slept? then {p} else {})
      ensures writers == if end.Done? then {} else old(writers)
    {
      var empty := ring.IsEmpty();
      if empty && ring.writeOpen {
        if p in dead { return Dead; }
        readers := readers + {p};
        return Slept(0);
      }
      var k := ring.ReadSome(buf);
      writers := {};
      assert ring.written[.. old(ring.count)] + ring.written[old(ring.count) .. ring.count] ==
               ring.written[.. ring.count];
      end := Done(k);
    }

    /** `write` from taking the lock, at its start or after a sleep, to the return or the next sleep:
        the bytes from `i` on are still to be written. */
    method Write(p: nat, buf: seq<Byte>, i: nat) returns (end: End)
      requires Valid() && i <= |buf| && Enabled(Now(), Action.Write(p, buf[i ..]))
      modifies ring`nwrite, ring`data, ring`written, this`readers, this`writers
      ensures Valid() && (end.Panic? <==> i < |buf| && old(ring.Overflows()))
      ensures end.Panic? ==> Now() == old(Now())
      ensures !end.Panic? ==> Now() == Do(old(Now()), Action.Write(p, buf[i ..]))
      ensures var room := old(PAGE - (|ring.written| - ring.count));
              var n := if end.Panic? then 0 else if |buf| - i < room then |buf| - i else room;
              && ring.written == old(ring.written) + buf[i .. i + n]
              && (!end.Panic? ==>
                    end == if i + n == |buf| then Done(|buf|) else if ring.readOpen then Slept(i + n) else Broken)
      ensures readers == if end.Done? || end.Slept? then {} else old(readers)
      ensures writers == old(writers) + (if end.Slept? then {p} else {})
    {
      var r := ring.WriteSome(buf, i);
      assert ring.written[.. ring.count] == old(ring.written[.. ring.count]);
      if r.None? { return Panic; }
      assert buf[i .. r.value] == buf[i ..][.. r.value - i];
      if r.value == |buf| {
        readers := {};
        return Done(|buf|);
      }
      if !ring.readOpen { return Broken; }
      readers, writers := {}, writers + {p};
      end := Slept(r.value);
    }

    /** `close` of the reading end. */
    method CloseReader()
      requires Valid() && Enabled(Now(), CloseRead)
      modifies ring`readOpen, this`writers
      ensures Valid() && Now() == Do(old(Now()), CloseRead) && !ring.readOpen && writers == {}
    {
      ring.readOpen := false;
      writers := {};
    }

    /** `close` of the writing end. */
    method CloseWriter()
      requires Valid() && Enabled(Now(), CloseWrite)
      modifies ring`writeOpen, this`readers
      ensures Valid() && Now() == Do(old(Now()), CloseWrite) && !ring.writeOpen && readers == {}
    {
      ring.writeOpen := false;
      readers := {};
    }
  }
}
