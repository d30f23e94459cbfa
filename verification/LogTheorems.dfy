/** What the log protocol guarantees in every run, and where its two size tests disagree. */
module LogTheorems {
  import opened LogFormat
  import opened LogProtocol

  lemma StepInv(g: Geometry, d0: Disk, s: State, t: State, a: Action)
    requires Inv(g, d0, s) && Step(g, s, t, a)
    ensures Inv(g, d0, t)
  {
    match a
    case ABegin(p) => BeginInv(g, d0, s, t, p);
    case ALogWrite(p, b, data) => LogWriteInv(g, d0, s, t, p, b, data);
    case AScribble(p, b, data) => ScribbleInv(g, d0, s, t, p, b, data);
    case AFetch(b) => FetchInv(g, d0, s, t, b);
    case ARecycle(b) => RecycleInv(g, d0, s, t, b);
    case AEnd(p) => EndInv(g, d0, s, t, p);
    case ACommitStep => CommitStepInv(g, d0, s, t);
    case AFinishCommit => FinishCommitInv(g, d0, s, t);
    case ACrash => CrashInv(g, d0, s, t);
    case AReadLog => ReadLogInv(g, d0, s, t);
    case AReplayStep => ReplayStepInv(g, d0, s, t);
  }

  lemma {:induction false} RunInv(g: Geometry, d0: Disk, ss: seq<State>, acts: seq<Action>, i: nat)
    requires Run(g, d0, ss, acts) && i < |ss|
    ensures Inv(g, d0, ss[i])
    decreases i
  {
    if i == 0 {
      InitInv(g, d0, ss[0]);
    } else {
      RunInv(g, d0, ss, acts, i - 1);
      StepInv(g, d0, ss[i - 1], ss[i], acts[i - 1]);
    }
  }

  /** All changes of operation `p`, or none, are among the committed ones. */
  ghost predicate AllOrNothing(s: State, p: OpId) {
    || (forall i :: 0 <= i < |s.changes| && s.changes[i].op == p ==> i < s.durable)
    || (forall i :: 0 <= i < |s.changes| && s.changes[i].op == p ==> i >= s.durable)
  }

  /** Crash atomicity over whole runs, with any interleaving of operations and any number of
      crashes, also inside recovery: at every moment the disk recovers to the initial contents
      with exactly the committed changes applied in order; every operation is committed entirely
      or not at all; and a committed operation has ended. */
  lemma CrashAtomicity(g: Geometry, d0: Disk, ss: seq<State>, acts: seq<Action>, i: nat)
    requires Run(g, d0, ss, acts) && i < |ss|
    ensures ss[i].durable <= |ss[i].changes| && Replayable(g, ss[i].disk) && |d0| == |ss[i].disk|
    ensures forall b :: g.Home(b) ==>
              Recovered(g, ss[i].disk, b) == Replay(d0, ss[i].changes[..ss[i].durable])[b]
    ensures forall p :: AllOrNothing(ss[i], p)
    ensures forall j :: 0 <= j < ss[i].durable ==> ss[i].changes[j].op !in ss[i].ops
  {
    RunInv(g, d0, ss, acts, i);
    var s := ss[i];
    forall p ensures AllOrNothing(s, p) {
      if j :| 0 <= j < s.durable && s.changes[j].op == p {
        assert forall k :: s.durable <= k < |s.changes| ==> s.changes[k].op != s.changes[j].op;
      }
    }
  }

  /** When no operation is active and no commit is running, everything ever logged and not lost to
      a crash is in the home blocks themselves. */
  lemma QuiescentIsDurable(g: Geometry, d0: Disk, ss: seq<State>, acts: seq<Action>, i: nat)
    requires Run(g, d0, ss, acts) && i < |ss|
    requires ss[i].phase.Running? && ss[i].outstanding == 0
    ensures ss[i].log == [] && ss[i].durable == |ss[i].changes| && |d0| == |ss[i].disk|
    ensures forall b :: g.Home(b) ==> ss[i].disk[b] == Replay(d0, ss[i].changes)[b]
  {
    RunInv(g, d0, ss, acts, i);
    var s := ss[i];
    assert s.ops == map[];
    assert s.changes[..s.durable] == s.changes;
    forall b | g.Home(b) ensures s.disk[b] == Replay(d0, s.changes)[b] {
      assert Recovered(g, s.disk, b) == s.disk[b];
    }
  }

  /** Protocol safety: while a commit runs no operation is active, the block list never changes
      except for the final clear, and no operation can end. */
  lemma CommitIsExclusive(g: Geometry, d0: Disk, ss: seq<State>, acts: seq<Action>, i: nat)
    requires Run(g, d0, ss, acts) && i < |acts|
    ensures Up(ss[i]) && ss[i].committing ==> ss[i].outstanding == 0 && ss[i].ops == map[]
    ensures Up(ss[i]) && ss[i].committing && !acts[i].ACrash? ==>
              ss[i + 1].log == ss[i].log || (acts[i].ACommitStep? && ss[i + 1].log == [])
    ensures Up(ss[i]) && ss[i].committing ==> !acts[i].AEnd? && !acts[i].ALogWrite? && !acts[i].AScribble?
    ensures ss[i].phase != Halted(EndDuringCommit)
  {
    RunInv(g, d0, ss, acts, i);
    NoEndDuringCommit(g, d0, ss, acts, i);
    assert Step(g, ss[i], ss[i + 1], acts[i]);
  }

  /** The "op end during commit" panic is unreachable. */
  lemma {:induction false} NoEndDuringCommit(g: Geometry, d0: Disk, ss: seq<State>, acts: seq<Action>, i: nat)
    requires Run(g, d0, ss, acts) && i < |ss|
    ensures ss[i].phase != Halted(EndDuringCommit)
    decreases i
  {
    if i > 0 {
      NoEndDuringCommit(g, d0, ss, acts, i - 1);
      RunInv(g, d0, ss, acts, i - 1);
      assert Step(g, ss[i - 1], ss[i], acts[i - 1]);
    }
  }

  /** No stranded waiter: somebody asleep in `begin` has an active operation or a committer to wake
      them, and the step that ends the last of those leaves nobody asleep. */
  lemma NoStrandedWaiter(g: Geometry, d0: Disk, ss: seq<State>, acts: seq<Action>, i: nat)
    requires Run(g, d0, ss, acts) && i < |ss|
    ensures Up(ss[i]) && ss[i].waiting != {} ==> ss[i].outstanding > 0 || ss[i].committing
    ensures i < |acts| && acts[i].AFinishCommit? ==> ss[i + 1].waiting == {}
    ensures i < |acts| && acts[i].AEnd? && Up(ss[i + 1]) ==>
              ss[i + 1].waiting == {} || ss[i + 1].committing
  {
    RunInv(g, d0, ss, acts, i);
    if i < |acts| {
      assert Step(g, ss[i], ss[i + 1], acts[i]);
    }
  }

  /** Pinning: from the logged write to the install, a logged block stays cached and dirty with
      the transaction's contents, and `bget` cannot recycle its buffer. */
  lemma LoggedBlockIsPinned(g: Geometry, d0: Disk, ss: seq<State>, acts: seq<Action>, i: nat, j: nat)
    requires Run(g, d0, ss, acts) && i < |acts| && Up(ss[i])
    requires j < |ss[i].log| && !Installed(|ss[i].log|, ss[i].phase, j)
    ensures var b := ss[i].log[j];
            && b < |d0| && b in ss[i].cache
            && ss[i].cache[b] == Buf(Replay(d0, ss[i].changes)[b], true)
            && acts[i] != ARecycle(b)
  {
    RunInv(g, d0, ss, acts, i);
    assert Step(g, ss[i], ss[i + 1], acts[i]);
  }

  /** The buffers `bget` cannot recycle because the log has modified them. */
  ghost function Pinned(s: State): set<nat> {
    set b | b in s.cache && s.cache[b].dirty
  }

  lemma {:induction false} FewerThanListed(s: set<nat>, log: seq<nat>)
    requires forall b :: b in s ==> b in log
    ensures |s| <= |log|
  {
    if log == [] {
      assert s == {};
    } else {
      FewerThanListed(s - {log[0]}, log[1..]);
    }
  }

  const NBUF: nat := 512

  /** In every run, up or down, some buffer is not pinned: a full log leaves exactly one for `sync`. */
  lemma OneUnpinned(g: Geometry, d0: Disk, ss: seq<State>, acts: seq<Action>, i: nat)
    requires Run(g, d0, ss, acts) && i < |ss| && !ss[i].phase.Halted?
    ensures |Pinned(ss[i])| <= |ss[i].log| <= LOGSIZE == NBUF - 1
  {
    RunInv(g, d0, ss, acts, i);
    FewerThanListed(Pinned(ss[i]), ss[i].log);
  }

  lemma HomeChange(g: Geometry, s: State, t: State, a: Action, b: nat) returns (i: nat)
    requires Step(g, s, t, a) && LogInv(g, s.log, s.phase) && g.Holds(s.disk) && g.Home(b)
    requires |t.disk| == |s.disk| && t.disk[b] != s.disk[b]
    ensures g.Loggable(s.log) && Published(|s.log|, s.phase) && i < |s.log| && s.log[i] == b
    ensures t.disk == s.disk[s.log[i] := View(s, g.Slot(i))]
  {
    i := if a.ACommitStep? then s.phase.k - |s.log| - 1 else s.phase.k;
  }

  /** Write-ahead: a home block changes on disk only while a published header names it, and what it
      gets is its committed contents. */
  lemma WriteAhead(g: Geometry, d0: Disk, ss: seq<State>, acts: seq<Action>, i: nat, b: nat)
    requires Run(g, d0, ss, acts) && i < |acts| && g.Home(b)
    requires |ss[i].disk| == |ss[i + 1].disk| == g.nblocks && ss[i + 1].disk[b] != ss[i].disk[b]
    ensures b in Header(ss[i].disk[g.start])
    ensures ss[i + 1].disk[b] == Stable(d0, ss[i])[b]
  {
    RunInv(g, d0, ss, acts, i);
    assert Step(g, ss[i], ss[i + 1], acts[i]);
    var j := HomeChange(g, ss[i], ss[i + 1], acts[i], b);
    HomeWriteIsStable(g, d0, ss[i], ss[i + 1], j);
  }

  lemma HomeWriteIsStable(g: Geometry, d0: Disk, s: State, t: State, i: nat)
    requires Inv(g, d0, s) && i < |s.log| && g.Loggable(s.log) && Published(|s.log|, s.phase)
    requires t.disk == s.disk[s.log[i] := View(s, g.Slot(i))]
    ensures t.disk[s.log[i]] == Stable(d0, s)[s.log[i]]
  {
    LogBlockView(g, s, g.Slot(i));
    DistinctFrom(s.log, i);
    assert IndexOf(s.log, s.log[i]) == i;
    assert Recovered(g, s.disk, s.log[i]) == s.disk[g.Slot(i)];
  }

  /** Boot panics exactly on a published list that fills the log, and otherwise goes on to replay. */
  lemma BootPanicsIff(g: Geometry, d0: Disk, s: State, t: State)
    requires Inv(g, d0, s) && ReadLog(g, s, t)
    ensures var n := |Header(s.disk[g.start])|;
            if n < g.size - 1 && n < LOGSIZE then t.phase == Replaying(0) && t.log == Header(s.disk[g.start])
            else t.phase == Halted(CorruptLog)
  {
    LoadHeaderIsHeader(g, s.disk);
  }

  /** Step `k` of the committer issues exactly the k-th write of the commit of the transaction's
      contents, the list of writes that `Log::commit` was proved to issue. */
  lemma CommitterFollowsWriteList(g: Geometry, d0: Disk, s: State, hb: Block, data: seq<Block>)
    requires Inv(g, d0, s) && s.phase.Committing? && |data| == |s.log| <= LOGSIZE
    requires forall i :: 0 <= i < |s.log| ==> s.log[i] < |d0| && data[i] == Current(d0, s)[s.log[i]]
    requires s.disk[g.start] == if s.phase.k <= |s.log| then hb else EncodeHeader(hb, s.log)
    ensures NextWrite(g, s, s.phase.k) == CommitWrite(g, hb, s.log, data, s.phase.k)
  {
    var k, n := s.phase.k, |s.log|;
    if k < n {
      PinnedView(g, s, k, Current(d0, s));
    } else if n < k <= 2 * n {
      var i := k - n - 1;
      LogBlockView(g, s, g.Slot(i));
      assert s.disk[g.Slot(i)] == data[i];
    } else {
      LogBlockView(g, s, g.start);
    }
  }
}
