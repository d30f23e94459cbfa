/** From the blocks an operation gives to the log to the promise behind `begin`'s admission test:
    in every run of the log protocol whose operations log what chunks of writes and truncations log,
    the promise is kept (kernel/src/fs.rs:543-578, 966-980, kernel/src/fslog.rs:190-228). */
module OpBudget {
  import opened LogFormat
  import opened LogProtocol
  import opened LogBudget
  import FsImage
  import FsChunks
  import Mkfs

  /** Operation `p` logs blocks of `logs(p)` only, at any time and in any order. */
  ghost predicate LogsOnly(acts: seq<Action>, logs: OpId -> seq<nat>) {
    forall i :: 0 <= i < |acts| && acts[i].ALogWrite? ==> acts[i].b in logs(acts[i].p)
  }

  ghost predicate Within(ops: Ops, logs: OpId -> seq<nat>) {
    forall p :: p in ops ==> ops[p] <= FsChunks.Distinct(logs(p))
  }

  lemma WithinStep(g: Geometry, s: State, t: State, a: Action, logs: OpId -> seq<nat>)
    requires Step(g, s, t, a) && Within(s.ops, logs) && (a.ALogWrite? ==> a.b in logs(a.p))
    ensures Within(t.ops, logs)
  {
  }

  lemma {:induction false} WithinRun(g: Geometry, d0: Disk, ss: seq<State>, acts: seq<Action>, logs: OpId -> seq<nat>,
                                     i: nat)
    requires Run(g, d0, ss, acts) && LogsOnly(acts, logs) && i < |ss|
    ensures Within(ss[i].ops, logs)
    decreases i
  {
    if i > 0 {
      WithinRun(g, d0, ss, acts, logs, i - 1);
      WithinStep(g, ss[i - 1], ss[i], acts[i - 1], logs);
    }
  }

  /** What an operation logs: a chunk of a write to a file without holes, a truncation, or nothing. */
  ghost predicate OpLogs(sb: FsImage.Super, logs: seq<nat>) {
    FsChunks.ChunkLogs(sb, logs) || FsChunks.TruncLogs(sb, logs) || logs == []
  }

  /** The bit map is small enough for truncations. */
  ghost predicate SmallMap(sb: FsImage.Super) {
    sb.Valid() && sb.Meta() - sb.bmapStart < MAXOPBLOCKS
  }

  lemma NewMapIsSmall()
    ensures SmallMap(Mkfs.NewSuper())
  {
    Mkfs.NewSuperValid();
  }

  /** It is at most MAXOPBLOCKS different blocks. */
  lemma OpFits(sb: FsImage.Super, logs: seq<nat>)
    requires SmallMap(sb) && OpLogs(sb, logs)
    ensures |FsChunks.Distinct(logs)| <= MAXOPBLOCKS
  {
    if FsChunks.ChunkLogs(sb, logs) {
      var m, i, off, n, m', data, marks :| FsChunks.ChunkLogged(sb, m, i, off, n, m', logs, data, marks);
      FsChunks.ChunkFits(sb, m, i, off, n, m', logs, data, marks);
    } else if FsChunks.TruncLogs(sb, logs) {
      FsChunks.TruncFits(sb, logs);
    }
  }

  /** If each operation logs what a chunk or a truncation logs, the run keeps the promise of the log's
      budget. */
  lemma PromiseKept(g: Geometry, d0: Disk, ss: seq<State>, acts: seq<Action>, sb: FsImage.Super, logs: OpId -> seq<nat>)
    requires Run(g, d0, ss, acts) && LogsOnly(acts, logs) && SmallMap(sb) && forall p :: OpLogs(sb, logs(p))
    ensures BoundedRun(g, d0, ss, acts)
  {
    forall i | 0 <= i < |acts| ensures BoundedStep(ss[i], acts[i]) {
      var s, a := ss[i], acts[i];
      if a.ALogWrite? && a.p in s.ops {
        WithinRun(g, d0, ss, acts, logs, i);
        OpFits(sb, logs(a.p));
        FsChunks.SubsetSize(s.ops[a.p] + {a.b}, FsChunks.Distinct(logs(a.p)));
      }
    }
  }

  /** So the log plus all unused budget of such operations fits in LOGSIZE at every step. */
  lemma ChunksFit(g: Geometry, d0: Disk, ss: seq<State>, acts: seq<Action>, sb: FsImage.Super, logs: OpId -> seq<nat>,
                  i: nat)
    requires Run(g, d0, ss, acts) && LogsOnly(acts, logs) && SmallMap(sb) && forall p :: OpLogs(sb, logs(p))
    requires i < |ss| && Up(ss[i])
    ensures |ss[i].log| + Unused(ss[i].ops) <= LOGSIZE && |ss[i].log| <= LOGSIZE
  {
    PromiseKept(g, d0, ss, acts, sb, logs);
    LogSpaceBound(g, d0, ss, acts, i);
  }
}
