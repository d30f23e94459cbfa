/** `struct Log` and the code that drives it: insertion, commit and boot-time recovery, each
    proved to issue exactly the disk writes of LogFormat (kernel/src/fslog.rs). */
module FsLog {
  import opened LogFormat

  datatype Buf = Buf(data: Block, dirty: bool)

  /** The disk behind the buffer cache. `trace` records every block write in the order in which
      it reached the disk. */
  class Device {
    var disk: Disk
    var cache: map<nat, Buf>
    ghost var trace: seq<Write>
    /** The disk as it was when the device was attached. */
    ghost const attached: Disk

    constructor (d: Disk)
      ensures disk == attached == d && cache == map[] && trace == [] && Valid()
    {
      disk, cache, trace, attached := d, map[], [], d;
    }

    ghost predicate Valid()
      reads this
    {
      InRange(trace, |attached|) && disk == Apply(attached, trace)
    }

    /** What a reader of block `b` sees: the cached copy if there is one. */
    ghost function View(b: nat): Block
      requires b < |disk|
      reads this
    {
      if b in cache then cache[b].data else disk[b]
    }

    /** Log blocks are only ever written straight through, so their cached copies match. */
    ghost predicate LogCoherent(g: Geometry)
      reads this
    {
      Valid() && g.Holds(disk) && forall b :: g.start <= b < g.start + g.size ==> View(b) == disk[b]
    }

    /** `bio::read`: hit the cache or fill a buffer from disk. */
    method Read(b: nat) returns (data: Block)
      requires b < |disk|
      modifies this
      ensures data == old(View(b))
      ensures disk == old(disk) && trace == old(trace)
      ensures forall c :: 0 <= c < |disk| ==> View(c) == old(View(c))
    {
      if b !in cache {
        cache := cache[b := Buf(disk[b], false)];
      }
      data := cache[b].data;
    }

    /** `Buf::write`: the buffer gets `data`, goes to disk and is clean afterwards. */
    method Write(b: nat, data: Block)
      requires Valid() && b < |disk|
      modifies this
      ensures Valid() && disk == old(disk)[b := data]
      ensures trace == old(trace) + [LogFormat.Write(b, data)]
      ensures View(b) == data && b in cache && !cache[b].dirty
      ensures forall c :: 0 <= c < |disk| && c != b ==> View(c) == old(View(c))
    {
      ApplyAppend(attached, trace, LogFormat.Write(b, data));
      disk := disk[b := data];
      cache := cache[b := Buf(data, false)];
      trace := trace + [LogFormat.Write(b, data)];
    }
  }

  /** `n` slots have been filled since the trace was `before`. */
  ghost predicate Filled(g: Geometry, data: seq<Block>, before: seq<Write>, trace: seq<Write>, disk: Disk, n: nat)
    requires g.Holds(disk) && n <= |data| && n < g.size
  {
    && |trace| == |before| + n && trace[..|before|] == before
    && (forall i :: 0 <= i < n ==> trace[|before| + i] == Write(g.Slot(i), data[i]))
    && (forall i :: 0 <= i < n ==> disk[g.Slot(i)] == data[i])
  }

  lemma FilledStep(g: Geometry, data: seq<Block>, before: seq<Write>, trace: seq<Write>, disk: Disk, n: nat)
    requires g.Holds(disk) && n < |data| && n + 1 < g.size && Filled(g, data, before, trace, disk, n)
    ensures Filled(g, data, before, trace + [Write(g.Slot(n), data[n])], disk[g.Slot(n) := data[n]], n + 1)
  {
  }

  lemma PublishTrace(g: Geometry, hb: Block, log: seq<nat>, data: seq<Block>, before: seq<Write>, after: seq<Write>)
    requires 0 < |log| == |data| <= LOGSIZE
    requires |after| == |before| + |log| + 1 && after[..|before|] == before
    requires forall i :: 0 <= i < |log| ==> after[|before| + i] == Write(g.Slot(i), data[i])
    requires after[|before| + |log|] == Write(g.start, EncodeHeader(hb, log))
    ensures after == before + CommitWrites(g, hb, log, data)[..|log| + 1]
  {
    assert after == after[..|before|] + after[|before|..];
    assert after[|before|..] == CommitWrites(g, hb, log, data)[..|log| + 1];
  }

  /** The second half of a commit writes what a recovery from the published header writes. */
  lemma CommitSplits(g: Geometry, hb: Block, log: seq<nat>, data: seq<Block>, d: Disk)
    requires g.Holds(d) && 0 < |log| == |data| <= LOGSIZE && |log| + 1 <= g.size
    requires d[g.start] == EncodeHeader(hb, log)
    requires forall i :: 0 <= i < |log| ==> d[g.Slot(i)] == data[i]
    ensures CommitWrites(g, hb, log, data)
         == CommitWrites(g, hb, log, data)[..|log| + 1] + RecoveryWrites(g, d, log)
  {
    var ws, n := CommitWrites(g, hb, log, data), |log|;
    assert ws == ws[..n + 1] + ws[n + 1..];
    forall k | 0 <= k <= n ensures ws[n + 1..][k] == RecoveryWrites(g, d, log)[k] {
      assert ws[n + 1 + k] == CommitWrite(g, hb, log, data, n + 1 + k);
    }
    assert ws[n + 1..] == RecoveryWrites(g, d, log);
  }

  lemma CommitTrace(g: Geometry, hb: Block, log: seq<nat>, data: seq<Block>, d: Disk,
                    before: seq<Write>, mid: seq<Write>, after: seq<Write>)
    requires g.Holds(d) && 0 < |log| == |data| <= LOGSIZE && |log| + 1 <= g.size
    requires d[g.start] == EncodeHeader(hb, log)
    requires forall i :: 0 <= i < |log| ==> d[g.Slot(i)] == data[i]
    requires mid == before + CommitWrites(g, hb, log, data)[..|log| + 1]
    requires after == mid + RecoveryWrites(g, d, log)
    ensures after == before + CommitWrites(g, hb, log, data)
  {
    CommitSplits(g, hb, log, data, d);
  }

  lemma TraceEffect(start: Disk, before: seq<Write>, ws: seq<Write>, after: seq<Write>)
    requires InRange(before, |start|) && InRange(ws, |start|) && after == before + ws
    ensures InRange(after, |start|) && Apply(start, after) == Apply(Apply(start, before), ws)
  {
    ApplyConcat(start, before, ws);
  }

  lemma RecoveryTrace(g: Geometry, d: Disk, log: seq<nat>, before: seq<Write>, after: seq<Write>)
    requires g.Holds(d) && |log| + 1 <= g.size
    requires |after| == |before| + |log| + 1 && after[..|before|] == before
    requires forall i :: 0 <= i < |log| ==> after[|before| + i] == Write(log[i], d[g.Slot(i)])
    requires after[|before| + |log|] == Write(g.start, EncodeHeader(d[g.start], []))
    ensures after == before + RecoveryWrites(g, d, log)
  {
    assert after == after[..|before|] + after[|before|..];
    assert after[|before|..] == RecoveryWrites(g, d, log);
  }

  class Log {
    var g: Geometry
    var len: nat
    const blocks: array<nat>

    ghost predicate Valid()
      reads this, blocks
    {
      blocks.Length == LOGSIZE && len <= LOGSIZE && Distinct(blocks[..len])
    }

    /** `header()`: the block numbers of the current transaction. */
    ghost function Blocks(): seq<nat>
      requires len <= blocks.Length
      reads this, blocks
    {
      blocks[..len]
    }

    constructor (g: Geometry)
      ensures Valid() && Blocks() == [] && this.g == g && fresh(blocks)
    {
      this.g := g;
      len := 0;
      blocks := new nat[LOGSIZE](i => 0);
    }

    method Insert(b: nat)
      requires Valid() && (len == LOGSIZE ==> b in Blocks())
      modifies this`len, blocks
      ensures Valid() && Blocks() == LogFormat.Insert(old(Blocks()), b)
    {
      for i := 0 to len
        invariant b !in blocks[..i]
      {
        if blocks[i] == b { return; }
      }
      blocks[len] := b;
      len := len + 1;
      assert blocks[..len] == old(blocks[..len]) + [b];
    }

    /** Not full exactly when the next block would get an array cell and a slot inside the log. */
    method IsFull() returns (full: bool)
      requires Valid() && 0 < g.size
      ensures !full <==> len < LOGSIZE && g.Slot(len) < g.start + g.size
    {
      full := len >= g.size - 1 || len >= LOGSIZE;
    }

    /** `Log::read`: load the list named by the on-disk header; false where the code panics. */
    method ReadHeader(dev: Device) returns (ok: bool)
      requires Valid() && dev.LogCoherent(g)
      modifies this`len, blocks, dev
      ensures Valid() && dev.disk == old(dev.disk) && dev.trace == old(dev.trace)
      ensures forall c :: 0 <= c < |dev.disk| ==> dev.View(c) == old(dev.View(c))
      ensures LoadHeader(g, dev.disk[g.start]) == if ok then Loaded(Blocks()) else TooLarge
      ensures ok <==> dev.disk[g.start][0] < LOGSIZE && dev.disk[g.start][0] < g.size - 1
    {
      var hb := dev.Read(g.start);
      if hb[0] >= LOGSIZE || hb[0] >= g.size - 1 { return false; }
      var src := hb[1..1 + hb[0]];
      len := 0;
      label loaded:
      for i := 0 to |src|
        invariant unchanged@loaded(dev)
        invariant Valid() && len <= i
        invariant InsertAll([], src) == InsertAll(Blocks(), src[i..])
      {
        assert src[i..][1..] == src[i + 1..];
        Insert(src[i]);
      }
      return true;
    }

    /** `Log::write`: put the current list into the header block. */
    method WriteHeader(dev: Device)
      requires Valid() && dev.LogCoherent(g)
      modifies dev
      ensures var hb := EncodeHeader(old(dev.disk[g.start]), Blocks());
              && dev.disk == old(dev.disk)[g.start := hb]
              && dev.trace == old(dev.trace) + [Write(g.start, hb)]
      ensures dev.disk[g.start][0] == len && dev.disk[g.start][1 .. 1 + len] == blocks[.. len]
      ensures dev.LogCoherent(g)
      ensures forall c :: g.Home(c) ==> dev.View(c) == old(dev.View(c))
    {
      var hb := dev.Read(g.start);
      dev.Write(g.start, [len] + blocks[..len] + hb[1 + len..]);
    }

    /** One turn of `Log::sync`'s loop: cached copy of block `tail` into its slot. */
    method CopyToSlot(dev: Device, tail: nat)
      requires Valid() && g.Loggable(Blocks()) && dev.LogCoherent(g) && tail < len
      modifies dev
      ensures dev.LogCoherent(g)
      ensures dev.disk == old(dev.disk)[g.Slot(tail) := old(dev.View(blocks[tail]))]
      ensures dev.trace == old(dev.trace) + [Write(g.Slot(tail), old(dev.View(blocks[tail])))]
      ensures forall c :: g.Home(c) ==> dev.View(c) == old(dev.View(c))
    {
      var to := dev.Read(g.Slot(tail));
      var from := dev.Read(blocks[tail]);
      dev.Write(g.Slot(tail), from);
    }

    /** One turn of `Log::commit`'s loop: slot `tail` to its home block. */
    method CopyHome(dev: Device, tail: nat)
      requires Valid() && g.Loggable(Blocks()) && dev.LogCoherent(g) && tail < len
      modifies dev
      ensures dev.LogCoherent(g)
      ensures dev.disk == old(dev.disk)[blocks[tail] := old(dev.disk[g.Slot(tail)])]
      ensures dev.trace == old(dev.trace) + [Write(blocks[tail], old(dev.disk[g.Slot(tail)]))]
    {
      var from := dev.Read(g.Slot(tail));
      var to := dev.Read(blocks[tail]);
      dev.Write(blocks[tail], from);
    }

    /** `Log::sync`: copy each logged block from the cache to its slot. */
    method Sync(dev: Device, ghost data: seq<Block>)
      requires Valid() && g.Loggable(Blocks()) && dev.LogCoherent(g)
      requires |data| == len && forall i :: 0 <= i < len ==> dev.View(blocks[i]) == data[i]
      modifies dev
      ensures dev.LogCoherent(g)
      ensures |dev.trace| == |old(dev.trace)| + len && dev.trace[..|old(dev.trace)|] == old(dev.trace)
      ensures forall i :: 0 <= i < len ==> dev.trace[|old(dev.trace)| + i] == Write(g.start + 1 + i, data[i])
      ensures forall i :: 0 <= i < len ==> dev.disk[g.Slot(i)] == data[i]
      ensures dev.disk[g.start] == old(dev.disk[g.start])
    {
      ghost var before := dev.trace;
      assert forall i :: 0 <= i < len ==> Blocks()[i] == blocks[i];
      for tail := 0 to len
        invariant dev.LogCoherent(g) && dev.disk[g.start] == old(dev.disk[g.start])
        invariant Filled(g, data, before, dev.trace, dev.disk, tail)
        invariant forall i :: 0 <= i < len ==> g.Home(blocks[i]) && dev.View(blocks[i]) == data[i]
      {
        FilledStep(g, data, before, dev.trace, dev.disk, tail);
        CopyToSlot(dev, tail);
      }
    }

    /** `Log::commit`: copy every slot to its home block. */
    method Install(dev: Device)
      requires Valid() && g.Loggable(Blocks()) && dev.LogCoherent(g)
      modifies dev
      ensures dev.LogCoherent(g) && dev.disk[g.start] == old(dev.disk[g.start])
      ensures |dev.trace| == |old(dev.trace)| + len && dev.trace[..|old(dev.trace)|] == old(dev.trace)
      ensures forall i :: 0 <= i < len ==>
                dev.trace[|old(dev.trace)| + i] == Write(blocks[i], old(dev.disk)[g.start + 1 + i])
    {
      ghost var t, d := |dev.trace|, dev.disk;
      for tail := 0 to len
        invariant dev.LogCoherent(g) && dev.disk[g.start] == d[g.start]
        invariant |dev.trace| == t + tail && dev.trace[..t] == old(dev.trace)
        invariant forall i :: 0 <= i < tail ==> dev.trace[t + i] == Write(blocks[i], d[g.Slot(i)])
        invariant forall i :: 0 <= i < len ==> dev.disk[g.Slot(i)] == d[g.Slot(i)]
      {
        CopyHome(dev, tail);
      }
    }

    method Clear()
      requires Valid()
      modifies this`len
      ensures Valid() && Blocks() == []
    {
      len := 0;
    }

    /** The part of `recover` after the header was read. */
    method Replay(dev: Device)
      requires Valid() && g.Loggable(Blocks()) && dev.LogCoherent(g)
      modifies this`len, dev
      ensures Valid() && Blocks() == [] && dev.LogCoherent(g)
      ensures dev.trace == old(dev.trace) + RecoveryWrites(g, old(dev.disk), old(Blocks()))
    {
      ghost var d, log := dev.disk, Blocks();
      Install(dev);
      Clear();
      WriteHeader(dev);
      RecoveryTrace(g, d, log, old(dev.trace), dev.trace);
    }

    /** First half of `op::commit`: fill the slots, then publish the header. */
    method Publish(dev: Device, ghost data: seq<Block>)
      requires Valid() && 0 < len && g.Loggable(Blocks()) && dev.LogCoherent(g)
      requires |data| == len && forall i :: 0 <= i < len ==> dev.View(blocks[i]) == data[i]
      modifies dev
      ensures dev.LogCoherent(g)
      ensures dev.trace == old(dev.trace) + CommitWrites(g, old(dev.disk)[g.start], Blocks(), data)[..len + 1]
      ensures dev.disk[g.start] == EncodeHeader(old(dev.disk)[g.start], Blocks())
      ensures forall i :: 0 <= i < len ==> dev.disk[g.Slot(i)] == data[i]
    {
      ghost var hb := dev.disk[g.start];
      Sync(dev, data);
      WriteHeader(dev);
      PublishTrace(g, hb, Blocks(), data, old(dev.trace), dev.trace);
    }

    /** `op::commit`: the disk writes are exactly those of a commit of the cached contents of the
        logged blocks, in that order, and the in-memory log is empty afterwards. */
    method Commit(dev: Device, ghost data: seq<Block>)
      requires Valid() && g.Loggable(Blocks()) && dev.LogCoherent(g)
      requires |data| == len && forall i :: 0 <= i < len ==> dev.View(blocks[i]) == data[i]
      modifies this`len, dev
      ensures Valid() && Blocks() == [] && dev.LogCoherent(g)
      ensures InRange(CommitWrites(g, old(dev.disk)[g.start], old(Blocks()), data), |old(dev.disk)|)
      ensures var ws := CommitWrites(g, old(dev.disk)[g.start], old(Blocks()), data);
              dev.trace == old(dev.trace) + ws && dev.disk == Apply(old(dev.disk), ws)
    {
      ghost var hb, log, before := dev.disk[g.start], Blocks(), dev.trace;
      ghost var ws := CommitWrites(g, hb, log, data);
      CommitInRange(g, hb, log, data);
      if len != 0 {
        Publish(dev, data);
        ghost var d, mid := dev.disk, dev.trace;
        Replay(dev);
        CommitTrace(g, hb, log, data, d, before, mid, dev.trace);
      }
      TraceEffect(dev.attached, before, ws, dev.trace);
    }

    /** `recover`: false where the code panics, with nothing written; otherwise the disk writes are
        exactly those of a recovery of the list in the on-disk header. */
    method Recover(dev: Device) returns (ok: bool)
      requires Valid() && dev.LogCoherent(g) && Replayable(g, dev.disk)
      modifies this`len, blocks, dev
      ensures Valid() && dev.LogCoherent(g)
      ensures ok <==> LoadHeader(g, old(dev.disk)[g.start]).Loaded?
      ensures !ok ==> dev.trace == old(dev.trace) && dev.disk == old(dev.disk)
      ensures ok ==> Blocks() == []
      ensures InRange(RecoveryWrites(g, old(dev.disk), Header(old(dev.disk)[g.start])), |old(dev.disk)|)
      ensures var ws := RecoveryWrites(g, old(dev.disk), Header(old(dev.disk)[g.start]));
              ok ==> dev.trace == old(dev.trace) + ws && dev.disk == Apply(old(dev.disk), ws)
    {
      ghost var d := dev.disk;
      ghost var log := Header(d[g.start]);
      RecoveryCompletes(g, d);
      ok := ReadHeader(dev);
      if ok {
        LoadHeaderIsHeader(g, d);
        Replay(dev);
        ApplyConcat(dev.attached, old(dev.trace), RecoveryWrites(g, d, log));
      }
    }
  }
}
