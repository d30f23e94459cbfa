/** The queue of disk requests, linked through the buffers (kernel/src/bio.rs:262-292,
    kernel/src/sd.rs:571-621). */
module DiskQueue {
  import opened Bio

  ghost predicate QueuedAt(qnext: seq<int>, q: seq<nat>, i: nat)
    requires i < |q|
  {
    q[i] < |qnext| && qnext[q[i]] == At(q, i + 1)
  }

  /** From `queue` the links lead through `q` and end: no cycle, no buffer twice. */
  ghost predicate Queued(qnext: seq<int>, queue: int, q: seq<nat>) {
    Distinct(q) && queue == At(q, 0) &&
    forall i {:trigger QueuedAt(qnext, q, i)} :: 0 <= i < |q| ==> QueuedAt(qnext, q, i)
  }

  lemma Enqueued(qnext: seq<int>, queue: int, q: seq<nat>, b: nat)
    requires Queued(qnext, queue, q) && b < |qnext| && b !in q
    ensures var links := qnext[b := NONE];
            q == [] ==> Queued(links, b, q + [b])
    ensures q != [] ==> q[|q| - 1] < |qnext| && Queued(qnext[b := NONE][q[|q| - 1] := b], queue, q + [b])
  {
    var links := qnext[b := NONE];
    if q != [] {
      assert QueuedAt(qnext, q, |q| - 1);
      links := links[q[|q| - 1] := b];
    }
    var q' := q + [b];
    forall i, j | 0 <= i < j < |q'| ensures q'[i] != q'[j] { assert Pair(i, j); }
    forall i | 0 <= i < |q'| ensures QueuedAt(links, q', i) {
      if i < |q| {
        assert QueuedAt(qnext, q, i);
        if i != |q| - 1 { Different(q, i, |q| - 1); }
      }
    }
  }

  lemma Dequeued(qnext: seq<int>, queue: int, q: seq<nat>)
    requires Queued(qnext, queue, q) && q != []
    ensures QueuedAt(qnext, q, 0) && Queued(qnext, qnext[q[0]], q[1..])
  {
    assert QueuedAt(qnext, q, 0);
    forall i, j | 0 <= i < j < |q[1..]| ensures q[1..][i] != q[1..][j] { assert Pair(i + 1, j + 1); }
    forall i | 0 <= i < |q[1..]| ensures QueuedAt(qnext, q[1..], i) { assert QueuedAt(qnext, q, i + 1); }
  }

  class Disk {
    var qnext: seq<int>
    var queue: int
    var valid: seq<bool>
    var dirty: seq<bool>
    /** Requests in order, the one the device works on, who holds each buffer's lock, and which
        processes sleep in `rdwr`, on which buffer. */
    ghost var q: seq<nat>
    ghost var inflight: int
    ghost var holder: map<nat, nat>
    ghost var asleep: map<nat, nat>

    ghost predicate Valid()
      reads this
    {
      && |valid| == |dirty| == |qnext| && Queued(qnext, queue, q)
      && inflight == At(q, 0)
      && (forall i {:trigger q[i]} :: 0 <= i < |q| ==>
            q[i] in holder && holder[q[i]] in asleep && asleep[holder[q[i]]] == q[i])
    }

    /** No request, no lock held. */
    constructor (nbuf: nat)
      ensures Valid() && q == [] && |qnext| == nbuf && holder == map[] && asleep == map[]
    {
      qnext, queue := seq(nbuf, b => NONE), NONE;
      valid, dirty := seq(nbuf, b => false), seq(nbuf, b => false);
      q, inflight, holder, asleep := [], NONE, map[], map[];
    }

    /** `enqueue`: at the end of the queue. */
    method Enqueue(b: nat)
      requires Queued(qnext, queue, q) && b < |qnext| && b !in q
      modifies this`qnext, this`queue, this`q
      ensures Queued(qnext, queue, q) && q == old(q) + [b] && |qnext| == old(|qnext|)
    {
      Enqueued(qnext, queue, q, b);
      qnext := qnext[b := NONE];
      if queue == NONE {
        queue := b;
      } else {
        var h := queue;
        ghost var i := 0;
        assert QueuedAt(old(qnext), q, 0);
        while qnext[h] != NONE
          invariant 0 <= i < |q| && h == q[i] && h < |qnext| && qnext == old(qnext)[b := NONE] && queue == old(queue) &&
                    q == old(q)
          decreases |q| - i
        {
          assert QueuedAt(old(qnext), q, i);
          h := qnext[h];
          i := i + 1;
          assert QueuedAt(old(qnext), q, i);
        }
        assert QueuedAt(old(qnext), q, i);
        qnext := qnext[h := b];
      }
      q := q + [b];
    }

    /** `rdwr` up to its sleep, by process `p`, which holds the buffer's lock. The request goes to the
        end of the queue and starts at once if it is the only one. */
    method Rdwr(p: nat, b: nat)
      requires Valid() && b < |qnext| && b in holder && holder[b] == p && p !in asleep
      requires !(valid[b] && !dirty[b])
      modifies this`qnext, this`queue, this`q, this`inflight, this`asleep
      ensures Valid() && q == old(q) + [b] && b !in old(q) && asleep == old(asleep)[p := b]
    {
      if queue == NONE { inflight := b; }
      Enqueue(b);
      asleep := asleep[p := b];
    }

    /** A process that is not asleep takes or gives up a buffer's lock. */
    ghost method Lock(p: nat, b: nat)
      requires Valid() && p !in asleep && b !in holder
      modifies this`holder
      ensures Valid() && holder == old(holder)[b := p]
    {
      holder := holder[b := p];
    }

    ghost method Unlock(p: nat, b: nat)
      requires Valid() && p !in asleep && b in holder && holder[b] == p
      modifies this`holder
      ensures Valid() && holder == old(holder) - {b}
    {
      holder := holder - {b};
    }

    /** `interrupt`: the oldest request is done; its buffer is valid and clean, and the device goes on
        with the next. */
    method Interrupt()
      requires Valid()
      modifies this`queue, this`valid, this`dirty, this`q, this`inflight, this`asleep
      ensures Valid()
      ensures old(q) == [] ==> q == [] && asleep == old(asleep) && valid == old(valid) && dirty == old(dirty)
      ensures old(q) != [] ==>
                q == old(q)[1..] && old(q)[0] < |valid| && valid == old(valid)[old(q)[0] := true] &&
                dirty == old(dirty)[old(q)[0] := false]
      ensures old(q) != [] ==> asleep == map p | p in old(asleep) && old(asleep)[p] != old(q)[0] :: old(asleep)[p]
    {
      if queue == NONE { return; }
      Dequeued(qnext, queue, q);
      var b := queue;
      queue := qnext[b];
      valid, dirty := valid[b := true], dirty[b := false];
      asleep := map p | p in asleep && asleep[p] != b :: asleep[p];
      inflight := queue;
      forall i | 1 <= i < |q| ensures q[i] != b { Different(q, 0, i); }
      q := q[1..];
    }
  }
}
