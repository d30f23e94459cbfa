/** The buffer cache: one doubly linked list of all buffers in order of last release
    (kernel/src/bio.rs). */
module Bio {

  /** LIST_NONE. */
  const NONE: int := -1

  ghost function At(order: seq<nat>, i: int): int {
    if 0 <= i < |order| then order[i] else NONE
  }

  /** Names two places of the list. */
  ghost predicate Pair(i: int, j: int) { true }

  ghost predicate Distinct(order: seq<nat>) {
    forall i, j {:trigger Pair(i, j)} :: Pair(i, j) && 0 <= i < j < |order| ==> order[i] != order[j]
  }

  lemma Different(order: seq<nat>, i: nat, j: nat)
    requires Distinct(order) && i < |order| && j < |order| && i != j
    ensures order[i] != order[j]
  {
    assert Pair(i, j) && Pair(j, i);
  }

  /** `order` holds each of the numbers below `n` once. */
  ghost predicate Permutation(order: seq<nat>, n: nat) {
    && |order| == n && Distinct(order)
    && (forall i {:trigger order[i]} :: 0 <= i < n ==> order[i] < n)
    && (forall b: nat {:trigger Place(order, b)} :: b < n ==> Place(order, b))
  }

  ghost predicate Place(order: seq<nat>, b: nat) {
    exists i :: 0 <= i < |order| && order[i] == b
  }

  /** Each link leads from a place of the list to the one `d` further, `d` being 1 or -1. */
  ghost predicate Follows(link: seq<int>, order: seq<nat>, d: int) {
    forall i {:trigger FollowsAt(link, order, d, i)} :: 0 <= i < |order| ==> FollowsAt(link, order, d, i)
  }

  ghost predicate FollowsAt(link: seq<int>, order: seq<nat>, d: int, i: nat)
    requires i < |order|
  {
    order[i] < |link| && link[order[i]] == At(order, i + d)
  }

  /** The links are one doubly linked list through all buffers in the given order. */
  ghost predicate Listed(next: seq<int>, prev: seq<int>, head: int, tail: int, order: seq<nat>) {
    && |next| == |prev| > 1 && Permutation(order, |next|)
    && head == order[0] && tail == order[|order| - 1]
    && Follows(next, order, 1) && Follows(prev, order, -1)
  }

  function Set(link: seq<int>, i: int, x: int): (r: seq<int>)
    ensures |r| == |link|
  {
    if 0 <= i < |link| then link[i := x] else link
  }

  ghost function Front(order: seq<nat>, k: nat): seq<nat>
    requires k < |order|
  {
    [order[k]] + order[.. k] + order[k + 1 ..]
  }

  lemma FrontFirst(order: seq<nat>, k: nat)
    requires k < |order|
    ensures Front(order, k)[0] == order[k] && Front(order, k)[1 ..] == order[.. k] + order[k + 1 ..]
  {
  }

  lemma FrontPermutation(order: seq<nat>, n: nat, k: nat)
    requires Permutation(order, n) && k < n
    ensures Permutation(Front(order, k), n)
  {
    var r := Front(order, k);
    forall i, j | 0 <= i < j < |r| ensures r[i] != r[j] {
      var i' := if i == 0 then k else if i <= k then i - 1 else i;
      var j' := if j <= k then j - 1 else j;
      Different(order, i', j');
    }
    forall b: nat | b < n ensures Place(r, b) {
      assert Place(order, b);
      var i :| 0 <= i < |order| && order[i] == b;
      assert r[if i == k then 0 else if i < k then i + 1 else i] == b;
    }
  }

  lemma FrontNext(next: seq<int>, order: seq<nat>, k: nat)
    requires Permutation(order, |next|) && Follows(next, order, 1) && 0 < k < |order|
    ensures Follows(next[order[k - 1] := At(order, k + 1)][order[k] := order[0]], Front(order, k), 1)
  {
    var next', r := next[order[k - 1] := At(order, k + 1)][order[k] := order[0]], Front(order, k);
    forall x | 0 <= x < |r| ensures FollowsAt(next', r, 1, x) {
      var y := if x == 0 then k else if x <= k then x - 1 else x;
      assert r[x] == order[y];
      assert FollowsAt(next, order, 1, y);
      if y != k { Different(order, y, k); }
      if y != k - 1 { Different(order, y, k - 1); }
      if x < k {
        assert r[x + 1] == order[x];
      } else if x + 1 < |r| {
        assert r[x + 1] == order[x + 1];
      }
    }
  }

  lemma FrontPrev(prev: seq<int>, order: seq<nat>, k: nat)
    requires Permutation(order, |prev|) && Follows(prev, order, -1) && 0 < k < |order|
    ensures Follows(Set(prev, At(order, k + 1), order[k - 1])[order[k] := NONE][order[0] := order[k]], Front(order, k),
                    -1)
  {
    var prev', r := Set(prev, At(order, k + 1), order[k - 1])[order[k] := NONE][order[0] := order[k]], Front(order, k);
    forall x | 0 <= x < |r| ensures FollowsAt(prev', r, -1, x) {
      var y := if x == 0 then k else if x <= k then x - 1 else x;
      assert r[x] == order[y];
      assert FollowsAt(prev, order, -1, y);
      if y != k { Different(order, y, k); }
      if y != 0 { Different(order, y, 0); }
      if k + 1 < |order| && y != k + 1 { Different(order, y, k + 1); }
    }
  }

  /** Each block has at most one buffer. Block 0 of device 0 is the key of buffers never used. */
  ghost predicate KeysDiffer(dev: seq<nat>, blockno: seq<nat>) {
    |dev| == |blockno| && forall a, b {:trigger Pair(a, b)} :: Pair(a, b) && 0 <= a < b < |dev| ==>
      dev[a] != dev[b] || blockno[a] != blockno[b] || Never(dev[a], blockno[a])
  }

  /** The key all buffers begin with. */
  predicate Never(d: nat, n: nat) { d == 0 && n == 0 }

  lemma KeyIsOne(dev: seq<nat>, blockno: seq<nat>, a: nat, b: nat)
    requires KeysDiffer(dev, blockno) && a < |dev| && b < |dev| && dev[a] == dev[b] && blockno[a] == blockno[b]
    requires !Never(dev[a], blockno[a])
    ensures a == b
  {
    assert Pair(a, b) && Pair(b, a);
  }

  lemma NewKey(dev: seq<nat>, blockno: seq<nat>, b: nat, d: nat, n: nat)
    requires KeysDiffer(dev, blockno) && b < |dev|
    requires forall a :: 0 <= a < |dev| ==> dev[a] != d || blockno[a] != n
    ensures KeysDiffer(dev[b := d], blockno[b := n])
  {
  }

  class Cache {
    var next: seq<int>
    var prev: seq<int>
    var head: int
    var tail: int
    var refs: seq<nat>
    var dev: seq<nat>
    var blockno: seq<nat>
    var valid: seq<bool>
    var dirty: seq<bool>
    /** The buffers in order of last release. */
    ghost var order: seq<nat>

    ghost predicate Valid()
      reads this
    {
      && Listed(next, prev, head, tail, order) && KeysDiffer(dev, blockno)
      && |refs| == |dev| == |valid| == |dirty| == |next|
    }

    /** `init`. */
    constructor (nbuf: nat)
      requires nbuf > 1
      ensures Valid() && |next| == nbuf && order == seq(nbuf, k requires 0 <= k => k)
    {
      next, prev := seq(nbuf, k => NONE), seq(nbuf, k => NONE);
      refs, dev, blockno := seq(nbuf, k => 0), seq(nbuf, k => 0), seq(nbuf, k => 0);
      valid, dirty := seq(nbuf, k => false), seq(nbuf, k => false);
      head, tail := 0, nbuf - 1;
      order := seq(nbuf, k requires 0 <= k => k);
      new;
      for k := 0 to nbuf
        invariant |next| == |prev| == nbuf && head == 0 && tail == nbuf - 1 &&
                  order == seq(nbuf, k requires 0 <= k => k)
        invariant |refs| == |dev| == |blockno| == |valid| == |dirty| == nbuf &&
                  forall j :: 0 <= j < nbuf ==> dev[j] == blockno[j] == 0
        invariant forall j {:trigger next[j]} {:trigger prev[j]} :: 0 <= j < k ==>
                    next[j] == (if j + 1 < nbuf then j + 1 else NONE) && prev[j] == (if j > 0 then j - 1 else NONE)
        invariant forall j {:trigger next[j]} {:trigger prev[j]} :: k <= j < nbuf ==> next[j] == NONE && prev[j] == NONE
      {
        if k + 1 < nbuf { next := next[k := k + 1]; }
        if k > 0 { prev := prev[k := k - 1]; }
      }
      forall b: nat | b < nbuf ensures Place(order, b) { assert order[b] == b; }
    }

    /** `relse`: the last release of a buffer moves it to the front; the others keep their order. */
    method Relse(b: nat)
      requires Valid() && b < |refs| && refs[b] > 0
      modifies this`next, this`prev, this`head, this`tail, this`refs, this`order
      ensures Valid() && refs == old(refs)[b := old(refs)[b] - 1]
      ensures refs[b] > 0 ==> order == old(order)
      ensures refs[b] == 0 ==>
                exists k ::
                  && 0 <= k < |old(order)| && old(order)[k] == b && order == Front(old(order), k)
                  && order[0] == b && order[1 ..] == old(order)[.. k] + old(order)[k + 1 ..]
    {
      refs := refs[b := refs[b] - 1];
      assert Place(order, b);
      ghost var k :| 0 <= k < |order| && order[k] == b;
      if refs[b] == 0 {
        FrontFirst(order, k);
        if k == 0 { assert Front(order, k) == order; }
        if head != b {
          MoveToFront(b, k);
        }
      }
    }

    method MoveToFront(b: nat, ghost k: nat)
      requires Listed(next, prev, head, tail, order) && 0 < k < |order| && order[k] == b
      modifies this`next, this`prev, this`head, this`tail, this`order
      ensures Listed(next, prev, head, tail, order) && order == Front(old(order), k) && |next| == old(|next|)
    {
      assert FollowsAt(next, order, 1, k) && FollowsAt(prev, order, -1, k);
      var n, p := next[b], prev[b];
      FrontPermutation(order, |next|, k);
      FrontNext(next, order, k);
      FrontPrev(prev, order, k);
      if k != |order| - 1 { Different(order, k, |order| - 1); }
      if tail == b { tail := p; }
      if n != NONE { prev := prev[n := p]; }
      if p != NONE { next := next[p := n]; }
      prev := prev[b := NONE];
      prev := prev[head := b];
      next := next[b := head];
      head := b;
      order := Front(order, k);
    }

    /** The first loop of `bget`: the buffer of the block, if there is one. */
    method Find(d: nat, n: nat) returns (b: int)
      requires Valid()
      ensures b == NONE ==> forall a :: 0 <= a < |dev| ==> dev[a] != d || blockno[a] != n
      ensures b != NONE ==> 0 <= b < |dev| && dev[b] == d && blockno[b] == n
    {
      b := head;
      ghost var i := 0;
      while b != NONE
        invariant 0 <= i <= |order| && b == At(order, i)
        invariant forall j {:trigger order[j]} :: 0 <= j < i ==> dev[order[j]] != d || blockno[order[j]] != n
        decreases |order| - i
      {
        assert order[i] < |next|;
        if dev[b] == d && blockno[b] == n { return; }
        assert FollowsAt(next, order, 1, i);
        b := next[b];
        i := i + 1;
      }
      forall a: nat | a < |dev| ensures dev[a] != d || blockno[a] != n {
        assert Place(order, a);
      }
    }

    /** The second loop of `bget`: the least recently released buffer that nobody refers to and that
        is not dirty. */
    method FindUnused() returns (b: int)
      requires Valid()
      ensures b == NONE ==> forall a :: 0 <= a < |dev| ==> refs[a] > 0 || dirty[a]
      ensures b != NONE ==> exists k :: 0 <= k < |order| && order[k] == b && refs[b] == 0 && !dirty[b]
                                        && forall j :: k < j < |order| ==> refs[order[j]] > 0 || dirty[order[j]]
    {
      b := tail;
      ghost var i := |order| - 1;
      while b != NONE
        invariant -1 <= i < |order| && b == At(order, i)
        invariant forall j {:trigger order[j]} :: i < j < |order| ==> refs[order[j]] > 0 || dirty[order[j]]
        decreases i
      {
        assert order[i] < |prev|;
        if refs[b] == 0 && !dirty[b] { return; }
        assert FollowsAt(prev, order, -1, i);
        b := prev[b];
        i := i - 1;
      }
      forall a: nat | a < |dev| ensures refs[a] > 0 || dirty[a] {
        assert Place(order, a);
      }
    }

    /** `bget`: the one buffer of the block; failing that, an unused buffer taken over for it, never
        one that is referred to or dirty. */
    method Bget(d: nat, n: nat) returns (b: int)
      requires Valid()
      modifies this`refs, this`dev, this`blockno, this`valid, this`dirty
      ensures Valid()
      ensures b == NONE <==> (forall a :: 0 <= a < |old(dev)| ==>
                                (old(dev)[a] != d || old(blockno)[a] != n) && (old(refs)[a] > 0 || old(dirty)[a]))
      ensures b == NONE ==> unchanged(this)
      ensures b != NONE ==> 0 <= b < |dev| && dev[b] == d && blockno[b] == n && refs == old(refs)[b := old(refs)[b] + 1]
      ensures b != NONE && (old(dev)[b] != d || old(blockno)[b] != n) ==>
                && old(refs)[b] == 0 && !old(dirty)[b] && valid == old(valid)[b := false] &&
                   dirty == old(dirty)[b := false]
                && dev == old(dev)[b := d] && blockno == old(blockno)[b := n]
                && exists k ::
                     && 0 <= k < |order| && order[k] == b
                     && forall j :: k < j < |order| ==> old(refs)[order[j]] > 0 || old(dirty)[order[j]]
      ensures b != NONE && old(dev)[b] == d && old(blockno)[b] == n ==>
                dev == old(dev) && blockno == old(blockno) && valid == old(valid) && dirty == old(dirty)
      ensures b != NONE && !Never(d, n) ==> forall a :: 0 <= a < |dev| && dev[a] == d && blockno[a] == n ==> a == b
    {
      b := Find(d, n);
      if b == NONE {
        b := FindUnused();
        if b == NONE { return; }
        NewKey(dev, blockno, b, d, n);
        dev, blockno := dev[b := d], blockno[b := n];
        valid, dirty := valid[b := false], dirty[b := false];
      }
      refs := refs[b := refs[b] + 1];
      if !Never(d, n) {
        forall a | 0 <= a < |dev| && dev[a] == d && blockno[a] == n ensures a == b { KeyIsOne(dev, blockno, a, b); }
      }
    }
  }
}
