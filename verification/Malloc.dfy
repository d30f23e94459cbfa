/** The K&R allocator: headers in memory, linked in a circle (ulib/src/malloc.rs). Addresses count in
    units of one header; `BASE` lies below the heap, and the heap is what `sbrk` has handed out so
    far, up to some limit. */
module Malloc {
  import opened FreeBlocks

  const UNIT: nat := 16
  const USIZE: nat := 0x1_0000_0000_0000_0000

  datatype Header = Header(next: nat, n: nat)
  type Memory = map<nat, Header>

  /** `bytes2units`: the fewest units that hold so many bytes. */
  function Bytes2Units(bytes: nat): (u: nat)
    requires bytes + UNIT - 1 < USIZE
    ensures u * UNIT >= bytes && (u > 0 ==> (u - 1) * UNIT < bytes)
  {
    (bytes + UNIT - 1) / UNIT
  }

  function Succ(fl: seq<Blk>, i: nat): nat {
    if i + 1 < |fl| then i + 1 else 0
  }

  ghost predicate LinkedAt(mem: Memory, fl: seq<Blk>, i: nat)
    requires i < |fl|
  {
    fl[i].addr in mem && mem[fl[i].addr] == Header(fl[Succ(fl, i)].addr, fl[i].n)
  }

  /** The headers of the free blocks form a circle in the order of the list. */
  ghost predicate Linked(mem: Memory, fl: seq<Blk>) {
    forall i {:trigger LinkedAt(mem, fl, i)} :: 0 <= i < |fl| ==> LinkedAt(mem, fl, i)
  }

  /** The headers after block `tag` has been put behind block `p`. */
  function FreeHeaders(mem: Memory, p: nat, tag: nat): Memory
    requires p in mem && tag in mem && p != tag && mem[p].next in mem
  {
    var np := mem[p].next;
    var h := if tag + mem[tag].n == np then Header(mem[np].next, mem[tag].n + mem[np].n) else Header(np, mem[tag].n);
    var c := if p + mem[p].n == tag then Header(h.next, mem[p].n + h.n) else Header(tag, mem[p].n);
    mem[tag := h][p := c]
  }

  /** The place for address `t` in the list. */
  lemma {:induction false} PlaceOf(fl: seq<Blk>, base: nat, lo: nat, brk: nat, t: nat, k: nat) returns (j: nat)
    requires FreeList(fl, base, lo, brk) && k < |fl| && lo <= t
    requires forall i {:trigger fl[i]} :: 0 < i < |fl| ==> fl[i].addr != t
    requires k + 1 < |fl| ==> t < fl[k + 1].addr
    ensures After(fl, j, t)
    decreases k
  {
    if fl[k].addr < t {
      j := k;
    } else {
      j := PlaceOf(fl, base, lo, brk, t, k - 1);
    }
  }

  /** The test of `inner_free`'s loop holds at the place for `t` and nowhere else. */
  lemma TestIsPlace(fl: seq<Blk>, base: nat, lo: nat, brk: nat, t: nat, i: nat, j: nat)
    requires FreeList(fl, base, lo, brk) && After(fl, j, t) && lo <= t && i < |fl|
    ensures var pp, np := fl[i].addr, fl[Succ(fl, i)].addr;
            ((pp < t && t < np) || (pp >= np && (pp < t || t < np))) <==> i == j
  {
    assert Pair(i, j) && Pair(i + 1, j) && Pair(j, i) && Pair(j + 1, i) && Pair(0, i) && Pair(i, i + 1);
  }

  lemma AddrsDiffer(fl: seq<Blk>, base: nat, lo: nat, brk: nat, i: nat, k: nat)
    requires FreeList(fl, base, lo, brk) && i < |fl| && k < |fl| && i != k
    ensures fl[i].addr != fl[k].addr
  {
    assert Pair(i, k) && Pair(k, i);
  }

  /** Address of block `k`, of the first one beyond the last. */
  ghost function AddrAt(fl: seq<Blk>, k: nat): nat
    requires |fl| > 0
  {
    if k < |fl| then fl[k].addr else fl[0].addr
  }

  lemma ReplaceLinked(mem: Memory, fl: seq<Blk>, i: nat, k: nat, b: Blk, mem': Memory)
    requires Linked(mem, fl) && 0 < i <= k <= |fl|
    requires b.addr in mem' && mem'[b.addr] == Header(AddrAt(fl, k), b.n)
    requires fl[i - 1].addr in mem' && mem'[fl[i - 1].addr] == Header(b.addr, fl[i - 1].n)
    requires forall x {:trigger fl[x]} :: 0 <= x < |fl| && (x < i - 1 || x >= k) ==>
               fl[x].addr in mem && fl[x].addr in mem' && mem'[fl[x].addr] == mem[fl[x].addr]
    ensures Linked(mem', Replace(fl, i, k, b))
  {
    var r := Replace(fl, i, k, b);
    forall x | 0 <= x < |r| ensures LinkedAt(mem', r, x) {
      if x < i - 1 {
        assert LinkedAt(mem, fl, x);
        assert r[x] == fl[x] && r[x + 1] == fl[x + 1];
      } else if x > i {
        var y := k + x - i - 1;
        assert LinkedAt(mem, fl, y);
        assert r[x] == fl[y];
        if x + 1 < |r| { assert r[x + 1] == fl[y + 1]; }
      } else if x == i {
        if i + 1 < |r| { assert r[i + 1] == fl[k]; }
      }
    }
  }

  /** The header writes of `inner_free` link the new list. */
  lemma AddLinked(mem: Memory, fl: seq<Blk>, base: nat, lo: nat, brk: nat, j: nat, t: Blk)
    requires FreeList(fl, base, lo, brk) && Linked(mem, fl) && Outside(fl, lo, brk, t) && After(fl, j, t.addr)
    requires t.addr in mem && mem[t.addr].n == t.n
    ensures LinkedAt(mem, fl, j) && LinkedAt(mem, fl, Succ(fl, j))
    ensures Linked(FreeHeaders(mem, fl[j].addr, t.addr), Add(fl, j, t))
  {
    assert LinkedAt(mem, fl, j) && LinkedAt(mem, fl, Succ(fl, j));
    var mem' := FreeHeaders(mem, fl[j].addr, t.addr);
    JoinedFits(fl, base, lo, brk, j, t);
    var i, k, b := From(fl, j, t), Behind(fl, j, t), Become(fl, j, t);
    forall x {:trigger fl[x]} | 0 <= x < |fl| && (x < i - 1 || x >= k)
      ensures fl[x].addr in mem && fl[x].addr in mem' && mem'[fl[x].addr] == mem[fl[x].addr]
    {
      assert LinkedAt(mem, fl, x);
      AddrsDiffer(fl, base, lo, brk, x, j);
      if x > 0 { assert Apart(fl[x], t); }
    }
    AddedHeaders(mem, fl, base, lo, brk, j, t);
    if i == j { assert LinkedAt(mem, fl, j - 1); }
    ReplaceLinked(mem, fl, i, k, b, mem');
  }

  lemma AddedHeaders(mem: Memory, fl: seq<Blk>, base: nat, lo: nat, brk: nat, j: nat, t: Blk)
    requires FreeList(fl, base, lo, brk) && Outside(fl, lo, brk, t) && After(fl, j, t.addr)
    requires LinkedAt(mem, fl, j) && LinkedAt(mem, fl, Succ(fl, j)) && t.addr in mem && mem[t.addr].n == t.n
    ensures var mem', b, k := FreeHeaders(mem, fl[j].addr, t.addr), Become(fl, j, t), Behind(fl, j, t);
            && b.addr in mem' && mem'[b.addr] == Header(AddrAt(fl, k), b.n)
            && (!JoinsPrev(fl, j, t) ==> mem'[fl[j].addr] == Header(b.addr, fl[j].n))
  {
    JoinedFits(fl, base, lo, brk, j, t);
  }

  /** The headers after `n` units have been taken from the end of block `ptr`, which follows
      `prevp`. */
  function TakeHeaders(mem: Memory, prevp: nat, ptr: nat, n: nat): Memory
    requires prevp in mem && ptr in mem && n <= mem[ptr].n
  {
    if mem[ptr].n == n then mem[prevp := Header(mem[ptr].next, mem[prevp].n)]
    else
      var rest := mem[ptr].n - n;
      mem[ptr := Header(mem[ptr].next, rest)][ptr + rest := Header(mem[ptr].next, n)]
  }

  lemma RemoveLinked(mem: Memory, fl: seq<Blk>, i: nat, mem': Memory)
    requires Linked(mem, fl) && 0 < i < |fl|
    requires fl[i - 1].addr in mem' && mem'[fl[i - 1].addr] == Header(AddrAt(fl, i + 1), fl[i - 1].n)
    requires forall x {:trigger fl[x]} :: 0 <= x < |fl| && x != i - 1 ==>
               fl[x].addr in mem && fl[x].addr in mem' && mem'[fl[x].addr] == mem[fl[x].addr]
    ensures Linked(mem', fl[.. i] + fl[i + 1 ..])
  {
    var r := fl[.. i] + fl[i + 1 ..];
    forall x | 0 <= x < |r| ensures LinkedAt(mem', r, x) {
      if x < i - 1 {
        assert LinkedAt(mem, fl, x);
        assert r[x] == fl[x] && r[x + 1] == fl[x + 1];
      } else if x == i - 1 {
        if i < |r| { assert r[i] == fl[i + 1]; }
      } else {
        assert LinkedAt(mem, fl, x + 1);
        assert r[x] == fl[x + 1];
        if x + 1 < |r| { assert r[x + 1] == fl[x + 2]; }
      }
    }
  }

  lemma TakeAllLinked(mem: Memory, fl: seq<Blk>, base: nat, lo: nat, brk: nat, i: nat, mem': Memory)
    requires FreeList(fl, base, lo, brk) && Linked(mem, fl) && 0 < i < |fl|
    requires LinkedAt(mem, fl, i - 1) && LinkedAt(mem, fl, i)
    requires mem' == mem[fl[i - 1].addr := Header(mem[fl[i].addr].next, fl[i - 1].n)]
    ensures Linked(mem', fl[.. i] + fl[i + 1 ..])
  {
    forall x {:trigger fl[x]} | 0 <= x < |fl| && x != i - 1
      ensures fl[x].addr in mem && fl[x].addr in mem' && mem'[fl[x].addr] == mem[fl[x].addr]
    {
      assert LinkedAt(mem, fl, x);
      AddrsDiffer(fl, base, lo, brk, x, i - 1);
    }
    RemoveLinked(mem, fl, i, mem');
  }

  lemma TakePartLinked(mem: Memory, fl: seq<Blk>, base: nat, lo: nat, brk: nat, i: nat, n: nat, mem': Memory)
    requires FreeList(fl, base, lo, brk) && Linked(mem, fl) && 0 < i < |fl| && 0 < n < fl[i].n
    requires LinkedAt(mem, fl, i - 1) && LinkedAt(mem, fl, i)
    requires mem' == TakeHeaders(mem, fl[i - 1].addr, fl[i].addr, n)
    ensures Linked(mem', Replace(fl, i, i + 1, Blk(fl[i].addr, fl[i].n - n)))
  {
    forall x {:trigger fl[x]} | 0 <= x < |fl| && x != i
      ensures fl[x].addr in mem && fl[x].addr in mem' && mem'[fl[x].addr] == mem[fl[x].addr]
    {
      assert LinkedAt(mem, fl, x);
      assert Pair(x, i) && Pair(i, x);
    }
    ReplaceLinked(mem, fl, i, i + 1, Blk(fl[i].addr, fl[i].n - n), mem');
  }

  /** The header writes of `inner_malloc` link the new list and head the block taken. */
  lemma TakeLinked(mem: Memory, fl: seq<Blk>, base: nat, lo: nat, brk: nat, i: nat, n: nat)
    requires FreeList(fl, base, lo, brk) && Linked(mem, fl) && 0 < i < |fl| && 0 < n <= fl[i].n
    ensures LinkedAt(mem, fl, i - 1) && LinkedAt(mem, fl, i)
    ensures var mem', t := TakeHeaders(mem, fl[i - 1].addr, fl[i].addr, n), Taken(fl, i, n);
            Linked(mem', Take(fl, i, n)) && t.addr in mem' && mem'[t.addr].n == n
  {
    assert LinkedAt(mem, fl, i - 1) && LinkedAt(mem, fl, i);
    var mem' := TakeHeaders(mem, fl[i - 1].addr, fl[i].addr, n);
    AddrsDiffer(fl, base, lo, brk, i, i - 1);
    if fl[i].n == n {
      TakeAllLinked(mem, fl, base, lo, brk, i, mem');
    } else {
      TakePartLinked(mem, fl, base, lo, brk, i, n, mem');
    }
  }

  /** The blocks handed out: in the heap, apart from each other and from every free block, with
      intact headers. */
  ghost predicate LiveAt(mem: Memory, fl: seq<Blk>, lo: nat, brk: nat, o: Blk) {
    Outside(fl, lo, brk, o) && o.addr in mem && mem[o.addr].n == o.n
  }

  ghost predicate Live(mem: Memory, fl: seq<Blk>, lo: nat, brk: nat, live: seq<Blk>) {
    && (forall k {:trigger live[k]} :: 0 <= k < |live| ==> LiveAt(mem, fl, lo, brk, live[k]))
    && (forall k, m {:trigger live[k], live[m]} :: 0 <= k < m < |live| ==> Apart(live[k], live[m]))
  }

  /** A state of the allocator that holds together; free and live units are what `sbrk` gave. */
  ghost predicate Sound(mem: Memory, fl: seq<Blk>, live: seq<Blk>, base: nat, lo: nat, brk: nat) {
    FreeList(fl, base, lo, brk) && Linked(mem, fl) && Live(mem, fl, lo, brk, live) && Sum(fl) + Sum(live) == brk - lo
  }

  lemma RemoveLive(live: seq<Blk>, k: nat)
    requires k < |live|
    ensures Sum(live[.. k] + live[k + 1 ..]) + live[k].n == Sum(live)
  {
    SumAt(live, k);
    SumConcat(live[.. k], live[k + 1 ..]);
  }

  /** `inner_free` of a block that is apart from everything else. */
  lemma FreeSound(mem: Memory, fl: seq<Blk>, live: seq<Blk>, base: nat, lo: nat, brk: nat, j: nat, t: Blk)
    requires FreeList(fl, base, lo, brk) && Linked(mem, fl) && Live(mem, fl, lo, brk, live) &&
             Sum(fl) + t.n + Sum(live) == brk - lo
    requires LiveAt(mem, fl, lo, brk, t) && After(fl, j, t.addr) &&
             forall k {:trigger live[k]} :: 0 <= k < |live| ==> Apart(live[k], t)
    ensures LinkedAt(mem, fl, j) && LinkedAt(mem, fl, Succ(fl, j))
    ensures Sound(FreeHeaders(mem, fl[j].addr, t.addr), Add(fl, j, t), live, base, lo, brk)
  {
    AddLinked(mem, fl, base, lo, brk, j, t);
    AddIsFreeList(fl, base, lo, brk, j, t);
    AddSum(fl, j, t);
    var mem', fl' := FreeHeaders(mem, fl[j].addr, t.addr), Add(fl, j, t);
    forall k | 0 <= k < |live| ensures LiveAt(mem', fl', lo, brk, live[k]) {
      AddKeepsApart(fl, base, lo, brk, j, t, live[k]);
      if j > 0 { assert Apart(fl[j], live[k]); }
    }
  }

  lemma TakeLive(mem: Memory, fl: seq<Blk>, live: seq<Blk>, base: nat, lo: nat, brk: nat, i: nat, n: nat, o: Blk)
    requires FreeList(fl, base, lo, brk) && 0 < i < |fl| && 0 < n <= fl[i].n && LiveAt(mem, fl, lo, brk, o)
    requires LinkedAt(mem, fl, i - 1) && LinkedAt(mem, fl, i)
    ensures LiveAt(TakeHeaders(mem, fl[i - 1].addr, fl[i].addr, n), Take(fl, i, n), lo, brk, o) &&
            Apart(o, Taken(fl, i, n))
  {
    TakeKeepsApart(fl, base, lo, brk, i, n, o);
    assert Apart(fl[i], o);
    if i - 1 > 0 { assert Apart(fl[i - 1], o); }
  }

  /** Taking `n` units for the caller. */
  lemma TakeSound(mem: Memory, fl: seq<Blk>, live: seq<Blk>, base: nat, lo: nat, brk: nat, i: nat, n: nat)
    requires Sound(mem, fl, live, base, lo, brk) && 0 < i < |fl| && 0 < n <= fl[i].n
    ensures LinkedAt(mem, fl, i - 1) && LinkedAt(mem, fl, i)
    ensures Sound(TakeHeaders(mem, fl[i - 1].addr, fl[i].addr, n), Take(fl, i, n), live + [Taken(fl, i, n)], base, lo,
                  brk)
  {
    TakeLinked(mem, fl, base, lo, brk, i, n);
    TakeIsFreeList(fl, base, lo, brk, i, n);
    TakenIsOutside(fl, base, lo, brk, i, n);
    TakeSum(fl, i, n);
    SumConcat(live, [Taken(fl, i, n)]);
    var mem', fl', t := TakeHeaders(mem, fl[i - 1].addr, fl[i].addr, n), Take(fl, i, n), Taken(fl, i, n);
    forall k | 0 <= k < |live| ensures LiveAt(mem', fl', lo, brk, live[k]) && Apart(live[k], t) {
      TakeLive(mem, fl, live, base, lo, brk, i, n, live[k]);
    }
    LiveMore(mem', fl', lo, brk, live, t);
  }

  lemma LiveMore(mem: Memory, fl: seq<Blk>, lo: nat, brk: nat, live: seq<Blk>, t: Blk)
    requires LiveAt(mem, fl, lo, brk, t)
    requires forall k {:trigger live[k]} :: 0 <= k < |live| ==> LiveAt(mem, fl, lo, brk, live[k]) && Apart(live[k], t)
    requires forall k, m {:trigger live[k], live[m]} :: 0 <= k < m < |live| ==> Apart(live[k], live[m])
    ensures Live(mem, fl, lo, brk, live + [t])
  {
  }
}
