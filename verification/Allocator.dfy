/** `malloc` and `free` as they search and change the free list (ulib/src/malloc.rs:31-159). */
module Allocator {
  import opened Options
  import opened FreeBlocks
  import opened Malloc

  const MIN_CHUNK: nat := 4096
  const UNITS: nat := USIZE / UNIT              // units in the address space of a word
  const USER_UNITS: nat := 0x800_0000_0000      // USEREND / UNIT

  /** A block, a null pointer, a failed check, or a break that has not moved up, with a header about to
      be written beyond it at `at`. */
  datatype Result = Block(p: nat) | Null | Lowered(at: nat) | Panic

  function Chunk(nunits: nat): nat { if nunits < MIN_CHUNK then MIN_CHUNK else nunits }

  /** A larger heap holds what the smaller one held. */
  lemma HeapGrows(mem: Memory, fl: seq<Blk>, live: seq<Blk>, base: nat, lo: nat, brk: nat, h: Header, brk': nat)
    requires Sound(mem, fl, live, base, lo, brk) && brk < brk'
    ensures var mem' := mem[brk := h];
            FreeList(fl, base, lo, brk') && Linked(mem', fl) && Live(mem', fl, lo, brk', live)
  {
    var mem' := mem[brk := h];
    forall i | 0 <= i < |fl| ensures LinkedAt(mem', fl, i) {
      assert LinkedAt(mem, fl, i);
    }
    forall k | 0 <= k < |live| ensures LiveAt(mem', fl, lo, brk', live[k]) {
      assert LiveAt(mem, fl, lo, brk, live[k]);
    }
  }

  /** Steps from block `i` to block `j` on the circle. */
  ghost function Ahead(fl: seq<Blk>, i: nat, j: nat): nat
    requires i < |fl|
  {
    if i <= j then j - i else |fl| - i + j
  }

  /** `nbytes as isize`. */
  function Signed(nbytes: nat): int {
    if nbytes % USIZE < USIZE / 2 then nbytes % USIZE else nbytes % USIZE - USIZE
  }

  /** A growth by `c` units is a negative amount, or zero, that the break can be lowered by. */
  predicate Lowers(c: nat, brk: nat) {
    c >= UNITS / 2 && UNITS - c <= brk
  }

  /** The number of bytes does not fit in a word. */
  predicate TooMany(c: nat) { c >= UNITS }

  lemma SignedUnits(c: nat)
    requires c <= UNITS
    ensures Signed(c * UNIT) == if c < UNITS / 2 then c * UNIT else (c - UNITS) * UNIT
  {
  }

  class Heap {
    /** The build checks additions and multiplications for overflow. */
    const checked: bool
    const base: nat
    const lo: nat
    const limit: nat
    var mem: Memory
    /** `FREE_LIST`. */
    var freep: Option<nat>
    var brk: nat
    /** The free blocks in address order, where `freep` is among them, and the blocks handed out. */
    ghost var fl: seq<Blk>
    ghost var f: nat
    ghost var live: seq<Blk>

    ghost predicate Valid()
      reads this
    {
      && base < lo <= brk <= limit <= USER_UNITS && f < |fl|
      && (freep.Some? ==> Sound(mem, fl, live, base, lo, brk) && freep.value == fl[f].addr)
      && (freep.None? ==> fl == [Blk(base, 0)] && live == [] && brk == lo)
    }

    /** Nothing obtained from `sbrk` yet. */
    constructor (base: nat, lo: nat, limit: nat, checked: bool)
      requires base < lo <= limit <= USER_UNITS
      ensures Valid() && freep.None? && live == [] && brk == lo == this.lo && limit == this.limit
      ensures this.checked == checked
    {
      this.checked := checked;
      this.base, this.lo, this.limit := base, lo, limit;
      mem, freep, brk := map[], None, lo;
      fl, f, live := [Blk(base, 0)], 0, [];
    }

    /** The loop of `inner_free`: it ends at the place for `tag`, within one lap. */
    method FindPlace(tag: nat) returns (p: nat, ghost j: nat, ghost moves: nat)
      requires freep.Some? && f < |fl| && freep.value == fl[f].addr
      requires FreeList(fl, base, lo, brk) && Linked(mem, fl) && lo <= tag &&
               forall i {:trigger fl[i]} :: 0 < i < |fl| ==> fl[i].addr != tag
      ensures After(fl, j, tag) && p == fl[j].addr && moves == Ahead(fl, f, j) < |fl|
    {
      j := PlaceOf(fl, base, lo, brk, tag, |fl| - 1);
      ghost var i: nat := f;
      moves := 0;
      p := freep.value;
      assert LinkedAt(mem, fl, i);
      var nextp := mem[p].next;
      TestIsPlace(fl, base, lo, brk, tag, i, j);
      while !((p < tag && tag < nextp) || (p >= nextp && (p < tag || tag < nextp)))
        invariant i < |fl| && p == fl[i].addr && nextp == fl[Succ(fl, i)].addr
        invariant (p < tag && tag < nextp) || (p >= nextp && (p < tag || tag < nextp)) <==> i == j
        invariant moves + Ahead(fl, i, j) == Ahead(fl, f, j)
        decreases Ahead(fl, i, j)
      {
        i, p, moves := Succ(fl, i), nextp, moves + 1;
        assert LinkedAt(mem, fl, i);
        nextp := mem[p].next;
        TestIsPlace(fl, base, lo, brk, tag, i, j);
      }
    }

    /** `inner_free`: the block joins the list at its place and merges with the neighbours it
        touches. */
    method InnerFree(tag: nat, ghost t: Blk) returns (p: nat, ghost j: nat)
      requires freep.Some? && f < |fl| && freep.value == fl[f].addr && t.addr == tag
      requires FreeList(fl, base, lo, brk) && Linked(mem, fl) && Live(mem, fl, lo, brk, live) &&
               Sum(fl) + t.n + Sum(live) == brk - lo
      requires LiveAt(mem, fl, lo, brk, t) && forall k {:trigger live[k]} :: 0 <= k < |live| ==> Apart(live[k], t)
      modifies this`mem, this`freep, this`fl, this`f
      ensures After(old(fl), j, tag) && p == old(fl)[j].addr && fl == Add(old(fl), j, t) && f == j < |fl|
      ensures freep == Some(p) && fl[f].addr == p && Sound(mem, fl, live, base, lo, brk)
    {
      forall i | 0 < i < |fl| ensures fl[i].addr != tag { assert Apart(fl[i], t); }
      ghost var moves;
      p, j, moves := FindPlace(tag);
      FreeSound(mem, fl, live, base, lo, brk, j, t);
      PlaceKept(fl, base, lo, brk, j, t);
      mem := FreeHeaders(mem, p, tag);
      fl, f := Add(fl, j, t), j;
      freep := Some(p);
    }

    /** `krfree` of a block handed out. */
    method Free(p: nat, ghost k: nat) returns (ghost j: nat)
      requires Valid() && k < |live| && live[k].addr == p
      modifies this
      ensures Valid() && live == old(live[.. k] + live[k + 1 ..]) && brk == old(brk) && freep.Some?
      ensures After(old(fl), j, p) && fl == Add(old(fl), j, old(live)[k]) && f == j
    {
      ghost var t := live[k];
      RemoveLive(live, k);
      ghost var rest := live[.. k] + live[k + 1 ..];
      OthersApart(mem, fl, lo, brk, live, k);
      live := rest;
      var q;
      q, j := InnerFree(p, t);
    }

    /** `sbrk` of a signed number of bytes: the break moves up or down, or stays when that would leave
        the memory the process can have. */
    method Sbrk(amount: int) returns (at: Option<nat>)
      requires brk <= limit <= USER_UNITS && amount % UNIT == 0 && -(USIZE / 2) <= amount < USIZE / 2
      modifies this`brk
      ensures at.Some? <==> 0 <= old(brk) + amount / UNIT && (amount < 0 || old(brk) + amount / UNIT <= limit)
      ensures at.Some? ==> at.value == old(brk) && brk == old(brk) + amount / UNIT
      ensures at.None? ==> brk == old(brk)
    {
      var size := brk * UNIT;
      var size' := (size + amount) % USIZE;
      WrappedSize(brk, amount);
      if (amount < 0 && size' > size) || (amount >= 0 && (size > size' || size' > limit * UNIT)) { return None; }
      at := Some(brk);
      brk := size' / UNIT;
    }

    /** The call of `sbrk` in `more_units`, for `c` units. */
    method Ask(c: nat) returns (r: Result)
      requires brk <= limit <= USER_UNITS && 0 < c <= UNITS
      modifies this`brk
      ensures r == if checked && TooMany(c) then Panic
                   else if Lowers(c, old(brk)) then Lowered(old(brk))
                   else if old(brk) + c <= limit then Block(old(brk)) else Null
      ensures brk == if r.Block? then old(brk) + c else if r.Lowered? then old(brk) + c - UNITS else old(brk)
    {
      SignedUnits(c);
      if checked && c * UNIT >= USIZE { return Panic; }
      var at := Sbrk(Signed(c * UNIT));
      if at.None? { return Null; }
      r := if at.value < brk then Block(at.value) else Lowered(at.value);   // the header goes there
    }

    /** `more_units` and the `inner_free` that follows it: the new chunk extends the last block when
        that one ends at the break, and is a block of its own behind it otherwise. */
    method MoreUnits(nunits: nat) returns (r: Result)
      requires Valid() && freep.Some? && nunits <= UNITS
      modifies this`mem, this`freep, this`brk, this`fl, this`f
      ensures freep.Some? && (r.Block? <==> old(brk) + Chunk(nunits) <= limit)
      ensures r.Panic? <==> checked && TooMany(Chunk(nunits))
      ensures r.Lowered? <==> !r.Panic? && Lowers(Chunk(nunits), old(brk))
      ensures r.Lowered? ==> r.at == old(brk) && brk == old(brk) + Chunk(nunits) - UNITS
      ensures r.Null? || r.Panic? ==> brk == old(brk)
      ensures !r.Block? ==> mem == old(mem) && freep == old(freep) && fl == old(fl) && f == old(f)
      ensures !r.Lowered? ==> Valid()
      ensures r.Block? ==> brk == old(brk) + Chunk(nunits) && f == |old(fl)| - 1 && r.p == fl[f].addr
      ensures r.Block? ==> fl == Extended(old(fl), old(brk), Chunk(nunits))
    {
      var c := Chunk(nunits);
      r := Ask(c);
      if !r.Block? { return; }
      var tag := r.p;
      HeapGrows(mem, fl, live, base, lo, old(brk), Header(tag, c), brk);
      mem := mem[tag := Header(tag, c)];
      ghost var j;
      var q;
      q, j := InnerFree(tag, Blk(tag, c));
      TopPlace(old(fl), base, lo, old(brk), j, c);
      r := Block(q);
    }

    /** The free list is first set up: the empty block `BASE` alone. */
    method Start()
      requires Valid() && freep.None?
      modifies this`mem, this`freep
      ensures Valid() && freep.Some?
    {
      mem := mem[base := Header(base, 0)];
      freep := Some(base);
      assert LinkedAt(mem, fl, 0);
      assert Sum(fl) == 0;
    }

    /** `nunits` units are cut from block `i`, which `ptr` points to, for the caller. */
    method Cut(prevp: nat, ptr: nat, nunits: nat, ghost i: nat) returns (p: nat)
      requires Valid() && freep.Some? && 0 < i < |fl| && ptr == fl[i].addr && prevp == fl[i - 1].addr &&
               0 < nunits <= fl[i].n
      modifies this`mem, this`freep, this`fl, this`f, this`live
      ensures Valid() && freep.Some? && live == old(live) + [Blk(p, nunits)]
      ensures fl == Take(old(fl), i, nunits) && f == i - 1 && p == Taken(old(fl), i, nunits).addr
    {
      TakeSound(mem, fl, live, base, lo, brk, i, nunits);
      p := ptr + mem[ptr].n - nunits;
      mem := TakeHeaders(mem, prevp, ptr, nunits);
      live := live + [Taken(fl, i, nunits)];
      fl, f := Take(fl, i, nunits), i - 1;
      freep := Some(prevp);
    }

    /** The block the search has found serves the request. */
    method Serve(prevp: nat, ptr: nat, nunits: nat, ghost fl0: seq<Blk>, ghost brk0: nat, ghost f0: nat, ghost i: nat)
      returns (p: nat)
      requires Valid() && freep.Some? && f0 < |fl| && Stands(fl0, brk0, f0, nunits, fl, brk, i)
      requires i < |fl| && 0 < nunits <= fl[i].n && ptr == fl[i].addr && (0 < i ==> prevp == fl[i - 1].addr)
      modifies this`mem, this`freep, this`fl, this`f, this`live
      ensures Valid() && freep.Some? && live == old(live) + [Blk(p, nunits)]
      ensures CanServe(fl0, f0, brk0, nunits, limit) && Served(fl0, f0, brk0, nunits, i, fl, f, brk, p)
    {
      Hit(fl0, brk0, f0, nunits, fl, brk, i, limit);
      assert fl[0].n == 0;
      p := Cut(prevp, ptr, nunits, i);
    }

    method NextOf(ptr: nat, ghost i: nat) returns (next: nat)
      requires Valid() && freep.Some? && i < |fl| && ptr == fl[i].addr
      ensures next == fl[Succ(fl, i)].addr
    {
      assert LinkedAt(mem, fl, i);
      next := mem[ptr].next;
    }

    method UnitsOf(ptr: nat, ghost i: nat) returns (n: nat)
      requires Valid() && freep.Some? && i < |fl| && ptr == fl[i].addr
      ensures n == fl[i].n
    {
      assert LinkedAt(mem, fl, i);
      n := mem[ptr].n;
    }

    /** The heap grows at the end of a lap. */
    method GrowSearch(nunits: nat, start: nat, ghost fl0: seq<Blk>, ghost brk0: nat, ghost f0: nat)
      returns (more: Result, ptr: nat)
      requires nunits <= UNITS && Valid() && freep.Some? && f0 < |fl0| && f0 < |fl| && fl[f0].addr == start &&
               fl[f0].n < nunits
      requires Stands(fl0, brk0, f0, nunits, fl, brk, f0)
      modifies this`mem, this`freep, this`brk, this`fl, this`f
      ensures freep.Some? && f0 < |fl| && fl[f0].addr == start && (!more.Lowered? ==> Valid())
      ensures !more.Block? ==> !CanServe(fl0, f0, brk0, nunits, limit)
      ensures Ended(checked, fl0, brk0, nunits, limit, fl, brk, more)
      ensures more.Null? || more.Panic? ==> brk == old(brk)
      ensures more.Block? ==> brk > old(brk) && more.p == fl[f].addr && ptr == fl[Succ(fl, f)].addr
      ensures more.Block? ==> Stands(fl0, brk0, f0, nunits, fl, brk, Succ(fl, f))
    {
      ghost var fl1, brk1 := fl, brk;
      more := MoreUnits(nunits);
      EndsFirst(fl0, brk0, f0, nunits, fl1, brk1, limit);
      if more.Block? {
        GrownHunt(fl0, brk0, f0, nunits, fl1, brk1, base, lo, fl, brk);
        ptr := NextOf(more.p, f);
      } else {
        Miss(fl0, brk0, f0, nunits, fl1, brk1, limit);
        ptr := start;
      }
    }

    /** The loop of `inner_malloc` between two growths: on to the first block that is large enough,
        or to the block the search began at. */
    method Scan(nunits: nat, start: nat, prevp0: nat, ptr0: nat, ghost fl0: seq<Blk>, ghost brk0: nat, ghost f0: nat,
                ghost i0: nat)
      returns (hit: bool, prevp: nat, ptr: nat, ghost i: nat)
      requires Valid() && freep.Some? && f0 < |fl| && fl[f0].addr == start
      requires i0 < |fl| && ptr0 == fl[i0].addr && (0 < i0 ==> prevp0 == fl[i0 - 1].addr) &&
               Stands(fl0, brk0, f0, nunits, fl, brk, i0)
      ensures i < |fl| && ptr == fl[i].addr && (0 < i ==> prevp == fl[i - 1].addr) &&
              Stands(fl0, brk0, f0, nunits, fl, brk, i)
      ensures if hit then fl[i].n >= nunits else i == f0 && fl[f0].n < nunits
    {
      prevp, ptr, i := prevp0, ptr0, i0;
      while true
        invariant i < |fl| && ptr == fl[i].addr && (0 < i ==> prevp == fl[i - 1].addr) &&
                  Stands(fl0, brk0, f0, nunits, fl, brk, i)
        decreases if i <= f0 then f0 - i else |fl| - i + f0
      {
        var n := UnitsOf(ptr, i);
        if n >= nunits { return true, prevp, ptr, i; }
        if i != f0 { AddrsDiffer(fl, base, lo, brk, i, f0); }
        if ptr == start { return false, prevp, ptr, i; }
        StepOn(fl0, brk0, f0, nunits, fl, brk, i);
        prevp := ptr;
        ptr := NextOf(ptr, i);
        i := Succ(fl, i);
      }
    }

    /** The loop of `inner_malloc`. */
    method Search(nunits: nat) returns (r: Result, ghost i: nat)
      requires Valid() && freep.Some? && 0 < nunits <= UNITS
      modifies this`mem, this`freep, this`brk, this`fl, this`f, this`live
      ensures freep.Some? && live == (if r.Block? then old(live) + [Blk(r.p, nunits)] else old(live))
      ensures !r.Lowered? ==> Valid()
      ensures r.Lowered? && brk < old(brk) ==> !Valid()
      ensures r.Block? <==> CanServe(old(fl), old(f), old(brk), nunits, limit)
      ensures Big(old(fl), nunits) ==> brk == old(brk)
      ensures r.Block? ==> Served(old(fl), old(f), old(brk), nunits, i, fl, f, brk, r.p)
      ensures Ended(checked, old(fl), old(brk), nunits, limit, fl, brk, r)
    {
      var start := freep.value;
      var prevp := start;
      var ptr := NextOf(start, f);
      ghost var fl0, brk0, f0 := fl, brk, f;
      i := Succ(fl, f);
      while true
        invariant Valid() && freep.Some? && live == old(live) && f0 < |fl| && fl[f0].addr == start
        invariant 0 <= i < |fl| && ptr == fl[i].addr && (0 < i ==> prevp == fl[i - 1].addr)
        invariant Stands(fl0, brk0, f0, nunits, fl, brk, i)
        decreases limit - brk
      {
        var hit;
        hit, prevp, ptr, i := Scan(nunits, start, prevp, ptr, fl0, brk0, f0, i);
        if hit {
          var p := Serve(prevp, ptr, nunits, fl0, brk0, f0, i);
          return Block(p), i;
        }
        var more;
        more, ptr := GrowSearch(nunits, start, fl0, brk0, f0);
        if !more.Block? { return more, 0; }
        prevp := more.p;
        i := Succ(fl, f);
      }
    }

    /** `inner_malloc`. A block is found when a free block is large enough, and otherwise after one
        growth, unless the highest free block ends at the break and is not where the search began:
        then the new units join a block that the search never comes back to, and it grows the heap
        until `sbrk` fails. A request of 2^63 bytes or more asks `sbrk` for a negative amount: if the
        process is as large as that, its break is lowered under the heap. */
    method InnerMalloc(n: nat) returns (r: Result, ghost i: nat)
      requires Valid() && n < USIZE
      modifies this
      ensures !r.Lowered? ==> Valid()
      ensures r.Lowered? && brk < old(brk) ==> !Valid()
      ensures n == 0 ==> r == Null && live == old(live) && brk == old(brk) && fl == old(fl)
      ensures n + UNIT - 1 >= USIZE ==> r == Panic && live == old(live) && brk == old(brk) && fl == old(fl)
      ensures 0 < n <= USIZE - UNIT ==>
                var nunits := Bytes2Units(n) + 1;
                && live == (if r.Block? then old(live) + [Blk(r.p, nunits)] else old(live))
                && (r.Block? <==> CanServe(old(fl), old(f), old(brk), nunits, limit))
                && (Big(old(fl), nunits) ==> brk == old(brk))
                && (r.Block? ==> Served(old(fl), old(f), old(brk), nunits, i, fl, f, brk, r.p))
                && Ended(checked, old(fl), old(brk), nunits, limit, fl, brk, r)
    {
      if n == 0 { return Null, 0; }
      if freep.None? { Start(); }
      if n + UNIT - 1 >= USIZE { return Panic, 0; }
      r, i := Search(Bytes2Units(n) + 1);
    }
  }

  /** A request for `n` units will be met: some free block has as many, or the heap can grow and the
      search comes back to the new units. */
  ghost predicate CanServe(fl: seq<Blk>, f: nat, brk: nat, n: nat, limit: nat) {
    Big(fl, n) || (brk + Chunk(n) <= limit && !StaleTop(fl, f, brk))
  }

  /** How a request that no free block can serve ends, decided by the sizes before it: a panic when the
      number of bytes overflows, a lowered break when it is negative and within the process, a null
      pointer only with too little room left to grow. */
  ghost predicate Ended(checked: bool, fl0: seq<Blk>, brk0: nat, n: nat, limit: nat, fl: seq<Blk>, brk: nat,
                        r: Result) {
    var c := Chunk(n);
    && (r.Panic? <==> !Big(fl0, n) && checked && TooMany(c))
    && (r.Lowered? <==> !Big(fl0, n) && !(checked && TooMany(c)) && Lowers(c, brk0))
    && (r.Lowered? ==> r.at == brk0 && brk == brk0 + c - UNITS && fl == fl0)
    && (r.Null? ==> brk + c > limit)
  }

  /** The amount is negative, or too large, at the first growth or never. */
  lemma EndsFirst(fl0: seq<Blk>, brk0: nat, f0: nat, n: nat, fl: seq<Blk>, brk: nat, limit: nat)
    requires Stands(fl0, brk0, f0, n, fl, brk, f0) && f0 < |fl| && fl[f0].n < n && brk <= limit <= USER_UNITS
    ensures !Big(fl0, n)
    ensures brk != brk0 ==> !Lowers(Chunk(n), brk0) && !Lowers(Chunk(n), brk) && !TooMany(Chunk(n))
    ensures brk == brk0 ==> fl == fl0
  {
  }

  lemma WrappedSize(brk: nat, amount: int)
    requires brk <= USER_UNITS && amount % UNIT == 0 && -(USIZE / 2) <= amount < USIZE / 2
    ensures var size := brk * UNIT;
            (size + amount) % USIZE == if size + amount >= 0 then size + amount else size + amount + USIZE
    ensures 0 <= brk * UNIT + amount ==> (brk * UNIT + amount) / UNIT == brk + amount / UNIT
    ensures 0 <= brk * UNIT + amount <==> 0 <= brk + amount / UNIT
  {
    var size := brk * UNIT;
    if size + amount < 0 { assert (size + amount + USIZE) % USIZE == size + amount + USIZE; }
  }

  /** How the request was met from the free list `fl0`: the first block behind `f0` that is large
      enough gives its last `n` units, after one growth if there is none, and the next search begins
      at the block before it. */
  ghost predicate Served(fl0: seq<Blk>, f0: nat, brk0: nat, n: nat, i: nat, fl: seq<Blk>, f: nat, brk: nat, p: nat) {
    && 0 < |fl0| && 0 < n && brk == (if Big(fl0, n) then brk0 else brk0 + Chunk(n))
    && var fl1 := if Big(fl0, n) then fl0 else Extended(fl0, brk0, Chunk(n));
       && 0 < i < |fl1| && fl1[i].n >= n && (if Big(fl0, n) then Scanned(fl0, f0, i, n) else i == |fl1| - 1)
       && fl == Take(fl1, i, n) && f == i - 1 && p == Taken(fl1, i, n).addr && p + n == fl1[i].End()
  }

  /** Where the search for `n` units that began at block `f0` of `fl0` stands. */
  ghost predicate Stands(fl0: seq<Blk>, brk0: nat, f0: nat, n: nat, fl: seq<Blk>, brk: nat, i: nat) {
    && brk0 <= brk && (brk == brk0 ==> fl == fl0 && Scanned(fl, f0, i, n))
    && (brk != brk0 ==> brk0 + Chunk(n) <= brk && Hunting(fl0, brk0, f0, n, fl, brk, i))
  }

  lemma Hit(fl0: seq<Blk>, brk0: nat, f0: nat, n: nat, fl: seq<Blk>, brk: nat, i: nat, limit: nat)
    requires Stands(fl0, brk0, f0, n, fl, brk, i) && i < |fl| && fl[i].n >= n && brk <= limit && f0 < |fl|
    ensures CanServe(fl0, f0, brk0, n, limit) && (Big(fl0, n) ==> brk == brk0 && fl == fl0 && Scanned(fl, f0, i, n))
    ensures !Big(fl0, n) ==> |fl0| > 0 && brk == brk0 + Chunk(n) && fl == Extended(fl0, brk0, Chunk(n)) && i == |fl| - 1
  {
  }

  /** Past a block that is too small. */
  lemma StepOn(fl0: seq<Blk>, brk0: nat, f0: nat, n: nat, fl: seq<Blk>, brk: nat, i: nat)
    requires Stands(fl0, brk0, f0, n, fl, brk, i) && i < |fl| && fl[i].n < n && i != f0 && f0 < |fl|
    ensures Stands(fl0, brk0, f0, n, fl, brk, Succ(fl, i))
  {
  }

  lemma Miss(fl0: seq<Blk>, brk0: nat, f0: nat, n: nat, fl: seq<Blk>, brk: nat, limit: nat)
    requires Stands(fl0, brk0, f0, n, fl, brk, f0) && f0 < |fl| && fl[f0].n < n && brk <= limit < brk + Chunk(n)
    ensures !CanServe(fl0, f0, brk0, n, limit)
  {
  }

  ghost predicate Big(fl: seq<Blk>, n: nat) {
    exists i :: 0 <= i < |fl| && fl[i].n >= n
  }

  /** The highest free block ends at the break, and the search does not begin at it. */
  ghost predicate StaleTop(fl: seq<Blk>, f: nat, brk: nat) {
    |fl| > 0 && f != |fl| - 1 && fl[|fl| - 1].End() == brk
  }

  /** Index `x` comes after `f` and before `i` on the circle. */
  ghost predicate InArc(f: nat, i: nat, x: nat) {
    if f < i then f < x < i else x > f || x < i
  }

  ghost predicate Scanned(fl: seq<Blk>, f: nat, i: nat, n: nat) {
    forall x {:trigger fl[x]} :: 0 <= x < |fl| && InArc(f, i, x) ==> fl[x].n < n
  }

  /** Where the search stands once the heap has grown. */
  ghost predicate Hunting(fl0: seq<Blk>, brk0: nat, f0: nat, n: nat, fl: seq<Blk>, brk: nat, i: nat) {
    && !Big(fl0, n) && f0 < |fl0| <= |fl| && fl[|fl| - 1].n >= n
    && (fl0[|fl0| - 1].End() != brk0 ==> i == |fl| - 1)
    && (StaleTop(fl0, f0, brk0) ==>
          |fl| == |fl0| && fl[|fl| - 1].End() == brk && i <= f0 &&
          forall x {:trigger fl[x]} :: 0 <= x < |fl| - 1 ==> fl[x].n < n)
    && (fl0[|fl0| - 1].End() == brk0 ==> |fl| == |fl0|)
    && (!StaleTop(fl0, f0, brk0) ==> brk == brk0 + Chunk(n) && fl == Extended(fl0, brk0, Chunk(n)))
  }

  /** Growing again, or for the first time, at the end of a lap. */
  lemma GrownHunt(fl0: seq<Blk>, brk0: nat, f0: nat, n: nat, fl1: seq<Blk>, brk1: nat, base: nat, lo: nat, fl: seq<Blk>,
                  brk: nat)
    requires f0 < |fl0| && FreeList(fl1, base, lo, brk1) && f0 < |fl1| && fl1[f0].n < n &&
             Stands(fl0, brk0, f0, n, fl1, brk1, f0)
    requires brk == brk1 + Chunk(n) && fl == Extended(fl1, brk1, Chunk(n))
    ensures |fl1| - 1 < |fl| && f0 < |fl| && fl[f0].addr == fl1[f0].addr && fl[|fl1| - 1].addr == fl1[|fl1| - 1].addr
    ensures Stands(fl0, brk0, f0, n, fl, brk, Succ(fl, |fl1| - 1))
  {
  }

  /** The free list after the heap grew by `c` units at `brk`. */
  ghost function Extended(fl: seq<Blk>, brk: nat, c: nat): seq<Blk>
    requires |fl| > 0
  {
    var last := |fl| - 1;
    if fl[last].End() == brk then fl[last := Blk(fl[last].addr, fl[last].n + c)] else fl + [Blk(brk, c)]
  }

  lemma TopPlace(fl: seq<Blk>, base: nat, lo: nat, brk: nat, j: nat, c: nat)
    requires FreeList(fl, base, lo, brk) && After(fl, j, brk)
    ensures j == |fl| - 1 && Add(fl, j, Blk(brk, c)) == Extended(fl, brk, c)
  {
    assert j + 1 < |fl| ==> fl[j + 1].End() <= brk;
  }

  lemma OthersApart(mem: Memory, fl: seq<Blk>, lo: nat, brk: nat, live: seq<Blk>, k: nat)
    requires Live(mem, fl, lo, brk, live) && k < |live|
    ensures var rest := live[.. k] + live[k + 1 ..];
            Live(mem, fl, lo, brk, rest) && forall m {:trigger rest[m]} :: 0 <= m < |rest| ==> Apart(rest[m], live[k])
  {
    var rest := live[.. k] + live[k + 1 ..];
    forall m | 0 <= m < |rest| ensures LiveAt(mem, fl, lo, brk, rest[m]) && Apart(rest[m], live[k]) {
      var m' := if m < k then m else m + 1;
      assert rest[m] == live[m'];
      assert LiveAt(mem, fl, lo, brk, live[m']);
    }
    forall m, n | 0 <= m < n < |rest| ensures Apart(rest[m], rest[n]) {
      var m', n' := if m < k then m else m + 1, if n < k then n else n + 1;
      assert Apart(live[m'], live[n']);
    }
  }

  /** `malloc(48)`, the first call. */
  method FirstCall(limit: nat) returns (h: Heap, p: Result)
    requires 4097 <= limit <= USER_UNITS
    ensures fresh(h) && h.Valid() && h.limit == limit && h.brk == 4097 && p == Block(4093)
    ensures h.fl == [Blk(0, 0), Blk(1, 4092)] && h.f == 0 && h.live == [Blk(4093, 4)]
  {
    h := new Heap(0, 1, limit, true);
    ghost var i;
    FirstCan(limit);
    p, i := h.InnerMalloc(48);
    FirstServed(i, h.fl, h.f, h.brk, p.p);
  }

  /** `malloc(65424)`, the second. */
  method SecondCall(h: Heap)
    requires h.Valid() && h.brk == 4097
    requires h.fl == [Blk(0, 0), Blk(1, 4092)] && h.f == 0 && h.live == [Blk(4093, 4)]
    modifies h
    ensures h.Valid() && h.brk == 4097 && h.fl == [Blk(0, 0), Blk(1, 2)] && h.live == [Blk(4093, 4), Blk(3, 4090)]
  {
    var q;
    ghost var i;
    SecondCan(h.limit);
    q, i := h.InnerMalloc(65424);
    SecondServed(i, h.fl, h.f, h.brk, q.p);
  }

  /** After three calls the search begins at the low block while the high one ends at the break: a
      request for 5 units then fails, however much `sbrk` could still give. */
  method StaleTopExample(limit: nat) returns (h: Heap, r: Result)
    requires 4097 + MIN_CHUNK <= limit <= USER_UNITS
    ensures h.Valid() && h.limit == limit && r == Null && h.brk + MIN_CHUNK > limit
  {
    var p;
    h, p := FirstCall(limit);
    SecondCall(h);
    ghost var i := h.Free(p.p, 0);
    HighFreed(i, h.fl);
    LastCannot(limit);
    r, i := h.InnerMalloc(64);
  }

  /** `malloc(48)` and then `malloc(2^64 - 4096)`: the break ends up 255 units lower, with the live
      block above it. */
  method LowersTheBreak(limit: nat) returns (h: Heap, r: Result)
    requires 4097 <= limit <= USER_UNITS
    ensures r == Lowered(4097) && h.brk == 3842 && h.live == [Blk(4093, 4)] && !h.Valid()
  {
    var p;
    h, p := FirstCall(limit);
    ghost var i;
    HugeUnits();
    r, i := h.InnerMalloc(USIZE - 4096);
  }

  lemma HugeUnits()
    ensures Bytes2Units(USIZE - 4096) + 1 == UNITS - 255
    ensures !Big([Blk(0, 0), Blk(1, 4092)], UNITS - 255)
  {
  }

  lemma FirstCan(limit: nat)
    requires limit >= 4097
    ensures Bytes2Units(48) == 3 && CanServe([Blk(0, 0)], 0, 1, 4, limit)
  {
  }

  lemma SecondCan(limit: nat)
    ensures Bytes2Units(65424) == 4089 && CanServe([Blk(0, 0), Blk(1, 4092)], 0, 4097, 4090, limit)
  {
    assert [Blk(0, 0), Blk(1, 4092)][1].n >= 4090;
  }

  lemma LastCannot(limit: nat)
    ensures Bytes2Units(64) == 4 && !CanServe([Blk(0, 0), Blk(1, 2), Blk(4093, 4)], 1, 4097, 5, limit)
  {
  }

  lemma FirstServed(i: nat, fl: seq<Blk>, f: nat, brk: nat, p: nat)
    requires Served([Blk(0, 0)], 0, 1, 4, i, fl, f, brk, p)
    ensures fl == [Blk(0, 0), Blk(1, 4092)] && f == 0 && brk == 4097 && p == 4093
  {
  }

  lemma SecondServed(i: nat, fl: seq<Blk>, f: nat, brk: nat, p: nat)
    requires Served([Blk(0, 0), Blk(1, 4092)], 0, 4097, 4090, i, fl, f, brk, p)
    ensures fl == [Blk(0, 0), Blk(1, 2)] && f == 0 && brk == 4097 && p == 3
  {
    assert [Blk(0, 0), Blk(1, 4092)][1].n >= 4090;
  }

  lemma HighFreed(j: nat, fl: seq<Blk>)
    requires After([Blk(0, 0), Blk(1, 2)], j, 4093) && fl == Add([Blk(0, 0), Blk(1, 2)], j, Blk(4093, 4))
    ensures j == 1 && fl == [Blk(0, 0), Blk(1, 2), Blk(4093, 4)]
  {
  }

  lemma PlaceKept(fl: seq<Blk>, base: nat, lo: nat, brk: nat, j: nat, t: Blk)
    requires FreeList(fl, base, lo, brk) && Outside(fl, lo, brk, t) && After(fl, j, t.addr)
    ensures j < |Add(fl, j, t)| && Add(fl, j, t)[j].addr == fl[j].addr
  {
  }
}
