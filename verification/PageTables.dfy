/** `PageTable`: mapping pages and freeing ranges of them (kernel/src/vm.rs:139-310, 397-419).
    Addresses are handled as page numbers once rounded. */
module PageTables {
  import opened Options
  import opened PhysMem
  import opened PageTree
  import opened PageFree

  /** Page `q` is none of the tables that serve page number `v`. */
  ghost predicate OffPath(tab: Tab, v: nat, q: nat) {
    forall l {:trigger Pre(l, v)} :: 1 <= l <= 4 && (l, Pre(l, v)) in tab ==> tab[(l, Pre(l, v))] != q
  }

  /** The tree grew by tables for `v` only, made of pages that were free; nothing else moved
      between the free list and the tree. */
  ghost predicate Grew(tab: Tab, free: seq<nat>, tab': Tab, free': seq<nat>, v: nat) {
    && Sub(tab, tab')
    && (forall l, p :: (l, p) in tab' && (l, p) !in tab ==> p == Pre(l, v) && tab'[(l, p)] in free)
    && (forall q {:trigger Entry(q)} :: Entry(q) ==>
          (q in free <==> q in free' || (IsTable(tab', q) && !IsTable(tab, q))))
    && Apart(free', tab')
  }

  /** Only free pages and the tables of `v` may have changed. */
  ghost predicate PathFrame(mem: seq<Page>, mem': seq<Page>, free: seq<nat>, tab: Tab, v: nat) {
    && |mem'| == |mem|
    && forall q {:trigger mem'[q]} :: 0 <= q < |mem| && q !in free && OffPath(tab, v, q) ==> mem'[q] == mem[q]
  }

  lemma GrewByOne(tab: Tab, free: seq<nat>, c: nat, v: nat)
    requires Distinct(free) && free != [] && (c, Pre(c, v)) !in tab && Apart(free, tab)
    ensures Grew(tab, free, tab[(c, Pre(c, v)) := free[0]], free[1..], v)
  {
    var tab' := tab[(c, Pre(c, v)) := free[0]];
    FirstOnce(free);
    FreeNotTable(free, tab, free[0]);
    forall i, l, p | 0 <= i < |free[1..]| && (l, p) in tab' ensures free[1..][i] != tab'[(l, p)] {
      assert Versus(0, i + 1, l, p);
    }
    forall q | Entry(q) ensures q in free <==> q in free[1..] || (IsTable(tab', q) && !IsTable(tab, q)) {
      assert IsTable(tab', q) <==> IsTable(tab, q) || q == free[0] by {
        if IsTable(tab, q) {
          var l, p :| (l, p) in tab && tab[(l, p)] == q;
          assert (l, p) in tab' && tab'[(l, p)] == q;
        }
        assert (c, Pre(c, v)) in tab' && tab'[(c, Pre(c, v))] == free[0];
      }
      assert q in free <==> q == free[0] || q in free[1..];
      if q in free { FreeNotTable(free, tab, q); }
    }
  }

  /** The first free page becomes the missing level `l - 1` table of `v`. */
  lemma NextMutAdds(mem: seq<Page>, free: seq<nat>, root: nat, tab: Tab, l: nat, v: nat)
    requires Tables(mem, root, tab) && Distinct(free) && free != [] && free[0] < |mem| && Apart(free, tab)
    requires 2 <= l <= 4 && v < VPNS && (l, Pre(l, v)) in tab && (l - 1, Pre(l - 1, v)) !in tab
    ensures var q, t := free[0], tab[(l, Pre(l, v))];
            var mem' := SetEntry(mem[q := ZERO_PAGE], t, Index(l, v), NewEntry(q * PAGE_SIZE, TABLE_FLAGS));
            var tab' := tab[(l - 1, Pre(l - 1, v)) := q];
            && Tables(mem', root, tab') && SameLookups(mem, tab, mem', tab')
            && Grew(tab, free, tab', free[1..], v) && PathFrame(mem, mem', free, tab, v)
  {
    var p, i, q := Pre(l, v), Index(l, v), free[0];
    var t := tab[(l, p)];
    assert p * 512 + i == Pre(l - 1, v);
    GrewByOne(tab, free, l - 1, v);
    FreeNotTable(free, tab, q);
    TablesFrame(mem, root, tab, q, ZERO_PAGE);
    TablesAdd(mem[q := ZERO_PAGE], root, tab, l, p, i, q);
    assert !OffPath(tab, v, t);
  }

  // How many pages it takes.

  function One(c: bool): nat { if c then 1 else 0 }

  /** How many of the tables that serve `v` are missing. */
  ghost function Missing(tab: Tab, v: nat): nat {
    One((3, Pre(3, v)) !in tab) + One((2, Pre(2, v)) !in tab) + One((1, Pre(1, v)) !in tab)
  }

  /** Names a key that is looked for. */
  ghost predicate Key(l: int, p: int) { true }

  /** The table of `v` below level `l` was made unless it was there; that takes one page. */
  ghost predicate MadeNext(tab: Tab, free: seq<nat>, tab': Tab, free': seq<nat>, l: nat, v: nat, ok: bool)
    requires l > 0
  {
    var n := One((l - 1, Pre(l - 1, v)) !in tab);
    && (ok <==> |free| >= n)
    && (ok ==> |free'| == |free| - n)
    && (ok ==> forall m: nat, p: nat {:trigger Key(m, p)} :: Key(m, p) ==>
          ((m, p) in tab' <==> (m, p) in tab || (m == l - 1 && p == Pre(m, v))))
  }

  /** The tables of `tab'` are those of `tab` and all that serve the page numbers `lo ..< hi`. */
  ghost predicate Served(tab: Tab, tab': Tab, lo: nat, hi: nat) {
    forall m: nat, p: nat {:trigger Key(m, p)} :: Key(m, p) ==>
      ((m, p) in tab' <==> (m, p) in tab || (1 <= m <= 3 && Serves(m, p, lo, hi)))
  }

  /** The missing tables of `v` were made, one page each, if there were that many free pages and only
      then. */
  ghost predicate MadePath(tab: Tab, free: seq<nat>, tab': Tab, free': seq<nat>, v: nat, ok: bool) {
    && (ok <==> |free| >= Missing(tab, v))
    && (ok ==> |free'| == |free| - Missing(tab, v) && Served(tab, tab', v, v + 1))
  }

  lemma PathMade(tab: Tab, free: seq<nat>, tab1: Tab, free1: seq<nat>, tab2: Tab, free2: seq<nat>,
                 tab3: Tab, free3: seq<nat>, v: nat, ok: bool)
    requires MadeNext(tab, free, tab1, free1, 4, v, true) && MadeNext(tab1, free1, tab2, free2, 3, v, true)
    requires MadeNext(tab2, free2, tab3, free3, 2, v, ok)
    ensures MadePath(tab, free, tab3, free3, v, ok)
  {
    assert Key(3, Pre(3, v)) && Key(2, Pre(2, v)) && Key(1, Pre(1, v));
  }

  lemma GrewTrans(tab: Tab, free: seq<nat>, tab1: Tab, free1: seq<nat>, tab2: Tab, free2: seq<nat>, v: nat)
    requires Grew(tab, free, tab1, free1, v) && Grew(tab1, free1, tab2, free2, v)
    ensures Grew(tab, free, tab2, free2, v)
  {
    forall q | Entry(q) ensures q in free <==> q in free2 || (IsTable(tab2, q) && !IsTable(tab, q)) {
      SubTables(tab1, tab, q);
      SubTables(tab2, tab1, q);
    }
    forall q | q in free1 ensures q in free { assert Entry(q); }
  }

  lemma PathFrameTrans(mem: seq<Page>, free: seq<nat>, tab: Tab, mem1: seq<Page>, free1: seq<nat>, tab1: Tab,
                       mem2: seq<Page>, v: nat)
    requires Grew(tab, free, tab1, free1, v)
    requires PathFrame(mem, mem1, free, tab, v) && PathFrame(mem1, mem2, free1, tab1, v)
    ensures PathFrame(mem, mem2, free, tab, v)
  {
    forall q | q !in free && OffPath(tab, v, q) ensures q !in free1 && OffPath(tab1, v, q) {
      assert Entry(q);
    }
  }

  class PageTable {
    const memory: Memory
    const root: nat
    ghost var tab: Tab

    constructor (memory: Memory, root: nat, ghost tab: Tab)
      ensures this.memory == memory && this.root == root && this.tab == tab
    {
      this.memory, this.root, this.tab := memory, root, tab;
    }

    ghost predicate Valid()
      reads this, memory
    {
      && memory.Valid()
      && Tables(memory.mem, root, tab)
      && Apart(memory.free, tab)
    }

    /** `next_mut`: the table below, made from a free page when it is missing. */
    method NextMut(l: nat, v: nat, t: nat) returns (ok: bool, next: nat)
      requires Valid() && 2 <= l <= 4 && v < VPNS && (l, Pre(l, v)) in tab && tab[(l, Pre(l, v))] == t
      modifies this, memory
      ensures Valid() && SameLookups(old(memory.mem), old(tab), memory.mem, tab)
      ensures ok ==> (l - 1, Pre(l - 1, v)) in tab && tab[(l - 1, Pre(l - 1, v))] == next
      ensures !ok ==> memory.free == []
      ensures Grew(old(tab), old(memory.free), tab, memory.free, v)
      ensures PathFrame(old(memory.mem), memory.mem, old(memory.free), old(tab), v)
      ensures MadeNext(old(tab), old(memory.free), tab, memory.free, l, v, ok)
    {
      var i := Index(l, v);
      ghost var p := Pre(l, v);
      assert p * 512 + i == Pre(l - 1, v);
      assert Linked(memory.mem, tab, l, p, i);
      var entry := memory.mem[t][i];
      if !Present(entry) {
        var q;
        ok, q := memory.Get();
        if !ok { return false, 0; }
        NextMutAdds(old(memory.mem), old(memory.free), root, tab, l, v);
        entry := NewEntry(q * PAGE_SIZE, TABLE_FLAGS);
        EntryRoundTrip(q * PAGE_SIZE, TABLE_FLAGS);
        TableNotFree(old(memory.free), tab, l, p);
        FreeListFrame(memory.mem, memory.head, memory.free, t, memory.mem[t][i := entry]);
        memory.mem := SetEntry(memory.mem, t, i, entry);
        tab := tab[(l - 1, p * 512 + i) := q];
      }
      ok, next := true, Frame(entry);
    }

    /** The first three steps of `map_to`: the level-1 table of `v`, making tables on the way. */
    method Descend(v: nat) returns (ok: bool, t: nat)
      requires Valid() && v < VPNS
      modifies this, memory
      ensures Valid() && SameLookups(old(memory.mem), old(tab), memory.mem, tab)
      ensures ok ==> (1, v / 512) in tab && tab[(1, v / 512)] == t
      ensures !ok ==> memory.free == []
      ensures Grew(old(tab), old(memory.free), tab, memory.free, v)
      ensures PathFrame(old(memory.mem), memory.mem, old(memory.free), old(tab), v)
      ensures MadePath(old(tab), old(memory.free), tab, memory.free, v, ok)
    {
      ghost var mem0, tab0, free0 := memory.mem, tab, memory.free;
      ok, t := NextMut(4, v, root);
      ghost var mem1, tab1, free1 := memory.mem, tab, memory.free;
      if !ok { return; }
      ok, t := NextMut(3, v, t);
      GrewTrans(tab0, free0, tab1, free1, tab, memory.free, v);
      PathFrameTrans(mem0, free0, tab0, mem1, free1, tab1, memory.mem, v);
      ghost var mem2, tab2, free2 := memory.mem, tab, memory.free;
      if !ok { return; }
      ok, t := NextMut(2, v, t);
      GrewTrans(tab0, free0, tab2, free2, tab, memory.free, v);
      PathFrameTrans(mem0, free0, tab0, mem2, free2, tab2, memory.mem, v);
      PathMade(tab0, free0, tab1, free1, tab2, free2, tab, memory.free, v, ok);
    }

    /** `map_to`: on success exactly page number `v` changes, to the new entry; on failure nothing
        is mapped differently and memory is exhausted. */
    method MapTo(pa: nat, va: nat, flags: nat) returns (ok: bool)
      requires Valid() && IsFlags(flags)
      modifies this, memory
      ensures Valid()
      ensures ok ==> Lookup(memory.mem, tab, va / PAGE_SIZE % VPNS) == Some(Enable(NewEntry(pa, flags)))
      ensures forall w {:trigger Lookup(memory.mem, tab, w)} ::
                0 <= w < VPNS && (ok ==> w != va / PAGE_SIZE % VPNS) ==>
                Lookup(memory.mem, tab, w) == old(Lookup(memory.mem, tab, w))
      ensures !ok ==> memory.free == []
      ensures Grew(old(tab), old(memory.free), tab, memory.free, va / PAGE_SIZE % VPNS)
      ensures PathFrame(old(memory.mem), memory.mem, old(memory.free), old(tab), va / PAGE_SIZE % VPNS)
      ensures MadePath(old(tab), old(memory.free), tab, memory.free, va / PAGE_SIZE % VPNS, ok)
    {
      var v := va / PAGE_SIZE % VPNS;
      var t;
      ok, t := Descend(v);
      if ok {
        var e := Enable(NewEntry(pa, flags));
        EntryRoundTrip(pa, flags);
        ghost var mem1 := memory.mem;
        TablesSetLeaf(memory.mem, root, tab, v, e);
        TableNotFree(memory.free, tab, 1, v / 512);
        FreeListFrame(memory.mem, memory.head, memory.free, t, memory.mem[t][v % 512 := e]);
        memory.mem := SetEntry(memory.mem, t, v % 512, e);
        LeafFrame(mem1, memory.mem, memory.free, tab, v);
        PathFrameTrans(old(memory.mem), old(memory.free), old(tab), mem1, memory.free, tab, memory.mem, v);
      }
    }

    // Freeing.

    ghost function Phys(): Ram
      reads memory
    {
      Ram(memory.mem, memory.head)
    }

    /** Every mapped user page belongs to this table alone. */
    ghost predicate Owns(leaf: map<nat, nat>)
      reads this, memory
    {
      Owned(Phys(), root, tab, memory.free, leaf)
    }

    method Clear(t: nat, i: nat)
      requires i < ENTRIES
      modifies memory`mem
      ensures Phys() == ClearEntry(old(Phys()), t, i)
    {
      if t < |memory.mem| {
        memory.mem := SetEntry(memory.mem, t, i, 0);
      }
    }

    /** `is_empty`. */
    method IsEmpty(t: nat) returns (empty: bool)
      ensures empty <==> ZeroTable(Phys(), t)
    {
      if t >= |memory.mem| { return false; }
      for i := 0 to ENTRIES
        invariant forall j :: 0 <= j < i ==> memory.mem[t][j] == 0
      {
        if memory.mem[t][i] != 0 { return false; }
      }
      return true;
    }

    /** `Table<Level1>::free_user_pages`. */
    method FreeLevel1(t: nat, lo: nat, hi: nat)
      requires hi - lo <= ENTRIES
      modifies memory`mem, memory`head
      ensures Phys() == FreeLeaves(old(Phys()), t, lo, hi)
    {
      var v := lo;
      while v < hi
        invariant FreeLeaves(Phys(), t, v, hi) == FreeLeaves(old(Phys()), t, lo, hi)
        invariant v >= hi ==> Phys() == FreeLeaves(old(Phys()), t, lo, hi)
      {
        var next := Next(memory.mem, t, v % 512);
        if next.Some? {
          memory.Put(next.value);
          Clear(t, v % 512);
        }
        v := v + 1;
      }
    }

    /** One turn of the loop of `free_user_pages` above level 1: the range below the entry for `va`,
        then the entry's table if that left it empty. */
    method FreeEntry(l: nat, t: nat, va: nat, lo: nat, hi: nat)
      requires 2 <= l <= 4 && hi - lo <= EntrySpan(l)
      modifies memory`mem, memory`head
      ensures Phys() == FreeChild(old(Phys()), l, t, va, lo, hi)
      decreases l, 0
    {
      var next := Next(memory.mem, t, Index(l, va));
      if next.Some? {
        FreeLevel(l - 1, next.value, lo, hi);
        var empty := IsEmpty(next.value);
        if empty {
          memory.Put(next.value);
          Clear(t, Index(l, va));
        }
      }
    }

    method FreeEntries(l: nat, t: nat, from: nat, lo: nat, hi: nat)
      requires 2 <= l <= 4
      modifies memory`mem, memory`head
      ensures Phys() == FreeChildren(old(Phys()), l, t, from, lo, hi)
      decreases l, 1
    {
      ghost var goal := FreeChildren(Phys(), l, t, from, lo, hi);
      var span, va := EntrySpan(l), from;
      while va < hi
        invariant FreeChildren(Phys(), l, t, va, lo, hi) == goal
        decreases hi - va
      {
        FreeEntry(l, t, va, Max(lo, va), Min(hi, va + span));
        va := va + span;
      }
    }

    /** `free_user_pages` of a table of any level. Below level 4 the code asserts that the range is no
        larger than what the table covers; that is the precondition here. */
    method FreeLevel(l: nat, t: nat, lo: nat, hi: nat)
      requires 1 <= l <= 4 && (l <= 3 ==> hi - lo <= ENTRIES * EntrySpan(l))
      modifies memory`mem, memory`head
      ensures Phys() == FreeTable(old(Phys()), l, t, lo, hi)
      decreases l, 2
    {
      if lo >= hi { return; }
      if l == 1 {
        FreeLevel1(t, lo, hi);
      } else {
        FreeEntries(l, t, lo - lo % EntrySpan(l), lo, hi);
      }
    }

    /** `free_user_pages`: exactly the mappings of page numbers between the rounded bounds go away;
        their pages and the tables that became empty join the free list, each exactly once; all
        other mappings and all other pages stay. */
    method FreeUserPages(start: nat, end: nat, ghost leaf: map<nat, nat>)
      requires Owns(leaf) && end <= USER_VPNS * PAGE_SIZE
      modifies this, memory
      ensures var lo, hi := RoundUp(start), RoundUp(end);
              && Owns(Without(leaf, lo, hi))
              && (lo < hi ==> Freed(old(memory.mem), old(tab), old(memory.free),
                                    memory.mem, tab, memory.free, leaf, 4, lo, hi))
              && (lo >= hi ==> Phys() == old(Phys()) && tab == old(tab) && memory.free == old(memory.free))
    {
      if start < end {
        var lo, hi := RoundUp(start), RoundUp(end);
        FreeLevel(4, root, lo, hi);
        if lo < hi {
          ghost var tab', free' := FreeTableFrees(old(Phys()), root, tab, memory.free, leaf, 4, 0, lo, hi);
          tab, memory.free := tab', free';
        }
      }
      assert RoundUp(start) >= RoundUp(end) ==> Without(leaf, RoundUp(start), RoundUp(end)) == leaf;
    }
  }

  /** `page_round_up`, in pages. */
  function RoundUp(a: nat): (n: nat)
    ensures n * PAGE_SIZE >= a && (n > 0 ==> (n - 1) * PAGE_SIZE < a)
  {
    (a + PAGE_SIZE - 1) / PAGE_SIZE
  }

  lemma LeafFrame(mem: seq<Page>, mem': seq<Page>, free: seq<nat>, tab: Tab, v: nat)
    requires (1, v / 512) in tab && |mem'| == |mem|
    requires forall q :: 0 <= q < |mem| && q != tab[(1, v / 512)] ==> mem'[q] == mem[q]
    ensures PathFrame(mem, mem', free, tab, v)
  {
    assert (1, Pre(1, v)) in tab;
    assert !OffPath(tab, v, tab[(1, v / 512)]);
  }

  /** After a successful `map_to`, `translate` of any address in the page gives the page-aligned
      physical address, without bits above bit 46, plus the offset. */
  lemma MappedTranslates(mem: seq<Page>, root: nat, tab: Tab, pa: nat, flags: nat, va: nat)
    requires Tables(mem, root, tab) && IsFlags(flags)
    requires Lookup(mem, tab, va / PAGE_SIZE % VPNS) == Some(Enable(NewEntry(pa, flags)))
    ensures Translate(mem, root, va) == Some(pa / PAGE_SIZE % MAXPAGES * PAGE_SIZE + va % PAGE_SIZE)
  {
    WalkIsLookup(mem, root, tab, va / PAGE_SIZE % VPNS);
    EntryRoundTrip(pa, flags);
  }

  /** Equal lookups translate equally. */
  lemma SameLookupTranslates(mem: seq<Page>, tab: Tab, mem': seq<Page>, tab': Tab, root: nat, va: nat)
    requires Tables(mem, root, tab) && Tables(mem', root, tab')
    requires Lookup(mem', tab', va / PAGE_SIZE % VPNS) == Lookup(mem, tab, va / PAGE_SIZE % VPNS)
    ensures Translate(mem', root, va) == Translate(mem, root, va)
  {
    WalkIsLookup(mem, root, tab, va / PAGE_SIZE % VPNS);
    WalkIsLookup(mem', root, tab', va / PAGE_SIZE % VPNS);
  }
}
