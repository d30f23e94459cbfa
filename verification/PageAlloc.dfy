/** `alloc_user` and `dealloc_user`: growing and shrinking an address space
    (kernel/src/vm.rs:362-395). */
module PageAlloc {
  import opened Options
  import opened PhysMem
  import opened PageTree
  import opened PageFree
  import opened PageTables
  import opened PageDup

  lemma ServedNotKern(m: nat, q: nat, lo: nat, hi: nat)
    requires 1 <= m <= 4 && Serves(m, q, lo, hi) && hi <= USER_VPNS
    ensures !KernKey(m, q)
  {
    KernNotServed(m, q);
    PreMono(m, hi - 1, USER_VPNS - 1);
    PreMono(m, 0, lo);
  }

  /** Freeing a range conserves pages: `all` are those free, held or the space's own. */
  lemma FreedConserves(r: Ram, root: nat, tab: Tab, free: seq<nat>, leaf: map<nat, nat>, r1: Ram, tab1: Tab,
                       free1: seq<nat>, lo: nat, hi: nat, held: seq<nat>, all: seq<nat>)
    requires Owned(r, root, tab, free, leaf) && Tables(r1.mem, root, tab1)
    requires Freed(r.mem, tab, free, r1.mem, tab1, free1, leaf, 4, lo, hi) && lo <= hi <= USER_VPNS
    requires MadeOf(all, held + free, tab, leaf)
    ensures MadeOf(all, held + free1, tab1, Without(leaf, lo, hi))
  {
    forall x | Entry(x) ensures x in all <==> x in held + free1 || SpacePage(tab1, Without(leaf, lo, hi), x) {
      MappedRest(leaf, lo, hi, x);
      UserTableRest(r.mem, root, tab, r1.mem, tab1, lo, hi, x);
    }
  }

  lemma MappedRest(leaf: map<nat, nat>, lo: nat, hi: nat, x: nat)
    requires lo <= hi <= USER_VPNS
    ensures MappedIn(leaf, 0, USER_VPNS, x) <==>
              MappedIn(leaf, lo, hi, x) || MappedIn(Without(leaf, lo, hi), 0, USER_VPNS, x)
  {
    var rest := Without(leaf, lo, hi);
    if MappedIn(leaf, 0, USER_VPNS, x) {
      var v :| v in leaf && 0 <= v < USER_VPNS && leaf[v] == x;
      if !(lo <= v < hi) { assert v in rest && rest[v] == x; }
    }
    if MappedIn(rest, 0, USER_VPNS, x) {
      var v :| v in rest && 0 <= v < USER_VPNS && rest[v] == x;
      assert v in leaf && leaf[v] == x;
    }
  }

  lemma UserTableRest(mem: seq<Page>, root: nat, tab: Tab, mem1: seq<Page>, tab1: Tab, lo: nat, hi: nat, x: nat)
    requires Tables(mem, root, tab) && Pruned(tab, mem1, tab1, 4, lo, hi) && hi <= USER_VPNS
    ensures UserTable(tab, x) <==> UserTable(tab1, x) || (IsTable(tab, x) && !IsTable(tab1, x))
  {
    if IsTable(tab, x) {
      var l, p :| (l, p) in tab && tab[(l, p)] == x;
      forall m, q | (m, q) in tab && tab[(m, q)] == x ensures m == l && q == p { assert Versus(m, q, l, p); }
      if (l, p) in tab1 {
        assert tab1[(l, p)] == x;
      } else {
        ServedNotKern(l, p, lo, hi);
      }
    }
    if UserTable(tab1, x) {
      var l, p :| (l, p) in tab1 && !KernKey(l, p) && tab1[(l, p)] == x;
      assert (l, p) in tab && tab[(l, p)] == x;
    }
  }

  /** `flags | PageFlags::USER`. */
  function WithUser(flags: nat): nat { if User(flags) then flags else flags + 4 }

  lemma WithUserFlags(flags: nat)
    requires IsFlags(flags)
    ensures IsFlags(WithUser(flags)) && User(WithUser(flags))
  {
  }

  /** Entry `e` is present, for user code, and has the bits of `flags` otherwise. */
  predicate Grants(e: nat, flags: nat) {
    && Present(e) && User(e) && (Writable(e) <==> Writable(flags))
    && e / 8 % 64 == flags / 8 % 64 && e / NX % 2 == flags / NX % 2
  }

  /** Flags with bits 0 and 2 set have the same bits otherwise. */
  lemma WithUserBits(flags: nat)
    requires IsFlags(flags)
    ensures var g := if WithUser(flags) % 2 == 1 then WithUser(flags) else WithUser(flags) + 1;
            IsFlags(g) && g == 8 * (flags / 8) + 4 + 2 * (flags / 2 % 2) + 1
  {
    SplitBits(flags);
    var h, b := flags / 8, flags / 2 % 2;
    LastBits(WithUser(flags), h, 1, b, flags % 2);
  }

  lemma HighBits(e: nat, g: nat)
    requires IsFlags(g) && Flags(e) == g
    ensures e == 512 * (e / 512) + g % 512 && e / NX % 2 == g / NX % 2
  {
  }

  /** The new mappings have exactly the bits asked for, and those of a user page. */
  lemma NewEntryGrants(pa: nat, flags: nat)
    requires IsFlags(flags)
    ensures Grants(Enable(NewEntry(pa, WithUser(flags))), flags)
  {
    var f, e := WithUser(flags), Enable(NewEntry(pa, WithUser(flags)));
    WithUserFlags(flags);
    EntryRoundTrip(pa, f);
    WithUserBits(flags);
    GrantsFlags(e, flags, if f % 2 == 1 then f else f + 1);
  }

  lemma GrantsFlags(e: nat, flags: nat, g: nat)
    requires IsFlags(flags) && IsFlags(g) && Flags(e) == g && g == 8 * (flags / 8) + 4 + 2 * (flags / 2 % 2) + 1
    ensures Grants(e, flags)
  {
    HighBits(e, g);
    FlagBits(flags, g);
    var h, b := flags / 8 % 64, flags / 2 % 2;
    LastBits(e, 64 * (e / 512) + h, 1, b, 1);
  }

  lemma FlagBits(flags: nat, g: nat)
    requires IsFlags(flags) && g == 8 * (flags / 8) + 4 + 2 * (flags / 2 % 2) + 1
    ensures g % 512 == 8 * (flags / 8 % 64) + 4 + 2 * (flags / 2 % 2) + 1 && g / NX % 2 == flags / NX % 2
  {
    var nx := if flags >= NX then 1 else 0;
    var h := (flags - nx * NX) / 8;
    assert flags / 8 == h + nx * 0x1000_0000_0000_0000;
  }

  ghost predicate Granted(mem: seq<Page>, tab: Tab, lo: nat, hi: nat, flags: nat) {
    forall v {:trigger Lookup(mem, tab, v)} :: lo <= v < hi ==>
      Lookup(mem, tab, v).Some? && Grants(Lookup(mem, tab, v).value, flags)
  }

  lemma ClearedGranted(mem: seq<Page>, tab: Tab, leaf: map<nat, nat>, lo: nat, hi: nat, flags: nat)
    requires IsFlags(flags) && Cleared(mem, tab, leaf, lo, hi, WithUser(flags))
    ensures Granted(mem, tab, lo, hi, flags)
  {
    forall v | lo <= v < hi ensures Lookup(mem, tab, v).Some? && Grants(Lookup(mem, tab, v).value, flags) {
      assert ClearedAt(mem, tab, leaf, v, WithUser(flags));
      NewEntryGrants(leaf[v] * PAGE_SIZE, flags);
    }
  }

  /** Page number `v` is mapped to a cleared page with the given flags. */
  ghost predicate ClearedAt(mem: seq<Page>, tab: Tab, leaf: map<nat, nat>, v: nat, flags: nat) {
    && v in leaf && EmptyTable(mem, leaf[v])
    && Lookup(mem, tab, v) == Some(Enable(NewEntry(leaf[v] * PAGE_SIZE, flags)))
  }

  ghost predicate Cleared(mem: seq<Page>, tab: Tab, leaf: map<nat, nat>, lo: nat, hi: nat, flags: nat) {
    forall v :: lo <= v < hi ==> ClearedAt(mem, tab, leaf, v, flags)
  }

  lemma ClearedTaken(r: Ram, root: nat, tab: Tab, free: seq<nat>, leaf: map<nat, nat>, lo: nat, hi: nat, flags: nat,
                     r1: Ram)
    requires Owned(r, root, tab, free, leaf) && free != [] && r1.mem == r.mem[free[0] := ZERO_PAGE]
    requires SameLookups(r.mem, tab, r1.mem, tab) && hi <= USER_VPNS
    requires Cleared(r.mem, tab, leaf, lo, hi, flags)
    ensures Cleared(r1.mem, tab, leaf, lo, hi, flags)
  {
    forall v | lo <= v < hi ensures ClearedAt(r1.mem, tab, leaf, v, flags) {
      assert ClearedAt(r.mem, tab, leaf, v, flags);
      LeafNotFree(free, leaf, v);
      assert Lookup(r1.mem, tab, v) == Lookup(r.mem, tab, v);
    }
  }

  lemma ClearedMapped(r: Ram, root: nat, tab: Tab, free: seq<nat>, leaf: map<nat, nat>, lo: nat, v: nat, q: nat,
                      flags: nat, mem': seq<Page>, tab': Tab)
    requires Owned(r, root, tab, free, leaf) && PathFrame(r.mem, mem', free, tab, v) && v < USER_VPNS
    requires q < |r.mem| && q !in free && NotTable(tab, q) && EmptyTable(r.mem, q)
    requires Cleared(r.mem, tab, leaf, lo, v, flags) &&
             Lookup(mem', tab', v) == Some(Enable(NewEntry(q * PAGE_SIZE, flags)))
    requires forall w {:trigger Lookup(mem', tab', w)} :: 0 <= w < VPNS && w != v ==>
               Lookup(mem', tab', w) == Lookup(r.mem, tab, w)
    ensures Cleared(mem', tab', leaf[v := q], lo, v + 1, flags)
  {
    var leaf' := leaf[v := q];
    forall w | lo <= w < v + 1 ensures ClearedAt(mem', tab', leaf', w, flags) {
      if w != v {
        assert ClearedAt(r.mem, tab, leaf, w, flags);
        LeafNotFree(free, leaf, w);
        LeafNotTable(r.mem, tab, leaf, w);
      }
      UnusedOffPath(tab, v, leaf'[w]);
    }
  }

  datatype AllocResult = Size(n: nat) | TooLarge | NoPage | NoTable(lost: nat)

  // How many pages growing takes.

  /** The table that serves `v` at level `l` is missing and does not serve `lo ..< v` either. */
  ghost predicate IsFresh(tab: Tab, lo: nat, v: nat, l: nat) {
    (l, Pre(l, v)) !in tab && !Serves(l, Pre(l, v), lo, v)
  }

  ghost function Fresh(tab: Tab, lo: nat, v: nat): nat {
    One(IsFresh(tab, lo, v, 3)) + One(IsFresh(tab, lo, v, 2)) + One(IsFresh(tab, lo, v, 1))
  }

  /** How many pages it takes to map `lo ..< v`, for every `v` from `lo` to `hi`: one for each page
      number and one for each table that is missing and not made yet. */
  ghost function Needs(tab: Tab, lo: nat, hi: nat): (r: seq<nat>)
    requires lo <= hi
    ensures |r| == hi - lo + 1
  {
    if lo == hi then [0]
    else
      var r := Needs(tab, lo, hi - 1);
      r + [r[hi - 1 - lo] + 1 + Fresh(tab, lo, hi - 1)]
  }

  lemma {:induction false} NeedsAt(tab: Tab, lo: nat, hi: nat, v: nat)
    requires lo <= v < hi
    ensures var need := Needs(tab, lo, hi); need[0] == 0 && need[v + 1 - lo] == need[v - lo] + 1 + Fresh(tab, lo, v)
    decreases hi
  {
    if v < hi - 1 {
      NeedsAt(tab, lo, hi - 1, v);
    } else if lo < v {
      NeedsAt(tab, lo, v, lo);
    }
  }

  ghost predicate Rising(need: seq<nat>) {
    forall i, j {:trigger Places(i, j)} :: Places(i, j) && 0 <= i < j < |need| ==> need[i] < need[j]
  }

  lemma {:induction false} NeedsRise(tab: Tab, lo: nat, hi: nat)
    requires lo <= hi
    ensures Rising(Needs(tab, lo, hi))
    decreases hi
  {
    if lo < hi {
      var r, need := Needs(tab, lo, hi - 1), Needs(tab, lo, hi);
      NeedsRise(tab, lo, hi - 1);
      forall i, j | Places(i, j) && 0 <= i < j < |need| ensures need[i] < need[j] {
        if j == hi - lo && i < j - 1 { assert Places(i, j - 1); }
      }
    }
  }

  // The same as a number of tables.

  /** The table that serves `v` at level `l`, if it is missing. */
  ghost function MissingAt(tab: Tab, v: nat, l: nat): set<(nat, nat)> {
    if (l, Pre(l, v)) in tab then {} else {(l, Pre(l, v))}
  }

  /** The missing tables that serve `lo ..< hi`. */
  ghost function MissingTables(tab: Tab, lo: nat, hi: nat): set<(nat, nat)> {
    if hi <= lo then {}
    else
      MissingTables(tab, lo, hi - 1)
      + MissingAt(tab, hi - 1, 3) + MissingAt(tab, hi - 1, 2) + MissingAt(tab, hi - 1, 1)
  }

  lemma ServesMore(l: nat, p: nat, lo: nat, v: nat)
    requires lo <= v && l <= 4
    ensures Serves(l, p, lo, v + 1) <==> Serves(l, p, lo, v) || p == Pre(l, v)
  {
    PreMono(l, lo, v);
    if lo < v {
      PreMono(l, v - 1, v);
      PreStep(l, v);
    }
  }

  lemma {:induction false} IsMissing(tab: Tab, lo: nat, hi: nat, l: nat, p: nat)
    requires lo <= hi
    ensures (l, p) in MissingTables(tab, lo, hi) <==> 1 <= l <= 3 && Serves(l, p, lo, hi) && (l, p) !in tab
    decreases hi
  {
    if lo < hi {
      var v := hi - 1;
      IsMissing(tab, lo, v, l, p);
      assert (l, p) in MissingTables(tab, lo, hi) <==>
             (l, p) in MissingTables(tab, lo, v) || (1 <= l <= 3 && p == Pre(l, v) && (l, p) !in tab);
      if 1 <= l <= 3 { ServesMore(l, p, lo, v); }
    }
  }

  lemma SizeMore<T>(s: set<T>, x: T, c: bool)
    ensures |s + (if c then {x} else {})| == |s| + One(c && x !in s)
  {
    if !c || x in s {
      assert s + (if c then {x} else {}) == s;
    }
  }

  lemma MissingMore(tab: Tab, lo: nat, v: nat)
    requires lo <= v
    ensures |MissingTables(tab, lo, v + 1)| == |MissingTables(tab, lo, v)| + Fresh(tab, lo, v)
  {
    var s, p3, p2, p1 := MissingTables(tab, lo, v), Pre(3, v), Pre(2, v), Pre(1, v);
    SizeMore(s, (3, p3), (3, p3) !in tab);
    SizeMore(s + MissingAt(tab, v, 3), (2, p2), (2, p2) !in tab);
    SizeMore(s + MissingAt(tab, v, 3) + MissingAt(tab, v, 2), (1, p1), (1, p1) !in tab);
    IsMissing(tab, lo, v, 3, p3);
    IsMissing(tab, lo, v, 2, p2);
    IsMissing(tab, lo, v, 1, p1);
  }

  /** What is needed is the number of page numbers and of missing tables that serve them. */
  lemma {:induction false} NeedsCount(tab: Tab, lo: nat, v: nat, hi: nat)
    requires lo <= v <= hi
    ensures Needs(tab, lo, hi)[v - lo] == v - lo + |MissingTables(tab, lo, v)|
    decreases v
  {
    if lo < v {
      NeedsCount(tab, lo, v - 1, hi);
      NeedsAt(tab, lo, hi, v - 1);
      MissingMore(tab, lo, v - 1);
    } else if lo < hi {
      NeedsAt(tab, lo, hi, lo);
    }
  }

  // The result follows from the number of free pages.

  /** With the tables for `lo ..< v` made, those missing on the path of `v` are the fresh ones. */
  lemma NeedOnPath(tab0: Tab, lo: nat, v: nat, hi: nat, tab: Tab)
    requires lo <= v < hi && Served(tab0, tab, lo, v)
    ensures var need := Needs(tab0, lo, hi); need[v + 1 - lo] == need[v - lo] + 1 + Missing(tab, v)
  {
    NeedsAt(tab0, lo, hi, v);
    assert Key(3, Pre(3, v)) && Key(2, Pre(2, v)) && Key(1, Pre(1, v));
  }

  lemma ServedMore(tab0: Tab, lo: nat, v: nat, tab: Tab, tab': Tab)
    requires lo <= v && Served(tab0, tab, lo, v) && Served(tab, tab', v, v + 1)
    ensures Served(tab0, tab', lo, v + 1)
  {
    forall m: nat, p: nat | Key(m, p)
      ensures (m, p) in tab' <==> (m, p) in tab0 || (1 <= m <= 3 && Serves(m, p, lo, v + 1))
    {
      if 1 <= m <= 3 { ServesMore(m, p, lo, v); }
    }
  }

  /** `n` pages are enough for the first `k` page numbers and some but not all of the next. */
  ghost predicate OutWithin(need: seq<nat>, n: nat, k: nat)
    requires k + 1 < |need|
  {
    need[k] < n < need[k + 1]
  }

  /** The result of growing with `n` free pages: all is mapped exactly when there are as many as that
      takes; there is no page to map exactly when they are used up between two page numbers, and no
      page for a table exactly when they are used up within one. */
  ghost predicate Decided(need: seq<nat>, n: nat, res: AllocResult)
    requires need != []
  {
    && (res.Size? <==> n >= need[|need| - 1])
    && (res.NoPage? <==> exists k :: 0 <= k < |need| - 1 && n == need[k])
    && (res.NoTable? <==> exists k :: 0 <= k < |need| - 1 && OutWithin(need, n, k))
  }

  /** The same, with the page number at which the pages are used up. */
  ghost predicate DecidedBy(need: seq<nat>, n: nat, k: nat, res: AllocResult) {
    k + 1 < |need| && Decided(need, n, res) && need[k] <= n < need[k + 1]
  }

  /** The loop stopped at the `k`-th page number. */
  lemma DecidedAt(need: seq<nat>, n: nat, k: nat, res: AllocResult)
    requires Rising(need) && k + 1 < |need| && need[k] <= n < need[k + 1]
    requires if n == need[k] then res.NoPage? else res.NoTable?
    ensures Decided(need, n, res)
  {
    assert Places(k + 1, |need| - 1);
    forall j | 0 <= j < |need| - 1 && j != k ensures n != need[j] && !OutWithin(need, n, j) {
      assert Places(j, k) && Places(j + 1, k) && Places(k + 1, j) && Places(j, j + 1);
    }
    assert n == need[k] || OutWithin(need, n, k);
  }

  lemma DecidedAll(need: seq<nat>, n: nat, res: AllocResult)
    requires Rising(need) && need != [] && n >= need[|need| - 1] && res.Size?
    ensures Decided(need, n, res)
  {
    forall j | 0 <= j < |need| - 1 ensures n != need[j] && !OutWithin(need, n, j) {
      assert Places(j, |need| - 1) && Places(j + 1, |need| - 1);
    }
  }

  /** The result of one round and what it takes: nothing is left to decide. */
  ghost predicate Round(tab: Tab, free: seq<nat>, tab': Tab, free': seq<nat>, v: nat, res: AllocResult) {
    && (res.NoPage? <==> free == [])
    && (res.NoTable? <==> 0 < |free| < 1 + Missing(tab, v))
    && (res.Size? <==> |free| >= 1 + Missing(tab, v))
    && (res.Size? ==> |free'| == |free| - 1 - Missing(tab, v) && Served(tab, tab', v, v + 1))
  }

  // Pages that are nobody's.

  /** The page mapped at `v`, if any. */
  ghost function PageAt(leaf: map<nat, nat>, v: nat): seq<nat> {
    if v in leaf then [leaf[v]] else []
  }

  /** The pages mapped at `lo ..< v`, in order. */
  ghost function PagesAt(leaf: map<nat, nat>, lo: nat, v: nat): seq<nat> {
    if v <= lo then [] else PagesAt(leaf, lo, v - 1) + PageAt(leaf, v - 1)
  }

  lemma {:induction false} NoPagesAt(leaf: map<nat, nat>, lo: nat, v: nat)
    requires forall w :: lo <= w < v ==> w !in leaf
    ensures PagesAt(leaf, lo, v) == []
  {
    if lo < v { NoPagesAt(leaf, lo, v - 1); }
  }

  /** Pages that are neither free nor the space's own. */
  ghost predicate Astray(lost: seq<nat>, free: seq<nat>, tab: Tab, leaf: map<nat, nat>) {
    forall x {:trigger x in lost} :: x in lost ==> x !in free && NotTable(tab, x) && !MappedIn(leaf, 0, USER_VPNS, x)
  }

  lemma StaysOut(tab: Tab, free: seq<nat>, tab': Tab, free': seq<nat>, v: nat, x: nat)
    requires Grew(tab, free, tab', free', v) && x !in free && NotTable(tab, x)
    ensures x !in free' && NotTable(tab', x)
  {
    assert Entry(x);
    forall l, p | (l, p) in tab' ensures tab'[(l, p)] != x {
      if (l, p) in tab { assert tab[(l, p)] == tab'[(l, p)]; }
    }
  }

  /** `map_to` has put page `q` at `v`: the page that was there is nobody's. */
  lemma AstrayMapped(r: Ram, root: nat, tab: Tab, free: seq<nat>, leaf: map<nat, nat>, tab': Tab, free': seq<nat>,
                     v: nat, q: nat, lost: seq<nat>)
    requires Owned(r, root, tab, free, leaf) && Grew(tab, free, tab', free', v) && Astray(lost, free, tab, leaf)
    requires q !in lost && !MappedIn(leaf, 0, USER_VPNS, q)
    ensures Astray(lost + PageAt(leaf, v), free', tab', leaf[v := q])
  {
    var leaf' := leaf[v := q];
    forall x | x in lost + PageAt(leaf, v)
      ensures x !in free' && NotTable(tab', x) && !MappedIn(leaf', 0, USER_VPNS, x)
    {
      if x !in lost {
        LeafNotFree(free, leaf, v);
        LeafNotTable(r.mem, tab, leaf, v);
        assert v < USER_VPNS;
      }
      StaysOut(tab, free, tab', free', v, x);
      forall w | w in leaf' && 0 <= w < USER_VPNS ensures leaf'[w] != x {
        if w != v && x !in lost { assert Versus(0, v, 0, w); }
        if v in leaf { assert MappedIn(leaf, 0, USER_VPNS, leaf[v]); }
      }
    }
  }

  lemma AstrayHeld(tab: Tab, free: seq<nat>, leaf: map<nat, nat>, tab': Tab, free': seq<nat>, v: nat, lost: seq<nat>)
    requires Grew(tab, free, tab', free', v) && Astray(lost, free, tab, leaf)
    ensures Astray(lost, free', tab', leaf)
  {
    forall x | x in lost ensures x !in free' && NotTable(tab', x) && !MappedIn(leaf, 0, USER_VPNS, x) {
      StaysOut(tab, free, tab', free', v, x);
    }
  }

  lemma MadeOfRemapped(all: seq<nat>, tab: Tab, free: seq<nat>, leaf: map<nat, nat>, v: nat, q: nat, lost: seq<nat>)
    requires MadeOf(all, [q] + lost + free, tab, leaf) && v < USER_VPNS
    ensures MadeOf(all, lost + PageAt(leaf, v) + free, tab, leaf[v := q])
  {
    var leaf' := leaf[v := q];
    forall x | Entry(x) ensures x in all <==> x in lost + PageAt(leaf, v) + free || SpacePage(tab, leaf', x) {
      if MappedIn(leaf, 0, USER_VPNS, x) {
        var w :| w in leaf && 0 <= w < USER_VPNS && leaf[w] == x;
        if w != v { assert w in leaf' && leaf'[w] == x; }
      }
      if MappedIn(leaf', 0, USER_VPNS, x) {
        var w :| w in leaf' && 0 <= w < USER_VPNS && leaf'[w] == x;
        if w != v { assert w in leaf && leaf[w] == x; }
      }
      assert v in leaf' && leaf'[v] == q;
      if v in leaf { assert MappedIn(leaf, 0, USER_VPNS, leaf[v]); }
    }
  }

  /** The first free page is taken. */
  lemma TakenKeeps(r: Ram, root: nat, tab: Tab, free: seq<nat>, leaf: map<nat, nat>, lo: nat, v: nat, flags: nat,
                   r1: Ram, all: seq<nat>, lost: seq<nat>)
    requires Owned(r, root, tab, free, leaf) && free != [] && v <= USER_VPNS
    requires r1.mem == r.mem[free[0] := ZERO_PAGE] && FreeListed(r1.mem, r1.head, free[1..])
    requires Cleared(r.mem, tab, leaf, lo, v, flags) && MadeOf(all, lost + free, tab, leaf)
    requires Astray(lost, free, tab, leaf)
    ensures Owned(r1, root, tab, free[1..], leaf) && SameLookups(r.mem, tab, r1.mem, tab)
    ensures Cleared(r1.mem, tab, leaf, lo, v, flags)
    ensures Astray(lost, free[1..], tab, leaf) && Astray(lost + [free[0]], free[1..], tab, leaf)
    ensures MadeOf(all, [free[0]] + lost + free[1..], tab, leaf) && free[0] !in lost
  {
    TakeKeeps(r, root, tab, free, leaf, ZERO_PAGE, r1);
    ClearedTaken(r, root, tab, free, leaf, lo, v, flags, r1);
    assert free == [free[0]] + free[1..];
    forall x | Entry(x) ensures x in all <==> x in [free[0]] + lost + free[1..] || SpacePage(tab, leaf, x) {
      assert x in lost + free <==> x in [free[0]] + lost + free[1..];
    }
  }

  /** One round of the loop of `alloc_user`: a cleared page is mapped at `v`. A page whose mapping
      fails stays held by nobody, and so does the page that was mapped at `v` before. */
  method AddPage(pt: PageTable, v: nat, flags: nat, ghost leaf: map<nat, nat>, ghost all: seq<nat>, ghost lo: nat,
                 ghost lost: seq<nat>)
    returns (res: AllocResult, ghost leaf': map<nat, nat>)
    requires pt.Owns(leaf) && v < USER_VPNS && IsFlags(flags) && Astray(lost, pt.memory.free, pt.tab, leaf)
    requires MadeOf(all, lost + pt.memory.free, pt.tab, leaf) && Cleared(pt.memory.mem, pt.tab, leaf, lo, v, flags)
    modifies pt, pt.memory
    ensures pt.Owns(leaf') && !res.TooLarge?
    ensures res.Size? ==> Extends(leaf, leaf', v, v + 1) && Agrees(leaf, leaf', v, v + 1)
    ensures res.Size? ==> Cleared(pt.memory.mem, pt.tab, leaf', lo, v + 1, flags)
    ensures !res.Size? ==> leaf' == leaf && pt.memory.free == []
    ensures MadeOf(all, lost + Gone(leaf, v, res) + pt.memory.free, pt.tab, leaf')
    ensures Astray(lost + Gone(leaf, v, res), pt.memory.free, pt.tab, leaf')
    ensures forall w {:trigger Lookup(pt.memory.mem, pt.tab, w)} :: 0 <= w < VPNS && w != v ==>
              Lookup(pt.memory.mem, pt.tab, w) == old(Lookup(pt.memory.mem, pt.tab, w))
    ensures Round(old(pt.tab), old(pt.memory.free), pt.tab, pt.memory.free, v, res)
  {
    leaf' := leaf;
    ghost var r, free := pt.Phys(), pt.memory.free;
    var ok, q := pt.memory.Get();
    if !ok {
      assert lost + [] == lost;
      return NoPage, leaf;
    }
    TakenKeeps(r, pt.root, pt.tab, free, leaf, lo, v, flags, pt.Phys(), all, lost);
    TakeKeeps(r, pt.root, pt.tab, free, leaf, ZERO_PAGE, pt.Phys());
    ghost var r1, tab1, free1 := pt.Phys(), pt.tab, pt.memory.free;
    EntryRoundTrip(q * PAGE_SIZE, flags);
    PageNumbers(v, q);
    ok := pt.MapTo(q * PAGE_SIZE, v * PAGE_SIZE, flags);
    MadeOfGrew(all, tab1, free1, leaf, pt.tab, pt.memory.free, v, [q] + lost);
    if ok {
      MappedOwned(r1, pt.root, tab1, free1, leaf, pt.Phys(), pt.tab, pt.memory.free, v, q);
      ClearedMapped(r1, pt.root, tab1, free1, leaf, lo, v, q, flags, pt.memory.mem, pt.tab);
      AstrayMapped(r1, pt.root, tab1, free1, leaf, pt.tab, pt.memory.free, v, q, lost);
      MadeOfRemapped(all, pt.tab, pt.memory.free, leaf, v, q, lost);
      res, leaf' := Size(v), leaf[v := q];
      ExtendsByOne(leaf, v, q);
    } else {
      GrewKeeps(r1, pt.root, tab1, free1, leaf, pt.Phys(), pt.tab, pt.memory.free, v);
      AstrayHeld(tab1, free1, leaf, pt.tab, pt.memory.free, v, lost + [q]);
      res := NoTable(q);
    }
  }

  /** The page a round leaves to nobody. */
  ghost function Gone(leaf: map<nat, nat>, v: nat, res: AllocResult): seq<nat> {
    if res.Size? then PageAt(leaf, v) else Held(res)
  }

  ghost function Held(res: AllocResult): seq<nat> {
    if res.NoTable? then [res.lost] else []
  }

  /** What `alloc_user` leaves behind when it gives up: nothing mapped in the range, and every page
      accounted for but those held. */
  lemma AllocUndone(r: Ram, root: nat, tab: Tab, free: seq<nat>, leaf1: map<nat, nat>, r1: Ram, tab1: Tab,
                    free1: seq<nat>, lo: nat, hi: nat, held: seq<nat>, all: seq<nat>)
    requires Owned(r, root, tab, free, leaf1) && Owned(r1, root, tab1, free1, Without(leaf1, lo, hi))
    requires Freed(r.mem, tab, free, r1.mem, tab1, free1, leaf1, 4, lo, hi) && lo <= hi <= USER_VPNS
    requires MadeOf(all, held + free, tab, leaf1) && Astray(held, free, tab, leaf1)
    ensures MadeOf(all, held + free1, tab1, Without(leaf1, lo, hi))
    ensures Astray(held, free1, tab1, Without(leaf1, lo, hi))
  {
    FreedConserves(r, root, tab, free, leaf1, r1, tab1, free1, lo, hi, held, all);
    forall x | x in held
      ensures x !in free1 && NotTable(tab1, x) && !MappedIn(Without(leaf1, lo, hi), 0, USER_VPNS, x)
    {
      assert Entry(x);
      SubTables(tab, tab1, x);
      MappedRest(leaf1, lo, hi, x);
    }
  }

  /** Outside `lo ..< hi` the same pages are mapped. */
  ghost predicate Agrees(leaf: map<nat, nat>, leaf': map<nat, nat>, lo: nat, hi: nat) {
    forall v {:trigger leaf'[v]} {:trigger leaf[v]} :: v in leaf && v in leaf' && !(lo <= v < hi) ==>
      leaf'[v] == leaf[v]
  }

  lemma WithoutExtends(leaf: map<nat, nat>, leaf': map<nat, nat>, lo: nat, v: nat, hi: nat)
    requires Extends(leaf, leaf', lo, v) && Agrees(leaf, leaf', lo, v) && lo <= v <= hi
    ensures Without(leaf', lo, hi) == Without(leaf, lo, hi)
  {
  }

  /** The loop of `alloc_user` gives up: `dealloc_user`. */
  method GiveUp(pt: PageTable, oldSize: nat, newSize: nat, ghost leaf1: map<nat, nat>, ghost held: seq<nat>,
                ghost all: seq<nat>)
    returns (ghost leaf': map<nat, nat>)
    requires pt.Owns(leaf1) && newSize <= USER_VPNS * PAGE_SIZE && RoundUp(oldSize) < RoundUp(newSize)
    requires MadeOf(all, held + pt.memory.free, pt.tab, leaf1) && Astray(held, pt.memory.free, pt.tab, leaf1)
    modifies pt, pt.memory
    ensures leaf' == Without(leaf1, RoundUp(oldSize), RoundUp(newSize)) && pt.Owns(leaf')
    ensures MadeOf(all, held + pt.memory.free, pt.tab, leaf') && Astray(held, pt.memory.free, pt.tab, leaf')
    ensures OthersSame(old(pt.memory.mem), old(pt.tab), pt.memory.mem, pt.tab, RoundUp(oldSize), RoundUp(newSize))
  {
    ghost var r, tab, free := pt.Phys(), pt.tab, pt.memory.free;
    pt.FreeUserPages(oldSize, newSize, leaf1);
    leaf' := Without(leaf1, RoundUp(oldSize), RoundUp(newSize));
    AllocUndone(r, pt.root, tab, free, leaf1, pt.Phys(), pt.tab, pt.memory.free, RoundUp(oldSize), RoundUp(newSize),
                held, all);
  }

  /** Page numbers `lo ..< v` have been mapped, with just the tables and the pages that takes; no other
      page number is mapped differently. */
  ghost predicate Grown(mem0: seq<Page>, tab0: Tab, free0: seq<nat>, mem: seq<Page>, tab: Tab, free: seq<nat>, lo: nat,
                        v: nat, need: seq<nat>)
  {
    && lo <= v < lo + |need| && Served(tab0, tab, lo, v) && |free| + need[v - lo] == |free0|
    && OthersSame(mem0, tab0, mem, tab, lo, v)
  }

  lemma GrownMore(mem0: seq<Page>, tab0: Tab, free0: seq<nat>, mem: seq<Page>, tab: Tab, free: seq<nat>, lo: nat,
                  v: nat, hi: nat, mem': seq<Page>, tab': Tab, free': seq<nat>, res: AllocResult, need: seq<nat>)
    requires lo <= v < hi && need == Needs(tab0, lo, hi) && Grown(mem0, tab0, free0, mem, tab, free, lo, v, need)
    requires Round(tab, free, tab', free', v, res) && !res.TooLarge? && OthersSame(mem, tab, mem', tab', v, v + 1)
    ensures OthersSame(mem0, tab0, mem', tab', lo, v + 1)
    ensures res.Size? ==> Grown(mem0, tab0, free0, mem', tab', free', lo, v + 1, need)
    ensures !res.Size? ==> DecidedBy(need, |free0|, v - lo, res)
  {
    NeedOnPath(tab0, lo, v, hi, tab);
    if res.Size? {
      ServedMore(tab0, lo, v, tab, tab');
    } else {
      NeedsRise(tab0, lo, hi);
      DecidedAt(need, |free0|, v - lo, res);
    }
  }

  /** After giving up, the mappings are as before exactly when the range had none. */
  lemma SameIff(mem: seq<Page>, tab: Tab, mem1: seq<Page>, tab1: Tab, mem': seq<Page>, tab': Tab, leaf: map<nat, nat>,
                lo: nat, v: nat, hi: nat)
    requires Leaves(mem, tab, leaf) && Leaves(mem', tab', Without(leaf, lo, hi)) && v <= hi <= USER_VPNS
    requires OthersSame(mem, tab, mem1, tab1, lo, v) && OthersSame(mem1, tab1, mem', tab', lo, hi)
    ensures OthersSame(mem, tab, mem', tab', lo, hi)
    ensures SameLookups(mem, tab, mem', tab') <==> forall w :: lo <= w < hi ==> w !in leaf
  {
    forall w | 0 <= w < VPNS && !(lo <= w < hi) ensures Lookup(mem', tab', w) == Lookup(mem, tab, w) {
      assert Lookup(mem1, tab1, w) == Lookup(mem, tab, w);
    }
    forall w | lo <= w < hi
      ensures Lookup(mem', tab', w).None? && (Lookup(mem, tab, w).None? <==> w !in leaf)
    {
      assert w !in Without(leaf, lo, hi);
    }
  }

  /** What was there when the loop began. */
  datatype Start = Start(mem: seq<Page>, tab: Tab, free: seq<nat>, leaf: map<nat, nat>, all: seq<nat>, lo: nat, hi: nat,
                         flags: nat, need: seq<nat>)

  /** The loop has reached page number `v`. */
  ghost predicate Reached(s: Start, r: Ram, root: nat, tab: Tab, free: seq<nat>, leaf: map<nat, nat>, v: nat) {
    && Owned(r, root, tab, free, leaf) && s.lo <= v && Extends(s.leaf, leaf, s.lo, v) && Agrees(s.leaf, leaf, s.lo, v)
    && MadeOf(s.all, PagesAt(s.leaf, s.lo, v) + free, tab, leaf) && Astray(PagesAt(s.leaf, s.lo, v), free, tab, leaf)
    && Cleared(r.mem, tab, leaf, s.lo, v, s.flags)
    && Grown(s.mem, s.tab, s.free, r.mem, tab, free, s.lo, v, s.need)
  }

  /** The loop has stopped at page number `v`. */
  ghost predicate Stopped(s: Start, r: Ram, root: nat, tab: Tab, free: seq<nat>, leaf: map<nat, nat>, v: nat,
                          res: AllocResult) {
    && Owned(r, root, tab, free, leaf) && s.lo <= v < s.hi && Extends(s.leaf, leaf, s.lo, v)
    && Agrees(s.leaf, leaf, s.lo, v) && free == []
    && MadeOf(s.all, PagesAt(s.leaf, s.lo, v) + Held(res) + free, tab, leaf)
    && Astray(PagesAt(s.leaf, s.lo, v) + Held(res), free, tab, leaf)
    && OthersSame(s.mem, s.tab, r.mem, tab, s.lo, v + 1) && DecidedBy(s.need, |s.free|, v - s.lo, res)
  }

  /** A round of the loop. */
  method AddNext(pt: PageTable, v: nat, flags: nat, ghost s: Start, ghost leaf: map<nat, nat>)
    returns (res: AllocResult, ghost leaf': map<nat, nat>)
    requires Reached(s, pt.Phys(), pt.root, pt.tab, pt.memory.free, leaf, v)
    requires v < s.hi <= USER_VPNS && IsFlags(flags) && flags == s.flags && s.need == Needs(s.tab, s.lo, s.hi)
    modifies pt, pt.memory
    ensures !res.TooLarge?
    ensures res.Size? ==> Reached(s, pt.Phys(), pt.root, pt.tab, pt.memory.free, leaf', v + 1)
    ensures !res.Size? ==> Stopped(s, pt.Phys(), pt.root, pt.tab, pt.memory.free, leaf', v, res)
  {
    ghost var r, tab, free := pt.Phys(), pt.tab, pt.memory.free;
    res, leaf' := AddPage(pt, v, flags, leaf, s.all, s.lo, PagesAt(s.leaf, s.lo, v));
    NextReached(s, r, pt.root, tab, free, leaf, pt.Phys(), pt.tab, pt.memory.free, leaf', v, res);
  }

  /** What a round does, seen from the beginning of the loop. */
  lemma NextReached(s: Start, r: Ram, root: nat, tab: Tab, free: seq<nat>, leaf: map<nat, nat>, r': Ram, tab': Tab,
                    free': seq<nat>, leaf': map<nat, nat>, v: nat, res: AllocResult)
    requires Reached(s, r, root, tab, free, leaf, v) && v < s.hi && s.need == Needs(s.tab, s.lo, s.hi)
    requires Owned(r', root, tab', free', leaf') && !res.TooLarge?
    requires res.Size? ==> Extends(leaf, leaf', v, v + 1) && Agrees(leaf, leaf', v, v + 1)
    requires res.Size? ==> Cleared(r'.mem, tab', leaf', s.lo, v + 1, s.flags)
    requires !res.Size? ==> leaf' == leaf && free' == []
    requires MadeOf(s.all, PagesAt(s.leaf, s.lo, v) + Gone(leaf, v, res) + free', tab', leaf')
    requires Astray(PagesAt(s.leaf, s.lo, v) + Gone(leaf, v, res), free', tab', leaf')
    requires OthersSame(r.mem, tab, r'.mem, tab', v, v + 1) && Round(tab, free, tab', free', v, res)
    ensures res.Size? ==> Reached(s, r', root, tab', free', leaf', v + 1)
    ensures !res.Size? ==> Stopped(s, r', root, tab', free', leaf', v, res)
  {
    assert PageAt(leaf, v) == PageAt(s.leaf, v);
    GrownMore(s.mem, s.tab, s.free, r.mem, tab, free, s.lo, v, s.hi, r'.mem, tab', free', res, s.need);
  }

  lemma NothingYet(s: Start, r: Ram, root: nat)
    requires Owned(r, root, s.tab, s.free, s.leaf) && MadeOf(s.all, s.free, s.tab, s.leaf) && s.mem == r.mem
    requires s.lo <= s.hi && s.need == Needs(s.tab, s.lo, s.hi)
    ensures Reached(s, r, root, s.tab, s.free, s.leaf, s.lo)
  {
    if s.lo < s.hi { NeedsAt(s.tab, s.lo, s.hi, s.lo); }
    assert [] + s.free == s.free;
  }

  /** The loop of `alloc_user`, to its end or to the round that fails. */
  method AddPages(pt: PageTable, lo: nat, hi: nat, flags: nat, ghost s: Start)
    returns (res: AllocResult, ghost leaf': map<nat, nat>, ghost v: nat)
    requires lo == s.lo <= hi == s.hi <= USER_VPNS && IsFlags(flags) && flags == s.flags
    requires s.need == Needs(s.tab, lo, hi) && Reached(s, pt.Phys(), pt.root, pt.tab, pt.memory.free, s.leaf, lo)
    modifies pt, pt.memory
    ensures !res.TooLarge?
    ensures res.Size? ==> Reached(s, pt.Phys(), pt.root, pt.tab, pt.memory.free, leaf', hi)
    ensures !res.Size? ==> Stopped(s, pt.Phys(), pt.root, pt.tab, pt.memory.free, leaf', v, res)
  {
    leaf', v := s.leaf, lo;
    for w := lo to hi
      invariant Reached(s, pt.Phys(), pt.root, pt.tab, pt.memory.free, leaf', w)
    {
      v := w;
      res, leaf' := AddNext(pt, w, flags, s, leaf');
      if !res.Size? { return; }
    }
    res := Size(hi);
  }

  /** `alloc_user`: on success exactly the page numbers between the rounded sizes are mapped, each to a
      cleared page of its own. On failure none of them is, those mapped before included, so the
      mappings are as before exactly when the range had none. Pages are conserved except the page
      whose mapping failed and those mapped over: they are lost. */
  method AllocUser(pt: PageTable, oldSize: nat, newSize: nat, flags: nat, ghost leaf: map<nat, nat>,
                   ghost all: seq<nat>)
    returns (res: AllocResult, ghost leaf': map<nat, nat>, ghost stop: nat)
    requires pt.Owns(leaf) && IsFlags(flags) && MadeOf(all, pt.memory.free, pt.tab, leaf)
    modifies pt, pt.memory
    ensures res.TooLarge? <==> newSize > USER_VPNS * PAGE_SIZE
    ensures res.Size? ==> res.n == if newSize <= oldSize then oldSize else newSize
    ensures res.TooLarge? || newSize <= oldSize ==>
              pt.Phys() == old(pt.Phys()) && pt.tab == old(pt.tab) && leaf' == leaf && stop == RoundUp(oldSize)
    ensures pt.Owns(leaf') && (newSize <= oldSize ==> res.Size? || res.TooLarge?)
    ensures var lost := PagesAt(leaf, RoundUp(oldSize), stop) + Held(res);
            MadeOf(all, lost + pt.memory.free, pt.tab, leaf') && Astray(lost, pt.memory.free, pt.tab, leaf')
    ensures oldSize < newSize && !res.TooLarge? ==>
              Allocated(old(pt.memory.mem), old(pt.tab), old(pt.memory.free), leaf, pt.memory.mem, pt.tab,
                        pt.memory.free, leaf', RoundUp(oldSize), RoundUp(newSize), WithUser(flags), stop, res)
    ensures oldSize < newSize && res.Size? ==>
              Granted(pt.memory.mem, pt.tab, RoundUp(oldSize), RoundUp(newSize), flags)
  {
    leaf', stop := leaf, RoundUp(oldSize);
    assert [] + [] + pt.memory.free == pt.memory.free;
    if newSize > USER_VPNS * PAGE_SIZE { return TooLarge, leaf, stop; }
    if newSize <= oldSize { return Size(oldSize), leaf, stop; }
    WithUserFlags(flags);
    ghost var s := Start(pt.memory.mem, pt.tab, pt.memory.free, leaf, all, RoundUp(oldSize), RoundUp(newSize),
                         WithUser(flags), Needs(pt.tab, RoundUp(oldSize), RoundUp(newSize)));
    NothingYet(s, pt.Phys(), pt.root);
    res, leaf', stop := AddPages(pt, RoundUp(oldSize), RoundUp(newSize), WithUser(flags), s);
    if res.Size? {
      res, stop := Size(newSize), s.hi;
      AllAllocated(s, pt.Phys(), pt.root, pt.tab, pt.memory.free, leaf', res);
      ClearedGranted(pt.memory.mem, pt.tab, leaf', s.lo, s.hi, flags);
    } else {
      ghost var r1, tab1, free1, leaf1 := pt.Phys(), pt.tab, pt.memory.free, leaf';
      leaf' := GiveUp(pt, oldSize, newSize, leaf1, PagesAt(leaf, s.lo, stop) + Held(res), all);
      NoneAllocated(s, r1, pt.root, tab1, free1, leaf1, pt.Phys(), pt.tab, pt.memory.free, leaf', stop, res);
    }
  }

  lemma AllAllocated(s: Start, r: Ram, root: nat, tab: Tab, free: seq<nat>, leaf: map<nat, nat>, res: AllocResult)
    requires s.lo <= s.hi && Reached(s, r, root, tab, free, leaf, s.hi) && res.Size?
    requires s.need == Needs(s.tab, s.lo, s.hi)
    ensures Allocated(s.mem, s.tab, s.free, s.leaf, r.mem, tab, free, leaf, s.lo, s.hi, s.flags, s.hi, res)
    ensures PagesAt(s.leaf, s.lo, s.hi) + Held(res) == PagesAt(s.leaf, s.lo, s.hi)
  {
    NeedsRise(s.tab, s.lo, s.hi);
    DecidedAll(s.need, |s.free|, res);
  }

  lemma NoneAllocated(s: Start, r1: Ram, root: nat, tab1: Tab, free1: seq<nat>, leaf1: map<nat, nat>, r: Ram, tab: Tab,
                      free: seq<nat>, leaf: map<nat, nat>, stop: nat, res: AllocResult)
    requires s.lo <= s.hi <= USER_VPNS && Stopped(s, r1, root, tab1, free1, leaf1, stop, res) && !res.Size?
    requires s.need == Needs(s.tab, s.lo, s.hi) && Leaves(s.mem, s.tab, s.leaf)
    requires leaf == Without(leaf1, s.lo, s.hi) && Owned(r, root, tab, free, leaf)
    requires OthersSame(r1.mem, tab1, r.mem, tab, s.lo, s.hi)
    ensures Allocated(s.mem, s.tab, s.free, s.leaf, r.mem, tab, free, leaf, s.lo, s.hi, s.flags, stop, res)
  {
    WithoutExtends(s.leaf, leaf1, s.lo, stop, s.hi);
    SameIff(s.mem, s.tab, r1.mem, tab1, r.mem, tab, s.leaf, s.lo, stop + 1, s.hi);
  }

  /** The effect on the range `lo ..< hi`, and how the free pages decide it. */
  ghost predicate Allocated(mem: seq<Page>, tab: Tab, free: seq<nat>, leaf: map<nat, nat>, mem': seq<Page>, tab': Tab,
                            free': seq<nat>, leaf': map<nat, nat>, lo: nat, hi: nat, flags: nat, stop: nat,
                            res: AllocResult)
    requires lo <= hi
  {
    var need := Needs(tab, lo, hi);
    && Decided(need, |free|, res) && OthersSame(mem, tab, mem', tab', lo, hi)
    && (res.Size? ==> stop == hi && |free'| + need[hi - lo] == |free| && Cleared(mem', tab', leaf', lo, hi, flags))
    && (res.Size? ==> Extends(leaf, leaf', lo, hi) && Agrees(leaf, leaf', lo, hi))
    && (!res.Size? ==> lo <= stop && DecidedBy(need, |free|, stop - lo, res) && leaf' == Without(leaf, lo, hi))
    && (!res.Size? ==> (SameLookups(mem, tab, mem', tab') <==> forall v :: lo <= v < hi ==> v !in leaf))
  }

  /** An address space without user tables. */
  lemma BareSpace(r: Ram, free: seq<nat>)
    requires FreeListed(r.mem, r.head, free) && 0 < |r.mem| <= MAXPAGES && r.mem[0] == ZERO_PAGE && 0 !in free
    ensures Owned(r, 0, map[(4, 0) := 0], free, map[])
  {
    var tab: Tab := map[(4, 0) := 0];
    forall i | 0 <= i < ENTRIES ensures Linked(r.mem, tab, 4, 0, i) {
    }
    assert Tables(r.mem, 0, tab) && Apart(free, tab);
  }

  lemma BareAccount(tab: Tab)
    requires tab == map[(4, 0) := 0]
    ensures MadeOf([0, 1], [1], tab, map[]) && Needs(tab, 0, 1) == [0, 4] && OutWithin([0, 4], 1, 0)
  {
    assert (4, 0) in tab && !KernKey(4, 0) && tab[(4, 0)] == 0;
    forall q | Entry(q) ensures q in [0, 1] <==> q in [1] || SpacePage(tab, map[], q) {
      assert UserTable(tab, q) <==> q == 0;
    }
  }

  lemma LostIsOne(tab: Tab, free: seq<nat>, leaf: map<nat, nat>, lost: seq<nat>, res: AllocResult)
    requires res.NoTable? && (4, 0) in tab && tab[(4, 0)] == 0 && lost == Held(res)
    requires Astray(lost, free, tab, leaf) && MadeOf([0, 1], lost + free, tab, leaf)
    ensures res == NoTable(1)
  {
    assert res.lost in lost;
    assert Entry(res.lost);
  }

  /** With one free page and no user table, growing an empty program by one byte loses that page: it
      is taken for the program, and there is none for the three tables that would map it. */
  method LosesAPage() returns (res: AllocResult)
    ensures res == NoTable(1)
  {
    var memory := new Memory([ZERO_PAGE, ZERO_PAGE]);
    memory.Free(1);
    ghost var tab: Tab := map[(4, 0) := 0];
    var pt := new PageTable(memory, 0, tab);
    assert memory.free == [1];
    BareSpace(pt.Phys(), [1]);
    BareAccount(tab);
    ghost var leaf', stop;
    res, leaf', stop := AllocUser(pt, 0, 1, 0, map[], [0, 1]);
    assert PagesAt(map[], 0, stop) + Held(res) == Held(res) by { NoPagesAt(map[], 0, stop); }
    LostIsOne(pt.tab, pt.memory.free, leaf', PagesAt(map[], 0, stop) + Held(res), res);
  }
}
