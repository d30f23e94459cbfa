/** Four-level page tables in physical memory and the map from page numbers to entries they stand
    for (kernel/src/vm.rs:86-169, 276-293; section 4.5 of the Intel SDM, volume 3A).
    A virtual page number has 36 bits. The table at level `l` that serves page number `v` is named
    by `(l, Pre(l, v))`; `tab` gives the physical page of every table, so that one flat map holds
    the whole tree. */
module PageTree {
  import opened Options
  import opened PhysMem

  type Tab = map<(nat, nat), nat>

  const VPNS: nat := 0x10_0000_0000         // 512^4
  const USER_VPNS: nat := 0x8_0000_0000     // USEREND / PAGE_SIZE

  /** Prefix of page number `v` that names its level-`l` table. */
  function Pre(l: nat, v: nat): nat {
    if l == 0 then v
    else if l == 1 then v / 512
    else if l == 2 then v / 512 / 512
    else if l == 3 then v / 512 / 512 / 512
    else v / 512 / 512 / 512 / 512
  }

  /** `Node::index` in units of pages. */
  function Index(l: nat, v: nat): (i: nat)
    requires 1 <= l <= 4
    ensures i < ENTRIES
  {
    Pre(l - 1, v) % 512
  }

  /** The index is nine bits of the address: from bit 12 on at level 1, bit 39 on at level 4. */
  lemma IndexBits(va: nat)
    ensures Index(1, va / PAGE_SIZE) == va / 0x1000 % 512 && Index(2, va / PAGE_SIZE) == va / 0x20_0000 % 512
    ensures Index(3, va / PAGE_SIZE) == va / 0x4000_0000 % 512 && Index(4, va / PAGE_SIZE) == va / 0x80_0000_0000 % 512
  {
  }

  predicate IsKey(l: nat, p: nat) {
    && 1 <= l <= 4
    && p < (if l == 4 then 1 else if l == 3 then 512 else if l == 2 then 0x4_0000 else 0x800_0000)
  }

  ghost predicate HasParent(tab: Tab, l: nat, p: nat) {
    l == 4 || (l + 1, p / 512) in tab
  }

  /** Entry `i` of table `(l, p)` points to the table below it if there is one, closed to nobody, and is
      zero otherwise. */
  ghost predicate Linked(mem: seq<Page>, tab: Tab, l: nat, p: nat, i: nat)
    requires (l, p) in tab && tab[(l, p)] < |mem| && i < ENTRIES && 1 <= l
  {
    var e := mem[tab[(l, p)]][i];
    if l == 1 then Present(e) || e == 0
    else
      var c := (l - 1, p * 512 + i);
      if c in tab then Opens(e) && Frame(e) == tab[c] else e == 0
  }

  /** Names two keys that are to be told apart. */
  ghost predicate Versus(l: int, p: int, m: int, q: int) { true }

  /** No page serves as two tables. */
  ghost predicate Injective(tab: Tab) {
    forall l, p, m, q {:trigger Versus(l, p, m, q)} :: Versus(l, p, m, q) ==>
      (l, p) in tab && (m, q) in tab && tab[(l, p)] == tab[(m, q)] ==> l == m && p == q
  }

  lemma TellApart(tab: Tab, l: nat, p: nat, m: nat, q: nat)
    requires Injective(tab) && (l, p) in tab && (m, q) in tab && (l != m || p != q)
    ensures tab[(l, p)] != tab[(m, q)]
  {
    assert Versus(l, p, m, q);
  }

  /** `mem` holds, from `root` on, exactly the tables named by `tab`, as a tree. */
  ghost predicate Tables(mem: seq<Page>, root: nat, tab: Tab) {
    && |mem| <= MAXPAGES
    && (4, 0) in tab && tab[(4, 0)] == root
    && (forall l, p :: (l, p) in tab ==> IsKey(l, p) && tab[(l, p)] < |mem|)
    && Injective(tab)
    && (forall l, p {:trigger HasParent(tab, l, p)} :: (l, p) in tab ==> HasParent(tab, l, p))
    && (forall l, p, i {:trigger Linked(mem, tab, l, p, i)} ::
          (l, p) in tab && 0 <= i < ENTRIES ==> Linked(mem, tab, l, p, i))
  }

  ghost predicate NotTable(tab: Tab, q: nat) {
    forall l, p {:trigger tab[(l, p)]} :: (l, p) in tab ==> tab[(l, p)] != q
  }

  ghost predicate IsTable(tab: Tab, q: nat) {
    exists l, p :: (l, p) in tab && tab[(l, p)] == q
  }

  /** No free page is a table. */
  ghost predicate Apart(free: seq<nat>, tab: Tab) {
    forall i, l, p {:trigger Versus(0, i, l, p)} :: Versus(0, i, l, p) ==>
      0 <= i < |free| && (l, p) in tab ==> free[i] != tab[(l, p)]
  }

  lemma TableNotFree(free: seq<nat>, tab: Tab, l: nat, p: nat)
    requires Apart(free, tab) && (l, p) in tab
    ensures tab[(l, p)] !in free
  {
    forall i | 0 <= i < |free| ensures free[i] != tab[(l, p)] { assert Versus(0, i, l, p); }
  }

  lemma FreeNotTable(free: seq<nat>, tab: Tab, q: nat)
    requires Apart(free, tab) && q in free
    ensures NotTable(tab, q)
  {
    var i :| 0 <= i < |free| && free[i] == q;
    forall l, p | (l, p) in tab ensures tab[(l, p)] != q { assert Versus(0, i, l, p); }
  }

  /** The abstract map: the present leaf entry of page number `v`. */
  ghost function Lookup(mem: seq<Page>, tab: Tab, v: nat): Option<nat> {
    if (1, v / 512) in tab && tab[(1, v / 512)] < |mem| && Present(mem[tab[(1, v / 512)]][v % 512])
    then Some(mem[tab[(1, v / 512)]][v % 512])
    else None
  }

  ghost predicate SameLookups(mem: seq<Page>, tab: Tab, mem': seq<Page>, tab': Tab) {
    forall v {:trigger Lookup(mem', tab', v)} :: 0 <= v < VPNS ==> Lookup(mem', tab', v) == Lookup(mem, tab, v)
  }

  /** `next`: the table an entry points to. */
  function Next(mem: seq<Page>, t: nat, i: nat): Option<nat>
    requires i < ENTRIES
  {
    if t < |mem| && Present(mem[t][i]) then Some(Frame(mem[t][i])) else None
  }

  /** `entry_for`: walk the tables as the hardware does. */
  function EntryFor(mem: seq<Page>, root: nat, v: nat): Option<nat> {
    match Next(mem, root, Index(4, v))
    case None => None
    case Some(p3) =>
      match Next(mem, p3, Index(3, v))
      case None => None
      case Some(p2) =>
        match Next(mem, p2, Index(2, v))
        case None => None
        case Some(p1) =>
          if p1 < |mem| && Present(mem[p1][Index(1, v)]) then Some(mem[p1][Index(1, v)]) else None
  }

  /** `translate` of a virtual address. */
  function Translate(mem: seq<Page>, root: nat, va: nat): Option<nat> {
    match EntryFor(mem, root, va / PAGE_SIZE % VPNS)
    case None => None
    case Some(e) => Some(PhysPageAddr(e) + va % PAGE_SIZE)
  }

  lemma NextIs(mem: seq<Page>, root: nat, tab: Tab, l: nat, v: nat)
    requires Tables(mem, root, tab) && 2 <= l <= 4 && (l, Pre(l, v)) in tab && v < VPNS
    ensures Next(mem, tab[(l, Pre(l, v))], Index(l, v)) ==
            if (l - 1, Pre(l - 1, v)) in tab then Some(tab[(l - 1, Pre(l - 1, v))]) else None
  {
    var p, i := Pre(l, v), Index(l, v);
    assert Linked(mem, tab, l, p, i);
    assert p * 512 + i == Pre(l - 1, v);
  }

  /** The walk over memory computes the abstract map. */
  lemma WalkIsLookup(mem: seq<Page>, root: nat, tab: Tab, v: nat)
    requires Tables(mem, root, tab) && v < VPNS
    ensures EntryFor(mem, root, v) == Lookup(mem, tab, v)
  {
    assert Pre(4, v) == 0;
    NextIs(mem, root, tab, 4, v);
    if (1, Pre(1, v)) in tab {
      assert HasParent(tab, 1, Pre(1, v));
      assert HasParent(tab, 2, Pre(2, v));
    }
    if (2, Pre(2, v)) in tab {
      assert HasParent(tab, 2, Pre(2, v));
    }
    if (3, Pre(3, v)) in tab {
      NextIs(mem, root, tab, 3, v);
      if (2, Pre(2, v)) in tab {
        NextIs(mem, root, tab, 2, v);
      }
    }
  }

  /** Every table entry on the way to a mapped page lets user code through, so the entry of the page
      alone decides. */
  lemma WayIsOpen(mem: seq<Page>, root: nat, tab: Tab, v: nat, l: nat)
    requires Tables(mem, root, tab) && v < VPNS && Lookup(mem, tab, v).Some? && 2 <= l <= 4
    ensures (l, Pre(l, v)) in tab && Opens(mem[tab[(l, Pre(l, v))]][Index(l, v)])
  {
    assert HasParent(tab, 1, Pre(1, v)) && Pre(1, v) / 512 == Pre(2, v);
    assert HasParent(tab, 2, Pre(2, v)) && Pre(2, v) / 512 == Pre(3, v);
    assert HasParent(tab, 3, Pre(3, v)) && Pre(3, v) / 512 == Pre(4, v);
    assert Pre(l, v) * 512 + Index(l, v) == Pre(l - 1, v);
    assert Linked(mem, tab, l, Pre(l, v), Index(l, v));
  }

  // Elementary changes of the tree.

  /** A page that is no table can change without any effect. */
  lemma TablesFrame(mem: seq<Page>, root: nat, tab: Tab, q: nat, page: Page)
    requires Tables(mem, root, tab) && q < |mem| && NotTable(tab, q)
    ensures Tables(mem[q := page], root, tab) && SameLookups(mem, tab, mem[q := page], tab)
  {
    var mem' := mem[q := page];
    forall l, p, i | (l, p) in tab && 0 <= i < ENTRIES ensures Linked(mem', tab, l, p, i) {
      assert Linked(mem, tab, l, p, i);
    }
  }

  const TABLE_FLAGS: nat := 7   // PRESENT | USER | WRITE

  function SetEntry(mem: seq<Page>, t: nat, i: nat, e: nat): (r: seq<Page>)
    requires t < |mem| && i < ENTRIES
    ensures |r| == |mem|
  {
    mem[t := mem[t][i := e]]
  }

  /** No table hangs below a table that does not exist. */
  lemma NoOrphans(mem: seq<Page>, root: nat, tab: Tab, l: nat, p: nat, j: nat)
    requires Tables(mem, root, tab) && (l, p) !in tab && 1 <= l <= 3 && j < ENTRIES
    ensures l > 1 ==> (l - 1, p * 512 + j) !in tab
  {
    assert (p * 512 + j) / 512 == p;
    assert l > 1 ==> !HasParent(tab, l - 1, p * 512 + j);
  }

  lemma ChildKey(l: nat, p: nat, i: nat, m: nat, r: nat, j: nat)
    requires 2 <= l && 2 <= m && i < ENTRIES && j < ENTRIES
    ensures (m - 1, r * 512 + j) == (l - 1, p * 512 + i) <==> m == l && r == p && j == i
  {
  }

  lemma LinkedAfterAdd(mem: seq<Page>, root: nat, tab: Tab, l: nat, p: nat, i: nat, q: nat, e: nat, m: nat, r: nat,
                       j: nat)
    requires Tables(mem, root, tab) && (l, p) in tab && 2 <= l && i < ENTRIES
    requires (l - 1, p * 512 + i) !in tab && q < |mem| && NotTable(tab, q) && mem[q] == ZERO_PAGE
    requires Opens(e) && Frame(e) == q
    requires (m, r) in tab[(l - 1, p * 512 + i) := q] && j < ENTRIES
    ensures var mem' := SetEntry(mem, tab[(l, p)], i, e);
            tab[(l - 1, p * 512 + i) := q][(m, r)] < |mem'| && 1 <= m
            && Linked(mem', tab[(l - 1, p * 512 + i) := q], m, r, j)
  {
    var t, c := tab[(l, p)], (l - 1, p * 512 + i);
    if (m, r) != c {
      assert Versus(m, r, l, p);
      assert Linked(mem, tab, m, r, j);
      if m >= 2 { ChildKey(l, p, i, m, r, j); }
    } else {
      NoOrphans(mem, root, tab, l - 1, p * 512 + i, j);
    }
  }

  /** A fresh zeroed page becomes the missing table below entry `i` of `(l, p)`. */
  lemma TablesAdd(mem: seq<Page>, root: nat, tab: Tab, l: nat, p: nat, i: nat, q: nat)
    requires Tables(mem, root, tab) && (l, p) in tab && 2 <= l && i < ENTRIES
    requires (l - 1, p * 512 + i) !in tab && q < |mem| && NotTable(tab, q) && mem[q] == ZERO_PAGE
    ensures var mem' := SetEntry(mem, tab[(l, p)], i, NewEntry(q * PAGE_SIZE, TABLE_FLAGS));
            var tab' := tab[(l - 1, p * 512 + i) := q];
            Tables(mem', root, tab') && SameLookups(mem, tab, mem', tab')
  {
    var e := NewEntry(q * PAGE_SIZE, TABLE_FLAGS);
    EntryRoundTrip(q * PAGE_SIZE, TABLE_FLAGS);
    OpensFlags(e);
    var t, c := tab[(l, p)], (l - 1, p * 512 + i);
    var mem', tab' := SetEntry(mem, t, i, e), tab[c := q];
    forall m, r, j | (m, r) in tab' && 0 <= j < ENTRIES ensures Linked(mem', tab', m, r, j) {
      LinkedAfterAdd(mem, root, tab, l, p, i, q, e, m, r, j);
    }
    forall m, r | (m, r) in tab' ensures HasParent(tab', m, r) {
      if (m, r) != c { assert HasParent(tab, m, r); }
    }
    LookupsAfterAdd(mem, root, tab, l, p, i, q, e);
  }

  lemma LookupsAfterAdd(mem: seq<Page>, root: nat, tab: Tab, l: nat, p: nat, i: nat, q: nat, e: nat)
    requires Tables(mem, root, tab) && (l, p) in tab && 2 <= l && i < ENTRIES
    requires (l - 1, p * 512 + i) !in tab && q < |mem| && NotTable(tab, q) && mem[q] == ZERO_PAGE
    ensures SameLookups(mem, tab, SetEntry(mem, tab[(l, p)], i, e), tab[(l - 1, p * 512 + i) := q])
  {
    var t := tab[(l, p)];
    forall v | 0 <= v < VPNS
      ensures Lookup(SetEntry(mem, t, i, e), tab[(l - 1, p * 512 + i) := q], v) == Lookup(mem, tab, v)
    {
      if (1, v / 512) in tab { TellApart(tab, 1, v / 512, l, p); }
    }
  }

  /** A leaf entry is written: one page number changes its mapping. */
  lemma TablesSetLeaf(mem: seq<Page>, root: nat, tab: Tab, v: nat, e: nat)
    requires Tables(mem, root, tab) && v < VPNS && (1, v / 512) in tab && (Present(e) || e == 0)
    ensures var mem' := SetEntry(mem, tab[(1, v / 512)], v % 512, e);
            && Tables(mem', root, tab)
            && Lookup(mem', tab, v) == (if e == 0 then None else Some(e))
            && forall w {:trigger Lookup(mem', tab, w)} :: 0 <= w < VPNS && w != v ==>
                 Lookup(mem', tab, w) == Lookup(mem, tab, w)
  {
    var t := tab[(1, v / 512)];
    var mem' := SetEntry(mem, t, v % 512, e);
    forall l, p, i | (l, p) in tab && 0 <= i < ENTRIES ensures Linked(mem', tab, l, p, i) {
      assert Linked(mem, tab, l, p, i);
      assert Versus(l, p, 1, v / 512);
    }
    forall w | 0 <= w < VPNS && w != v ensures Lookup(mem', tab, w) == Lookup(mem, tab, w) {
      assert Versus(1, w / 512, 1, v / 512);
      if w / 512 == v / 512 { assert w % 512 != v % 512; }
    }
  }

  ghost predicate EmptyTable(mem: seq<Page>, t: nat) {
    t < |mem| && forall i :: 0 <= i < ENTRIES ==> mem[t][i] == 0
  }

  lemma LinkedAfterRemove(mem: seq<Page>, root: nat, tab: Tab, l: nat, p: nat, i: nat, m: nat, r: nat, j: nat)
    requires Tables(mem, root, tab) && (l, p) in tab && 2 <= l && i < ENTRIES
    requires (l - 1, p * 512 + i) in tab
    requires (m, r) in tab - {(l - 1, p * 512 + i)} && j < ENTRIES
    ensures 1 <= m && Linked(SetEntry(mem, tab[(l, p)], i, 0), tab - {(l - 1, p * 512 + i)}, m, r, j)
  {
    assert Linked(mem, tab, m, r, j);
    assert Versus(m, r, l, p);
    if m >= 2 { ChildKey(l, p, i, m, r, j); }
  }

  lemma EmptyHasNoChild(mem: seq<Page>, root: nat, tab: Tab, l: nat, p: nat, j: nat)
    requires Tables(mem, root, tab) && (l, p) in tab && EmptyTable(mem, tab[(l, p)]) && j < ENTRIES
    ensures l > 1 ==> (l - 1, p * 512 + j) !in tab
  {
    assert Linked(mem, tab, l, p, j);
    assert !Present(mem[tab[(l, p)]][j]);
  }

  lemma ParentAfterRemove(mem: seq<Page>, root: nat, tab: Tab, l: nat, p: nat, m: nat, r: nat)
    requires Tables(mem, root, tab) && (l, p) in tab && EmptyTable(mem, tab[(l, p)]) && (m, r) in tab - {(l, p)}
    ensures HasParent(tab - {(l, p)}, m, r)
  {
    assert HasParent(tab, m, r);
    EmptyHasNoChild(mem, root, tab, l, p, r % 512);
    assert r == r / 512 * 512 + r % 512;
  }

  /** An empty table is unlinked: no mapping changes. */
  lemma TablesRemove(mem: seq<Page>, root: nat, tab: Tab, l: nat, p: nat, i: nat)
    requires Tables(mem, root, tab) && (l, p) in tab && 2 <= l && i < ENTRIES
    requires (l - 1, p * 512 + i) in tab && EmptyTable(mem, tab[(l - 1, p * 512 + i)])
    ensures var mem' := SetEntry(mem, tab[(l, p)], i, 0);
            var tab' := tab - {(l - 1, p * 512 + i)};
            Tables(mem', root, tab') && SameLookups(mem, tab, mem', tab')
  {
    var t, c := tab[(l, p)], (l - 1, p * 512 + i);
    var mem', tab' := SetEntry(mem, t, i, 0), tab - {c};
    forall m, r, j | (m, r) in tab' && 0 <= j < ENTRIES ensures Linked(mem', tab', m, r, j) {
      LinkedAfterRemove(mem, root, tab, l, p, i, m, r, j);
    }
    forall m, r | (m, r) in tab' ensures HasParent(tab', m, r) {
      ParentAfterRemove(mem, root, tab, l - 1, p * 512 + i, m, r);
    }
    forall v | 0 <= v < VPNS ensures Lookup(mem', tab', v) == Lookup(mem, tab, v) {
      if (1, v / 512) in tab { TellApart(tab, 1, v / 512, l, p); }
    }
  }
}
