/** `dup_kern`, `dup` and the freeing of whole address spaces (kernel/src/vm.rs:325-360, 567-577). */
module PageDup {
  import opened Options
  import opened PhysMem
  import opened PageTree
  import opened PageFree
  import opened PageTables

  /** A table below the upper half of the root: shared by all address spaces. */
  ghost predicate KernKey(l: nat, p: nat) {
    1 <= l <= 3 && Pre(3 - l, p) >= 256
  }

  lemma KernChild(l: nat, p: nat, i: nat)
    requires 2 <= l <= 3 && i < ENTRIES
    ensures KernKey(l - 1, p * 512 + i) <==> KernKey(l, p)
  {
    assert (p * 512 + i) / 512 == p;
  }

  lemma KernParent(l: nat, p: nat)
    requires 1 <= l <= 2
    ensures KernKey(l + 1, p / 512) <==> KernKey(l, p)
  {
  }

  lemma KernVpn(v: nat)
    requires v < VPNS
    ensures KernKey(1, v / 512) <==> v >= USER_VPNS
  {
  }

  /** Tables that are untouched keep everything. */
  lemma TablesSame(mem: seq<Page>, mem': seq<Page>, root: nat, tab: Tab)
    requires Tables(mem, root, tab) && |mem'| == |mem|
    requires forall l, p :: (l, p) in tab ==> mem'[tab[(l, p)]] == mem[tab[(l, p)]]
    ensures Tables(mem', root, tab) && SameLookups(mem, tab, mem', tab)
  {
    forall l, p, i | (l, p) in tab && 0 <= i < ENTRIES ensures Linked(mem', tab, l, p, i) {
      assert Linked(mem, tab, l, p, i);
    }
  }

  // dup_kern.

  function KernelHalf(page: Page): Page {
    seq(256, i => 0) + page[256..]
  }

  ghost function KernelTab(tab: Tab, q: nat): Tab {
    (map k | k in tab && KernKey(k.0, k.1) :: tab[k])[(4, 0) := q]
  }

  lemma KernelTabLinked(mem: seq<Page>, root: nat, tab: Tab, q: nat, mem': seq<Page>, l: nat, p: nat, i: nat)
    requires Tables(mem, root, tab) && q < |mem| && NotTable(tab, q) && mem' == mem[q := KernelHalf(mem[root])]
    requires (l, p) in KernelTab(tab, q) && i < ENTRIES
    ensures Linked(mem', KernelTab(tab, q), l, p, i)
  {
    assert Linked(mem, tab, l, p, i);
    if l == 4 {
      assert KernKey(3, i) <==> i >= 256;
    } else if l >= 2 {
      KernChild(l, p, i);
    }
  }

  lemma KernelTabTree(mem: seq<Page>, root: nat, tab: Tab, q: nat)
    requires Tables(mem, root, tab) && q < |mem| && NotTable(tab, q)
    ensures Injective(KernelTab(tab, q))
    ensures forall l, p {:trigger HasParent(KernelTab(tab, q), l, p)} ::
              (l, p) in KernelTab(tab, q) ==> HasParent(KernelTab(tab, q), l, p)
  {
    var ctab := KernelTab(tab, q);
    forall l, p | (l, p) in ctab ensures HasParent(ctab, l, p) {
      if l < 4 { assert HasParent(tab, l, p); }
      if l < 3 { KernParent(l, p); }
    }
    forall l, p, m, r | (l, p) in ctab && (m, r) in ctab && ctab[(l, p)] == ctab[(m, r)] ensures l == m && p == r {
      assert Versus(l, p, m, r);
    }
  }

  /** A fresh root with the upper half copied serves exactly the kernel's page numbers. */
  lemma DupKernTables(mem: seq<Page>, root: nat, tab: Tab, q: nat)
    requires Tables(mem, root, tab) && q < |mem| && NotTable(tab, q)
    ensures var mem', ctab := mem[q := KernelHalf(mem[root])], KernelTab(tab, q);
            && Tables(mem', q, ctab)
            && forall v {:trigger Lookup(mem', ctab, v)} :: 0 <= v < VPNS ==>
                 Lookup(mem', ctab, v) == if v < USER_VPNS then None else Lookup(mem, tab, v)
  {
    var mem', ctab := mem[q := KernelHalf(mem[root])], KernelTab(tab, q);
    forall l, p, i | (l, p) in ctab && 0 <= i < ENTRIES ensures Linked(mem', ctab, l, p, i) {
      KernelTabLinked(mem, root, tab, q, mem', l, p, i);
    }
    KernelTabTree(mem, root, tab, q);
    forall v | 0 <= v < VPNS ensures Lookup(mem', ctab, v) == if v < USER_VPNS then None else Lookup(mem, tab, v) {
      KernVpn(v);
    }
  }

  // An address space and the pages that are its own.

  ghost predicate UserTable(tab: Tab, q: nat) {
    exists l, p :: (l, p) in tab && !KernKey(l, p) && tab[(l, p)] == q
  }

  /** Page `q` is one of the space's own: a table outside the kernel half, or a mapped user page. */
  ghost predicate SpacePage(tab: Tab, leaf: map<nat, nat>, q: nat) {
    UserTable(tab, q) || MappedIn(leaf, 0, USER_VPNS, q)
  }

  /** The pages free at first are those free now together with the space's own. */
  ghost predicate MadeOf(free0: seq<nat>, free: seq<nat>, tab: Tab, leaf: map<nat, nat>) {
    forall q {:trigger Entry(q)} :: Entry(q) ==> (q in free0 <==> q in free || SpacePage(tab, leaf, q))
  }

  /** No page that was in use at first has changed. */
  ghost predicate Untouched(mem0: seq<Page>, mem: seq<Page>, free0: seq<nat>) {
    && |mem| == |mem0|
    && forall x {:trigger mem[x]} :: 0 <= x < |mem0| && x !in free0 ==> mem[x] == mem0[x]
  }

  ghost predicate SameKernel(mem0: seq<Page>, tab0: Tab, mem: seq<Page>, tab: Tab) {
    && (forall l: nat, p: nat {:trigger KernKey(l, p)} :: KernKey(l, p) ==>
          ((l, p) in tab <==> (l, p) in tab0) && ((l, p) in tab ==> tab[(l, p)] == tab0[(l, p)]))
    && (forall v {:trigger Lookup(mem, tab, v)} :: USER_VPNS <= v < VPNS ==>
          Lookup(mem, tab, v) == Lookup(mem0, tab0, v))
  }

  /** A space built from free pages next to an existing one that shares its kernel half. */
  ghost predicate Beside(mem0: seq<Page>, tab0: Tab, free0: seq<nat>, r: Ram, root: nat, tab: Tab, free: seq<nat>,
                         leaf: map<nat, nat>) {
    && Owned(r, root, tab, free, leaf)
    && Untouched(mem0, r.mem, free0)
    && MadeOf(free0, free, tab, leaf)
    && SameKernel(mem0, tab0, r.mem, tab)
  }

  /** Every page of the space has the contents and flags of the page of the same number in the
      original. */
  ghost predicate Copied(mem0: seq<Page>, tab0: Tab, leaf0: map<nat, nat>, mem: seq<Page>, tab: Tab,
                         leaf: map<nat, nat>) {
    forall v {:trigger leaf[v]} :: v in leaf ==>
      && v in leaf0 && leaf0[v] < |mem0| && leaf[v] < |mem|
      && mem[leaf[v]] == mem0[leaf0[v]]
      && Lookup(mem0, tab0, v).Some? && Lookup(mem, tab, v).Some?
      && Flags(Lookup(mem, tab, v).value) == Flags(Lookup(mem0, tab0, v).value)
  }

  // Steps of building it.

  lemma UserPathNotKern(l: nat, v: nat)
    requires 1 <= l <= 4 && v < USER_VPNS
    ensures !KernKey(l, Pre(l, v))
  {
    if l <= 3 {
      PrePre(3, l, v);
      PreMono(3, v, USER_VPNS - 1);
    }
  }

  /** A page taken from the free list and filled. */
  lemma TakeKeeps(r: Ram, root: nat, tab: Tab, free: seq<nat>, leaf: map<nat, nat>, page: Page, r1: Ram)
    requires Owned(r, root, tab, free, leaf) && free != []
    requires r1.mem == r.mem[free[0] := page] && FreeListed(r1.mem, r1.head, free[1..])
    ensures Owned(r1, root, tab, free[1..], leaf) && SameLookups(r.mem, tab, r1.mem, tab)
    ensures NotTable(tab, free[0]) && !MappedIn(leaf, 0, USER_VPNS, free[0]) && free[0] !in free[1..]
  {
    FirstOnce(free);
    FreeNotTable(free, tab, free[0]);
    TablesFrame(r.mem, root, tab, free[0], page);
    forall i, l, p | 0 <= i < |free[1..]| && (l, p) in tab ensures free[1..][i] != tab[(l, p)] {
      assert Versus(0, i + 1, l, p);
    }
    forall i, v | 0 <= i < |free[1..]| && v in leaf ensures free[1..][i] != leaf[v] { assert Versus(i + 1, 0, v, 0); }
    forall v | v in leaf ensures leaf[v] != free[0] { assert Versus(0, 0, v, 0); }
    assert forall v :: 0 <= v < USER_VPNS ==> Lookup(r1.mem, tab, v) == Lookup(r.mem, tab, v);
  }

  /** Tables were added for `v`; no mapping changed. */
  lemma GrewKeeps(r: Ram, root: nat, tab: Tab, free: seq<nat>, leaf: map<nat, nat>, r': Ram, tab': Tab, free': seq<nat>,
                  v: nat)
    requires Owned(r, root, tab, free, leaf) && Grew(tab, free, tab', free', v)
    requires FreeListed(r'.mem, r'.head, free') && Tables(r'.mem, root, tab') && |r'.mem| == |r.mem|
    requires forall w {:trigger Lookup(r'.mem, tab', w)} :: w in leaf ==>
               Lookup(r'.mem, tab', w) == Lookup(r.mem, tab, w)
    requires forall w {:trigger Lookup(r'.mem, tab', w)} :: 0 <= w < USER_VPNS && w !in leaf ==>
               Lookup(r'.mem, tab', w).None?
    ensures Owned(r', root, tab', free', leaf)
  {
    forall q | q in free' ensures q in free { assert Entry(q); }
    forall w, l, p | w in leaf && (l, p) in tab' ensures leaf[w] != tab'[(l, p)] {
      assert Versus(0, w, l, p);
      LeafNotFree(free, leaf, w);
    }
    forall w, x | w in leaf && x in leaf && leaf[w] == leaf[x] ensures w == x { assert Versus(0, w, 0, x); }
    forall i, w | 0 <= i < |free'| && w in leaf ensures free'[i] != leaf[w] {
      LeafNotFree(free, leaf, w);
      assert free'[i] in free;
    }
  }

  /** Page `q` was mapped at `v`. */
  lemma MapAdds(r: Ram, root: nat, tab: Tab, free: seq<nat>, leaf: map<nat, nat>, v: nat, q: nat)
    requires FreeListed(r.mem, r.head, free) && Tables(r.mem, root, tab) && Apart(free, tab) && Unmapped(free, leaf)
    requires v < USER_VPNS && v !in leaf && q < |r.mem| && q !in free && NotTable(tab, q) &&
             !MappedIn(leaf, 0, USER_VPNS, q)
    requires Lookup(r.mem, tab, v).Some? && Frame(Lookup(r.mem, tab, v).value) == q
    requires forall w {:trigger leaf[w]} :: w in leaf ==>
               w < USER_VPNS && Lookup(r.mem, tab, w).Some? && leaf[w] == Frame(Lookup(r.mem, tab, w).value) &&
               leaf[w] < |r.mem|
    requires forall w {:trigger Lookup(r.mem, tab, w)} :: 0 <= w < USER_VPNS && w != v && w !in leaf ==>
               Lookup(r.mem, tab, w).None?
    requires forall w, l, p {:trigger Versus(0, w, l, p)} :: Versus(0, w, l, p) ==>
               w in leaf && (l, p) in tab ==> leaf[w] != tab[(l, p)]
    requires forall w, x {:trigger Versus(0, w, 0, x)} :: Versus(0, w, 0, x) ==>
               w in leaf && x in leaf && leaf[w] == leaf[x] ==> w == x
    ensures Owned(r, root, tab, free, leaf[v := q])
  {
    var leaf' := leaf[v := q];
    forall i, w | 0 <= i < |free| && w in leaf' ensures free[i] != leaf'[w] {
      if w != v { assert Versus(i, 0, w, 0); }
    }
    forall w, l, p | w in leaf' && (l, p) in tab ensures leaf'[w] != tab[(l, p)] {
      assert Versus(0, w, l, p);
    }
    forall w, x | w in leaf' && x in leaf' && leaf'[w] == leaf'[x] ensures w == x { assert Versus(0, w, 0, x); }
  }

  /** Tables for `v` are made of free pages; pages held are neither. */
  lemma MadeOfGrew(free0: seq<nat>, tab: Tab, free: seq<nat>, leaf: map<nat, nat>, tab': Tab, free': seq<nat>, v: nat,
                   held: seq<nat>)
    requires MadeOf(free0, held + free, tab, leaf) && Grew(tab, free, tab', free', v) && v < USER_VPNS
    requires Apart(free, tab)
    requires forall l, p :: (l, p) in tab' ==> IsKey(l, p)
    ensures MadeOf(free0, held + free', tab', leaf)
  {
    forall x | Entry(x) ensures x in free0 <==> x in held + free' || SpacePage(tab', leaf, x) {
      assert x in free <==> x in free' || (IsTable(tab', x) && !IsTable(tab, x));
      if UserTable(tab, x) {
        var l, p :| (l, p) in tab && !KernKey(l, p) && tab[(l, p)] == x;
        assert (l, p) in tab' && tab'[(l, p)] == x;
      }
      if UserTable(tab', x) {
        var l, p :| (l, p) in tab' && !KernKey(l, p) && tab'[(l, p)] == x;
        if (l, p) in tab { assert UserTable(tab, x); } else { assert x in free; }
      }
      if IsTable(tab', x) && !IsTable(tab, x) {
        var l, p :| (l, p) in tab' && tab'[(l, p)] == x;
        assert IsKey(l, p) && (l, p) !in tab;
        UserPathNotKern(l, v);
      }
      assert MadeOf(free0, held + free, tab, leaf);
    }
  }

  lemma MadeOfMapped(free0: seq<nat>, tab: Tab, free: seq<nat>, leaf: map<nat, nat>, v: nat, q: nat)
    requires MadeOf(free0, [q] + free, tab, leaf) && v !in leaf && v < USER_VPNS
    ensures MadeOf(free0, free, tab, leaf[v := q])
  {
    var leaf' := leaf[v := q];
    forall x | Entry(x) ensures x in free0 <==> x in free || SpacePage(tab, leaf', x) {
      if MappedIn(leaf, 0, USER_VPNS, x) {
        var w :| w in leaf && 0 <= w < USER_VPNS && leaf[w] == x;
        assert w in leaf' && leaf'[w] == x;
      }
      assert v in leaf' && leaf'[v] == q;
    }
  }

  /** Mapping user page numbers changes no page that was in use before the space was made. */
  lemma UntouchedByPath(mem0: seq<Page>, free0: seq<nat>, mem: seq<Page>, tab: Tab, free: seq<nat>, leaf: map<nat, nat>,
                        mem': seq<Page>, v: nat, q: nat)
    requires Untouched(mem0, mem, free0) && MadeOf(free0, [q] + free, tab, leaf) && v < USER_VPNS
    requires PathFrame(mem, mem', free, tab, v)
    ensures Untouched(mem0, mem', free0)
  {
    forall x | 0 <= x < |mem0| && x !in free0 ensures mem'[x] == mem0[x] {
      assert Entry(x);
      forall l | 1 <= l <= 4 && (l, Pre(l, v)) in tab ensures tab[(l, Pre(l, v))] != x {
        UserPathNotKern(l, v);
        assert !UserTable(tab, x);
      }
      assert OffPath(tab, v, x);
    }
  }

  lemma SameKernelGrew(mem0: seq<Page>, tab0: Tab, mem: seq<Page>, tab: Tab, free: seq<nat>, mem': seq<Page>, tab': Tab,
                       free': seq<nat>, v: nat)
    requires SameKernel(mem0, tab0, mem, tab) && Grew(tab, free, tab', free', v) && v < USER_VPNS
    requires forall w {:trigger Lookup(mem', tab', w)} :: 0 <= w < VPNS && w != v ==>
               Lookup(mem', tab', w) == Lookup(mem, tab, w)
    ensures SameKernel(mem0, tab0, mem', tab')
  {
    forall l: nat, p: nat | KernKey(l, p) ensures (l, p) in tab' <==> (l, p) in tab {
      UserPathNotKern(l, v);
    }
  }

  /** After `map_to` of page `q`, taken from the free list before, at `v`. */
  lemma MappedOwned(r: Ram, root: nat, tab: Tab, free: seq<nat>, leaf: map<nat, nat>, r': Ram, tab': Tab,
                    free': seq<nat>, v: nat, q: nat)
    requires Owned(r, root, tab, free, leaf) && Grew(tab, free, tab', free', v)
    requires FreeListed(r'.mem, r'.head, free') && Tables(r'.mem, root, tab') && |r'.mem| == |r.mem|
    requires v < USER_VPNS && q < |r.mem| && q !in free && NotTable(tab, q) && !MappedIn(leaf, 0, USER_VPNS, q)
    requires Lookup(r'.mem, tab', v).Some? && Frame(Lookup(r'.mem, tab', v).value) == q
    requires forall w {:trigger Lookup(r'.mem, tab', w)} :: 0 <= w < VPNS && w != v ==>
               Lookup(r'.mem, tab', w) == Lookup(r.mem, tab, w)
    ensures Owned(r', root, tab', free', leaf[v := q])
  {
    forall x | x in free' ensures x in free { assert Entry(x); }
    forall w, l, p | w in leaf && (l, p) in tab' ensures leaf[w] != tab'[(l, p)] {
      assert Versus(0, w, l, p);
      LeafNotFree(free, leaf, w);
    }
    forall i, w | 0 <= i < |free'| && w in leaf ensures free'[i] != leaf[w] {
      LeafNotFree(free, leaf, w);
      assert free'[i] in free;
    }
    var others := leaf - {v};
    assert forall w :: w in others ==> Lookup(r'.mem, tab', w) == Lookup(r.mem, tab, w);
    MapAdds(r', root, tab', free', others, v, q);
    assert others[v := q] == leaf[v := q];
  }

  lemma UnusedOffPath(tab: Tab, v: nat, q: nat)
    requires NotTable(tab, q)
    ensures OffPath(tab, v, q)
  {
  }

  lemma CopiedMapped(mem0: seq<Page>, tab0: Tab, leaf0: map<nat, nat>, r: Ram, root: nat, tab: Tab, free: seq<nat>,
                     leaf: map<nat, nat>, mem': seq<Page>, tab': Tab, v: nat, q: nat)
    requires Copied(mem0, tab0, leaf0, r.mem, tab, leaf) && Owned(r, root, tab, free, leaf)
    requires PathFrame(r.mem, mem', free, tab, v) && v < USER_VPNS
    requires v !in leaf && v in leaf0 && leaf0[v] < |mem0| && Lookup(mem0, tab0, v).Some?
    requires q < |r.mem| && q !in free && NotTable(tab, q) && r.mem[q] == mem0[leaf0[v]]
    requires Lookup(mem', tab', v).Some? && Flags(Lookup(mem', tab', v).value) == Flags(Lookup(mem0, tab0, v).value)
    requires forall w {:trigger Lookup(mem', tab', w)} :: 0 <= w < VPNS && w != v ==>
               Lookup(mem', tab', w) == Lookup(r.mem, tab, w)
    ensures Copied(mem0, tab0, leaf0, mem', tab', leaf[v := q])
  {
    var leaf' := leaf[v := q];
    forall w | w in leaf' ensures leaf'[w] < |mem'| && mem'[leaf'[w]] == r.mem[leaf'[w]] {
      if w != v {
        LeafNotFree(free, leaf, w);
        LeafNotTable(r.mem, tab, leaf, w);
      }
      UnusedOffPath(tab, v, leaf'[w]);
    }
  }

  lemma CopiedTaken(mem0: seq<Page>, tab0: Tab, leaf0: map<nat, nat>, mem: seq<Page>, tab: Tab, leaf: map<nat, nat>,
                    mem': seq<Page>, q: nat)
    requires Copied(mem0, tab0, leaf0, mem, tab, leaf) && SameLookups(mem, tab, mem', tab) && |mem'| == |mem|
    requires forall v :: v in leaf ==> v < USER_VPNS && leaf[v] != q
    requires forall x :: 0 <= x < |mem| && x != q ==> mem'[x] == mem[x]
    ensures Copied(mem0, tab0, leaf0, mem', tab, leaf)
  {
  }

  // Releasing a space.

  lemma KernNotServed(m: nat, q: nat)
    requires 1 <= m <= 4
    ensures KernKey(m, q) ==> !Serves(m, q, 0, USER_VPNS)
    ensures IsKey(m, q) && !KernKey(m, q) ==> Serves(m, q, 0, USER_VPNS)
  {
    if m <= 3 {
      if Serves(m, q, 0, USER_VPNS) {
        PreMono(3 - m, q, Pre(m, USER_VPNS - 1));
        PrePre(3, m, USER_VPNS - 1);
      }
    }
  }

  lemma NothingMapped(mem: seq<Page>, tab: Tab, v: nat)
    requires Leaves(mem, tab, map[])
    ensures v < USER_VPNS ==> Lookup(mem, tab, v).None?
  {
  }

  /** With no user page mapped and no empty table left, only the root and the kernel half remain. */
  lemma {:induction false} NoUserTables(mem: seq<Page>, root: nat, tab: Tab, m: nat, q: nat)
    requires Tables(mem, root, tab) && Leaves(mem, tab, map[])
    requires forall k, c :: (k, c) in tab && k < 4 && Serves(k, c, 0, USER_VPNS) ==> !EmptyTable(mem, tab[(k, c)])
    requires m < 4 && (m, q) in tab
    ensures KernKey(m, q)
    decreases m
  {
    if !KernKey(m, q) {
      KernNotServed(m, q);
      var i :| 0 <= i < ENTRIES && mem[tab[(m, q)]][i] != 0;
      assert Linked(mem, tab, m, q, i);
      if m == 1 {
        var v := q * 512 + i;
        assert v / 512 == q && v % 512 == i;
        KernVpn(v);
        NothingMapped(mem, tab, v);
      } else {
        NoUserTables(mem, root, tab, m - 1, q * 512 + i);
        KernChild(m, q, i);
      }
    }
  }

  /** What joins the free list is exactly the space's own pages. */
  ghost predicate Released(tab: Tab, leaf: map<nat, nat>, free: seq<nat>, free': seq<nat>) {
    forall x {:trigger Entry(x)} :: Entry(x) ==> (x in free' <==> x in free || SpacePage(tab, leaf, x))
  }

  /** Releasing a space undoes its making: the free pages are those free before it was made. */
  lemma ReleaseUndoes(free0: seq<nat>, free: seq<nat>, tab: Tab, leaf: map<nat, nat>, free': seq<nat>)
    requires MadeOf(free0, free, tab, leaf) && Released(tab, leaf, free, free')
    ensures forall x :: x in free' <==> x in free0
  {
    forall x ensures x in free' <==> x in free0 {
      if x >= 0 { assert Entry(x); }
    }
  }

  /** The kernel half is none of the space's own pages. */
  lemma KernelNotOwn(r: Ram, root: nat, tab: Tab, free: seq<nat>, leaf: map<nat, nat>, l: nat, p: nat)
    requires Owned(r, root, tab, free, leaf) && (l, p) in tab && KernKey(l, p)
    ensures !SpacePage(tab, leaf, tab[(l, p)])
  {
    var x := tab[(l, p)];
    if UserTable(tab, x) {
      var m, q :| (m, q) in tab && !KernKey(m, q) && tab[(m, q)] == x;
      assert Versus(l, p, m, q);
    }
    if MappedIn(leaf, 0, USER_VPNS, x) {
      var v :| v in leaf && 0 <= v < USER_VPNS && leaf[v] == x;
      assert Versus(0, v, l, p);
    }
  }

  /** A table went away exactly if it lies outside the kernel half, the root aside. */
  lemma TableGone(mem: seq<Page>, mem1: seq<Page>, root: nat, tab: Tab, tab1: Tab, x: nat)
    requires Tables(mem, root, tab) && Tables(mem1, root, tab1) && Leaves(mem1, tab1, map[])
    requires Pruned(tab, mem1, tab1, 4, 0, USER_VPNS)
    ensures x == root || (IsTable(tab, x) && !IsTable(tab1, x)) <==> UserTable(tab, x)
  {
    if IsTable(tab, x) {
      var l, p :| (l, p) in tab && tab[(l, p)] == x;
      KernNotServed(l, p);
      forall m, q | (m, q) in tab && tab[(m, q)] == x ensures m == l && q == p { assert Versus(m, q, l, p); }
      if (l, p) in tab1 {
        assert tab1[(l, p)] == x;
        if l < 4 { NoUserTables(mem1, root, tab1, l, p); }
      }
    }
  }

  lemma SpaceReleased(r: Ram, root: nat, tab: Tab, free: seq<nat>, leaf: map<nat, nat>, r1: Ram, tab1: Tab,
                      free1: seq<nat>)
    requires Owned(r, root, tab, free, leaf) && Owned(r1, root, tab1, free1, map[])
    requires Freed(r.mem, tab, free, r1.mem, tab1, free1, leaf, 4, 0, USER_VPNS)
    ensures Released(tab, leaf, free, [root] + free1)
    ensures Untouched(r.mem, r1.mem, [root] + free1)
  {
    forall x | Entry(x) ensures x in [root] + free1 <==> x in free || SpacePage(tab, leaf, x) {
      TableGone(r.mem, r1.mem, root, tab, tab1, x);
    }
    forall x | 0 <= x < |r.mem| && x !in [root] + free1 ensures r1.mem[x] == r.mem[x] {
      assert Entry(x);
      if !NotTable(tab, x) {
        var l, p :| (l, p) in tab && tab[(l, p)] == x;
        KernNotServed(l, p);
        assert !UserTable(tab, x);
      }
    }
  }

  /** `free`, also run when a `PageTable` is dropped: exactly the space's own pages join the free
      list, so no table of the kernel half; no other page changes. */
  method Free(pt: PageTable, ghost leaf: map<nat, nat>)
    requires pt.Owns(leaf)
    modifies pt, pt.memory
    ensures pt.memory.Valid()
    ensures Released(old(pt.tab), leaf, old(pt.memory.free), pt.memory.free)
    ensures Untouched(old(pt.memory.mem), pt.memory.mem, pt.memory.free)
  {
    assert RoundUp(0) == 0 && RoundUp(USER_VPNS * PAGE_SIZE) == USER_VPNS;
    pt.FreeUserPages(0, USER_VPNS * PAGE_SIZE, leaf);
    assert Without(leaf, 0, USER_VPNS) == map[];
    SpaceReleased(old(pt.Phys()), pt.root, old(pt.tab), old(pt.memory.free), leaf, pt.Phys(), pt.tab, pt.memory.free);
    TableNotFree(pt.memory.free, pt.tab, 4, 0);
    FreeListPush(pt.memory.mem, pt.memory.head, pt.memory.free, pt.root, FreePageContents(pt.memory.head));
    pt.memory.Put(pt.root);
    pt.memory.free := [pt.root] + pt.memory.free;
  }

  /** Making and releasing other spaces leaves a space as it is. */
  lemma OtherSpaceKept(r: Ram, root: nat, tab: Tab, free: seq<nat>, leaf: map<nat, nat>, r': Ram, free': seq<nat>)
    requires Owned(r, root, tab, free, leaf) && Untouched(r.mem, r'.mem, free)
    requires FreeListed(r'.mem, r'.head, free') && forall x :: x in free' ==> x in free
    ensures Owned(r', root, tab, free', leaf) && SameLookups(r.mem, tab, r'.mem, tab)
  {
    forall l, p | (l, p) in tab ensures r'.mem[tab[(l, p)]] == r.mem[tab[(l, p)]] { TableNotFree(free, tab, l, p); }
    TablesSame(r.mem, r'.mem, root, tab);
    forall i, l, p | 0 <= i < |free'| && (l, p) in tab ensures free'[i] != tab[(l, p)] {
      TableNotFree(free, tab, l, p);
      assert free'[i] in free;
    }
    forall i, v | 0 <= i < |free'| && v in leaf ensures free'[i] != leaf[v] {
      LeafNotFree(free, leaf, v);
      assert free'[i] in free;
    }
    assert forall v :: 0 <= v < USER_VPNS ==> Lookup(r'.mem, tab, v) == Lookup(r.mem, tab, v);
  }

  // Duplicating.

  const STACK: nat := 0x7_FFFF_FFFC   // USERSTACK / PAGE_SIZE

  lemma {:induction false} FewPages(s: set<nat>, n: nat)
    requires forall x :: x in s ==> x < n
    ensures |s| <= n
  {
    if n > 0 {
      FewPages(s - {n - 1}, n - 1);
    } else {
      assert s == {};
    }
  }

  /** The pages of page numbers below `n`. */
  ghost function PagesBelow(leaf: map<nat, nat>, n: nat): set<nat> {
    if n == 0 then {} else PagesBelow(leaf, n - 1) + (if n - 1 in leaf then {leaf[n - 1]} else {})
  }

  lemma {:induction false} PageIn(leaf: map<nat, nat>, n: nat, x: nat) returns (v: nat)
    requires x in PagesBelow(leaf, n)
    ensures v < n && v in leaf && leaf[v] == x
  {
    if n - 1 in leaf && leaf[n - 1] == x {
      v := n - 1;
    } else {
      v := PageIn(leaf, n - 1, x);
    }
  }

  lemma {:induction false} PagesCount(mem: seq<Page>, tab: Tab, leaf: map<nat, nat>, n: nat)
    requires Leaves(mem, tab, leaf) && forall v :: 0 <= v < n ==> v in leaf
    ensures |PagesBelow(leaf, n)| == n
  {
    if n > 0 {
      PagesCount(mem, tab, leaf, n - 1);
      var x := leaf[n - 1];
      if x in PagesBelow(leaf, n - 1) {
        var v := PageIn(leaf, n - 1, x);
        assert Versus(0, v, 0, n - 1);
      }
    }
  }

  /** Memory has no page for every user page number and the tables besides: a space that maps the
      stack and all pages below `n` ends below the stack. */
  lemma BelowStack(r: Ram, root: nat, tab: Tab, free: seq<nat>, leaf: map<nat, nat>, n: nat)
    requires Owned(r, root, tab, free, leaf)
    requires forall v :: 0 <= v < n || STACK <= v < USER_VPNS ==> v in leaf
    ensures n <= STACK
  {
    if n > STACK {
      AllMapped(r, root, tab, free, leaf);
    }
  }

  lemma AllMapped(r: Ram, root: nat, tab: Tab, free: seq<nat>, leaf: map<nat, nat>)
    requires Owned(r, root, tab, free, leaf)
    ensures !forall v :: 0 <= v < USER_VPNS ==> v in leaf
  {
    if forall v :: 0 <= v < USER_VPNS ==> v in leaf {
      PagesCount(r.mem, tab, leaf, USER_VPNS);
      var s := PagesBelow(leaf, USER_VPNS);
      forall x | x in s ensures x < |r.mem| && x != root {
        var v := PageIn(leaf, USER_VPNS, x);
        assert Versus(0, v, 4, 0);
      }
      FewPages(s + {root}, |r.mem|);
    }
  }

  /** `dup_kern`'s space: a root of its own over the shared kernel half, nothing mapped below. */
  lemma KernelSpace(r: Ram, root: nat, tab: Tab, free: seq<nat>, leaf: map<nat, nat>, r1: Ram)
    requires Owned(r, root, tab, free, leaf) && free != []
    requires r1.mem == r.mem[free[0] := KernelHalf(r.mem[root])] && FreeListed(r1.mem, r1.head, free[1..])
    ensures Beside(r.mem, tab, free, r1, free[0], KernelTab(tab, free[0]), free[1..], map[])
  {
    var q := free[0];
    var ctab := KernelTab(tab, q);
    FirstOnce(free);
    FreeNotTable(free, tab, q);
    DupKernTables(r.mem, root, tab, q);
    forall i, l, p | 0 <= i < |free[1..]| && (l, p) in ctab ensures free[1..][i] != ctab[(l, p)] {
      assert Versus(0, i + 1, l, p);
    }
    assert (4, 0) in ctab && !KernKey(4, 0) && ctab[(4, 0)] == q;
    forall x | Entry(x) ensures x in free <==> x in free[1..] || SpacePage(ctab, map[], x) {
      assert UserTable(ctab, x) <==> x == q;
    }
  }

  method DupKern(pt: PageTable, ghost leaf: map<nat, nat>) returns (child: PageTable?)
    requires pt.Owns(leaf)
    modifies pt.memory
    ensures child == null ==> pt.Phys() == old(pt.Phys()) && pt.memory.free == old(pt.memory.free)
    ensures child != null ==> fresh(child) && child.memory == pt.memory
    ensures child != null ==>
              Beside(old(pt.memory.mem), pt.tab, old(pt.memory.free), pt.Phys(), child.root, child.tab, pt.memory.free,
                     map[])
  {
    var ok, q := pt.memory.Get();
    if !ok { return null; }
    ghost var r0, r1 := old(pt.Phys()), pt.Phys();
    var page := KernelHalf(pt.memory.mem[pt.root]);
    FreeListFrame(pt.memory.mem, pt.memory.head, pt.memory.free, q, page);
    FreeNotTable(old(pt.memory.free), pt.tab, q);
    pt.memory.mem := pt.memory.mem[q := page];
    assert pt.memory.mem == r0.mem[q := page];
    KernelSpace(r0, pt.root, pt.tab, old(pt.memory.free), leaf, pt.Phys());
    child := new PageTable(pt.memory, q, KernelTab(pt.tab, q));
  }

  /** `Beside` while page `q` is held, neither free nor mapped. */
  ghost predicate Holding(mem0: seq<Page>, tab0: Tab, free0: seq<nat>, r: Ram, root: nat, tab: Tab, free: seq<nat>,
                          leaf: map<nat, nat>, q: nat) {
    && Owned(r, root, tab, free, leaf)
    && Untouched(mem0, r.mem, free0)
    && MadeOf(free0, [q] + free, tab, leaf)
    && SameKernel(mem0, tab0, r.mem, tab)
    && q < |r.mem| && q !in free && NotTable(tab, q) && !MappedIn(leaf, 0, USER_VPNS, q)
  }

  lemma Taken(mem0: seq<Page>, tab0: Tab, free0: seq<nat>, leaf0: map<nat, nat>,
              r: Ram, root: nat, tab: Tab, free: seq<nat>, leaf: map<nat, nat>, page: Page, r1: Ram)
    requires Beside(mem0, tab0, free0, r, root, tab, free, leaf) && Copied(mem0, tab0, leaf0, r.mem, tab, leaf) &&
             free != []
    requires r1.mem == r.mem[free[0] := page] && FreeListed(r1.mem, r1.head, free[1..])
    ensures Holding(mem0, tab0, free0, r1, root, tab, free[1..], leaf, free[0])
    ensures Copied(mem0, tab0, leaf0, r1.mem, tab, leaf)
  {
    var q := free[0];
    TakeKeeps(r, root, tab, free, leaf, page, r1);
    assert [q] + free[1..] == free;
    assert Entry(q);
    forall v | v in leaf ensures leaf[v] != q { LeafNotFree(free, leaf, v); }
    CopiedTaken(mem0, tab0, leaf0, r.mem, tab, leaf, r1.mem, q);
    assert forall w :: 0 <= w < VPNS ==> Lookup(r1.mem, tab, w) == Lookup(r.mem, tab, w);
  }

  lemma Mapped(mem0: seq<Page>, tab0: Tab, free0: seq<nat>, leaf0: map<nat, nat>, r: Ram, root: nat, tab: Tab,
               free: seq<nat>, leaf: map<nat, nat>, r': Ram, tab': Tab, free': seq<nat>, v: nat, q: nat)
    requires Holding(mem0, tab0, free0, r, root, tab, free, leaf, q) && Copied(mem0, tab0, leaf0, r.mem, tab, leaf)
    requires Grew(tab, free, tab', free', v) && PathFrame(r.mem, r'.mem, free, tab, v)
    requires FreeListed(r'.mem, r'.head, free') && Tables(r'.mem, root, tab')
    requires v < USER_VPNS && v !in leaf && v in leaf0 && leaf0[v] < |mem0| && Lookup(mem0, tab0, v).Some?
    requires r.mem[q] == mem0[leaf0[v]]
    requires Lookup(r'.mem, tab', v).Some? && Frame(Lookup(r'.mem, tab', v).value) == q
    requires Flags(Lookup(r'.mem, tab', v).value) == Flags(Lookup(mem0, tab0, v).value)
    requires forall w {:trigger Lookup(r'.mem, tab', w)} :: 0 <= w < VPNS && w != v ==>
               Lookup(r'.mem, tab', w) == Lookup(r.mem, tab, w)
    ensures Beside(mem0, tab0, free0, r', root, tab', free', leaf[v := q])
    ensures Copied(mem0, tab0, leaf0, r'.mem, tab', leaf[v := q])
  {
    MappedOwned(r, root, tab, free, leaf, r', tab', free', v, q);
    CopiedMapped(mem0, tab0, leaf0, r, root, tab, free, leaf, r'.mem, tab', v, q);
    UntouchedByPath(mem0, free0, r.mem, tab, free, leaf, r'.mem, v, q);
    MadeOfGrew(free0, tab, free, leaf, tab', free', v, [q]);
    MadeOfMapped(free0, tab', free', leaf, v, q);
    SameKernelGrew(mem0, tab0, r.mem, tab, free, r'.mem, tab', free', v);
  }

  /** `map_to` failed: the held page goes back. */
  lemma GivenBack(mem0: seq<Page>, tab0: Tab, free0: seq<nat>, r: Ram, root: nat, tab: Tab, free: seq<nat>,
                  leaf: map<nat, nat>, r1: Ram, tab1: Tab, free1: seq<nat>, v: nat, q: nat)
    requires Holding(mem0, tab0, free0, r, root, tab, free, leaf, q)
    requires Grew(tab, free, tab1, free1, v) && PathFrame(r.mem, r1.mem, free, tab, v) && v < USER_VPNS && v !in leaf
    requires FreeListed(r1.mem, r1.head, free1) && Tables(r1.mem, root, tab1)
    requires forall w {:trigger Lookup(r1.mem, tab1, w)} :: 0 <= w < VPNS ==>
               Lookup(r1.mem, tab1, w) == Lookup(r.mem, tab, w)
    ensures Beside(mem0, tab0, free0, PutPage(r1, q), root, tab1, [q] + free1, leaf)
  {
    var r2 := PutPage(r1, q);
    GrewKeeps(r, root, tab, free, leaf, r1, tab1, free1, v);
    assert Entry(q);
    forall l, p | (l, p) in tab1 ensures tab1[(l, p)] != q {
      if (l, p) in tab { assert tab[(l, p)] == tab1[(l, p)]; }
    }
    FreeListPush(r1.mem, r1.head, free1, q, FreePageContents(r1.head));
    TablesFrame(r1.mem, root, tab1, q, FreePageContents(r1.head));
    UntouchedByPath(mem0, free0, r.mem, tab, free, leaf, r1.mem, v, q);
    MadeOfGrew(free0, tab, free, leaf, tab1, free1, v, [q]);
    SameKernelGrew(mem0, tab0, r.mem, tab, free, r1.mem, tab1, free1, v);
    ApartPush(free1, tab1, q);
    forall i, w | 0 <= i < |[q] + free1| && w in leaf ensures ([q] + free1)[i] != leaf[w] {
      LeafNotFree(free1, leaf, w);
      if i > 0 { assert ([q] + free1)[i] in free1; }
    }
    assert forall w :: 0 <= w < VPNS ==> Lookup(r2.mem, tab1, w) == Lookup(r1.mem, tab1, w);
  }

  /** The space being duplicated still reads as it did. */
  lemma SourceEntry(r0: Ram, root: nat, tab0: Tab, free0: seq<nat>, leaf0: map<nat, nat>, mem: seq<Page>, v: nat)
    requires Owned(r0, root, tab0, free0, leaf0) && Untouched(r0.mem, mem, free0) && v in leaf0
    ensures EntryFor(mem, root, v) == Lookup(r0.mem, tab0, v) && Lookup(r0.mem, tab0, v).Some?
    ensures Frame(Lookup(r0.mem, tab0, v).value) == leaf0[v] && leaf0[v] < |mem| && mem[leaf0[v]] == r0.mem[leaf0[v]]
  {
    forall l, p | (l, p) in tab0 ensures mem[tab0[(l, p)]] == r0.mem[tab0[(l, p)]] { TableNotFree(free0, tab0, l, p); }
    TablesSame(r0.mem, mem, root, tab0);
    WalkIsLookup(mem, root, tab0, v);
    LeafNotFree(free0, leaf0, v);
  }

  lemma FlagsAreFlags(e: nat)
    ensures IsFlags(Flags(e)) && (Present(e) ==> Flags(e) % 2 == 1)
  {
    assert e % 512 % 2 == e % 2;
  }

  lemma PageNumbers(v: nat, q: nat)
    requires v < VPNS && q < MAXPAGES
    ensures v * PAGE_SIZE / PAGE_SIZE % VPNS == v && q * PAGE_SIZE / PAGE_SIZE % MAXPAGES == q
  {
  }

  /** The copy held in page `q` is mapped at `v`, or given back. */
  method MapCopy(src: PageTable, dst: PageTable, v: nat, q: nat, flags: nat, ghost mem0: seq<Page>,
                 ghost free0: seq<nat>, ghost leaf0: map<nat, nat>, ghost leaf: map<nat, nat>)
    returns (ok: bool)
    requires src != dst && src.memory == dst.memory
    requires v in leaf0 && v !in leaf && v < USER_VPNS && leaf0[v] < |mem0| && Lookup(mem0, src.tab, v).Some?
    requires flags == Flags(Lookup(mem0, src.tab, v).value) && Present(Lookup(mem0, src.tab, v).value)
    requires Holding(mem0, src.tab, free0, dst.Phys(), dst.root, dst.tab, dst.memory.free, leaf, q)
    requires Copied(mem0, src.tab, leaf0, dst.memory.mem, dst.tab, leaf) && dst.memory.mem[q] == mem0[leaf0[v]]
    modifies dst, dst.memory
    ensures Beside(mem0, src.tab, free0, dst.Phys(), dst.root, dst.tab, dst.memory.free,
                   if ok then leaf[v := q] else leaf)
    ensures ok ==> Copied(mem0, src.tab, leaf0, dst.memory.mem, dst.tab, leaf[v := q])
  {
    ghost var r, tab, free := dst.Phys(), dst.tab, dst.memory.free;
    FlagsAreFlags(Lookup(mem0, src.tab, v).value);
    EntryRoundTrip(q * PAGE_SIZE, flags);
    PageNumbers(v, q);
    ok := dst.MapTo(q * PAGE_SIZE, v * PAGE_SIZE, flags);
    if ok {
      Mapped(mem0, src.tab, free0, leaf0, r, dst.root, tab, free, leaf, dst.Phys(), dst.tab, dst.memory.free, v, q);
    } else {
      GivenBack(mem0, src.tab, free0, r, dst.root, tab, free, leaf, dst.Phys(), dst.tab, dst.memory.free, v, q);
      src.memory.Put(q);
      src.memory.free := [q] + src.memory.free;
    }
  }

  /** `leaf'` maps the page numbers of `leaf` and those in `lo ..< hi`. */
  ghost predicate Extends(leaf: map<nat, nat>, leaf': map<nat, nat>, lo: nat, hi: nat) {
    forall v {:trigger v in leaf'} :: v in leaf' <==> v in leaf || lo <= v < hi
  }

  lemma ExtendsByOne(leaf: map<nat, nat>, v: nat, q: nat)
    ensures Extends(leaf, leaf[v := q], v, v + 1)
  {
  }

  /** One round of `copy_region`'s loop. */
  method CopyPage(src: PageTable, dst: PageTable, v: nat, ghost r0: Ram, ghost free0: seq<nat>,
                  ghost leaf0: map<nat, nat>, ghost leaf: map<nat, nat>)
    returns (ok: bool, ghost leaf': map<nat, nat>)
    requires src != dst && src.memory == dst.memory
    requires Owned(r0, src.root, src.tab, free0, leaf0) && v in leaf0 && v !in leaf
    requires Beside(r0.mem, src.tab, free0, dst.Phys(), dst.root, dst.tab, dst.memory.free, leaf)
    requires Copied(r0.mem, src.tab, leaf0, dst.memory.mem, dst.tab, leaf)
    modifies dst, dst.memory
    ensures ok ==> Extends(leaf, leaf', v, v + 1)
    ensures Beside(r0.mem, src.tab, free0, dst.Phys(), dst.root, dst.tab, dst.memory.free, leaf')
    ensures ok ==> Copied(r0.mem, src.tab, leaf0, dst.memory.mem, dst.tab, leaf')
  {
    leaf' := leaf;
    ghost var r, free := dst.Phys(), dst.memory.free;
    SourceEntry(r0, src.root, src.tab, free0, leaf0, r.mem, v);
    var entry := EntryFor(src.memory.mem, src.root, v).value;
    var q;
    ok, q := src.memory.Get();
    if !ok { return; }
    var page := src.memory.mem[Frame(entry)];
    assert page == r0.mem[leaf0[v]] by {
      assert Entry(q);
      LeafNotFree(free0, leaf0, v);
    }
    FreeListFrame(src.memory.mem, src.memory.head, src.memory.free, q, page);
    src.memory.mem := src.memory.mem[q := page];
    assert src.memory.mem == r.mem[q := page];
    Taken(r0.mem, src.tab, free0, leaf0, r, dst.root, dst.tab, free, leaf, page, dst.Phys());
    ok := MapCopy(src, dst, v, q, Flags(entry), r0.mem, free0, leaf0, leaf);
    if ok {
      leaf' := leaf[v := q];
      ExtendsByOne(leaf, v, q);
    }
  }

  /** `copy_region` over page numbers. */
  method CopyRegion(src: PageTable, dst: PageTable, lo: nat, hi: nat, ghost r0: Ram, ghost free0: seq<nat>,
                    ghost leaf0: map<nat, nat>, ghost leaf: map<nat, nat>)
    returns (ok: bool, ghost leaf': map<nat, nat>)
    requires src != dst && src.memory == dst.memory && lo <= hi
    requires Owned(r0, src.root, src.tab, free0, leaf0)
    requires forall v :: lo <= v < hi ==> v in leaf0 && v !in leaf
    requires Beside(r0.mem, src.tab, free0, dst.Phys(), dst.root, dst.tab, dst.memory.free, leaf)
    requires Copied(r0.mem, src.tab, leaf0, dst.memory.mem, dst.tab, leaf)
    modifies dst, dst.memory
    ensures Beside(r0.mem, src.tab, free0, dst.Phys(), dst.root, dst.tab, dst.memory.free, leaf')
    ensures ok ==> Extends(leaf, leaf', lo, hi) && Copied(r0.mem, src.tab, leaf0, dst.memory.mem, dst.tab, leaf')
  {
    ok, leaf' := true, leaf;
    var v := lo;
    while v < hi
      invariant lo <= v <= hi && Extends(leaf, leaf', lo, v)
      invariant Beside(r0.mem, src.tab, free0, dst.Phys(), dst.root, dst.tab, dst.memory.free, leaf')
      invariant Copied(r0.mem, src.tab, leaf0, dst.memory.mem, dst.tab, leaf')
    {
      ok, leaf' := CopyPage(src, dst, v, r0, free0, leaf0, leaf');
      if !ok { return; }
      v := v + 1;
    }
  }

  /** `dup`: on success the new space maps exactly the pages below `size` and the stack, each with
      equal flags to a page of equal contents that was free before; it shares the kernel half and
      nothing else. On failure the same pages are free as before. Either way no page in use before
      the call changes and the original space is kept. */
  method Dup(pt: PageTable, size: nat, ghost leaf: map<nat, nat>)
    returns (child: PageTable?, ghost cleaf: map<nat, nat>)
    requires pt.Owns(leaf)
    requires forall v :: 0 <= v < RoundUp(size) || STACK <= v < USER_VPNS ==> v in leaf
    modifies pt.memory
    ensures pt.Owns(leaf) && Untouched(old(pt.memory.mem), pt.memory.mem, old(pt.memory.free))
    ensures child == null ==> forall x :: x in pt.memory.free <==> x in old(pt.memory.free)
    ensures child != null ==> fresh(child) && child.memory == pt.memory && child.Owns(cleaf)
    ensures child != null ==> forall v :: v in cleaf <==> 0 <= v < RoundUp(size) || STACK <= v < USER_VPNS
    ensures child != null ==> Copied(old(pt.memory.mem), pt.tab, leaf, pt.memory.mem, child.tab, cleaf)
    ensures child != null ==> MadeOf(old(pt.memory.free), pt.memory.free, child.tab, cleaf)
    ensures child != null ==> SameKernel(old(pt.memory.mem), pt.tab, pt.memory.mem, child.tab)
  {
    ghost var r0, free0 := pt.Phys(), pt.memory.free;
    BelowStack(r0, pt.root, pt.tab, free0, leaf, RoundUp(size));
    cleaf := map[];
    child := DupKern(pt, leaf);
    if child == null { return; }
    var ok;
    ok, cleaf := CopyRegion(pt, child, 0, RoundUp(size), r0, free0, leaf, cleaf);
    if ok {
      ok, cleaf := CopyRegion(pt, child, STACK, USER_VPNS, r0, free0, leaf, cleaf);
    }
    if !ok {
      ghost var mem1, tab1, free1 := pt.memory.mem, child.tab, pt.memory.free;
      Free(child, cleaf);
      ReleaseUndoes(free0, free1, tab1, cleaf, pt.memory.free);
      child := null;
    } else {
      forall x | x in pt.memory.free ensures x in free0 { assert Entry(x); }
    }
    OtherSpaceKept(r0, pt.root, pt.tab, free0, leaf, pt.Phys(), pt.memory.free);
  }

  /** The two spaces share no user page and no table outside the kernel half. */
  lemma SpacesApart(r0: Ram, root: nat, tab: Tab, free0: seq<nat>, leaf: map<nat, nat>, free: seq<nat>, ctab: Tab,
                    cleaf: map<nat, nat>, x: nat)
    requires Owned(r0, root, tab, free0, leaf) && MadeOf(free0, free, ctab, cleaf)
    ensures !(SpacePage(tab, leaf, x) && SpacePage(ctab, cleaf, x))
  {
    if SpacePage(ctab, cleaf, x) {
      assert Entry(x);
      FreeNotTable(free0, tab, x);
      if MappedIn(leaf, 0, USER_VPNS, x) {
        var v :| v in leaf && 0 <= v < USER_VPNS && leaf[v] == x;
        LeafNotFree(free0, leaf, v);
      }
    }
  }
}
