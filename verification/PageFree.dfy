/** What freeing a range of user pages means for the tables, the mappings and the free list
    (kernel/src/vm.rs:171-258, 397-419). */
module PageFree {
  import opened Options
  import opened PhysMem
  import opened PageTree

  /** First page number below prefix `c` of level `l`. */
  function First(l: nat, c: nat): nat {
    if l == 0 then c
    else if l == 1 then c * 512
    else if l == 2 then c * 0x4_0000
    else if l == 3 then c * 0x800_0000
    else c * VPNS
  }

  lemma PreFirst(l: nat, c: nat, v: nat)
    requires l <= 4
    ensures Pre(l, v) == c <==> First(l, c) <= v < First(l, c + 1)
  {
    if l == 2 { assert v / 512 / 512 == v / 0x4_0000; }
    if l == 3 { assert v / 512 / 512 / 512 == v / 0x800_0000; }
    if l == 4 { assert v / 512 / 512 / 512 / 512 == v / VPNS; }
  }

  lemma PreMono(l: nat, v: nat, w: nat)
    requires v <= w && l <= 4
    ensures Pre(l, v) <= Pre(l, w)
  {
  }

  /** `leaf` gives the page behind every mapped user page number; these pages are all different and
      none of them is a table. */
  ghost predicate Leaves(mem: seq<Page>, tab: Tab, leaf: map<nat, nat>) {
    && (forall v {:trigger v in leaf} {:trigger Lookup(mem, tab, v)} ::
          0 <= v < USER_VPNS ==> (v in leaf <==> Lookup(mem, tab, v).Some?))
    && (forall v {:trigger leaf[v]} :: v in leaf ==>
          && v < USER_VPNS && Lookup(mem, tab, v).Some? && leaf[v] == Frame(Lookup(mem, tab, v).value)
          && leaf[v] < |mem|)
    && (forall v, l, p {:trigger Versus(0, v, l, p)} :: Versus(0, v, l, p) ==>
          v in leaf && (l, p) in tab ==> leaf[v] != tab[(l, p)])
    && (forall v, w {:trigger Versus(0, v, 0, w)} :: Versus(0, v, 0, w) ==>
          v in leaf && w in leaf && leaf[v] == leaf[w] ==> v == w)
  }

  ghost function Without(leaf: map<nat, nat>, lo: nat, hi: nat): map<nat, nat> {
    map v | v in leaf && !(lo <= v < hi) :: leaf[v]
  }

  /** Page `q` is mapped at some page number of the range. */
  ghost predicate MappedIn(leaf: map<nat, nat>, lo: nat, hi: nat, q: nat) {
    exists v :: v in leaf && lo <= v < hi && leaf[v] == q
  }

  /** No free page is mapped. */
  ghost predicate Unmapped(free: seq<nat>, leaf: map<nat, nat>) {
    forall i, v {:trigger Versus(i, 0, v, 0)} :: Versus(i, 0, v, 0) ==>
      0 <= i < |free| && v in leaf ==> free[i] != leaf[v]
  }

  lemma LeafNotFree(free: seq<nat>, leaf: map<nat, nat>, v: nat)
    requires Unmapped(free, leaf) && v in leaf
    ensures leaf[v] !in free
  {
    forall i | 0 <= i < |free| ensures free[i] != leaf[v] { assert Versus(i, 0, v, 0); }
  }

  lemma LeafNotTable(mem: seq<Page>, tab: Tab, leaf: map<nat, nat>, v: nat)
    requires Leaves(mem, tab, leaf) && v in leaf
    ensures NotTable(tab, leaf[v])
  {
    forall l, p | (l, p) in tab ensures tab[(l, p)] != leaf[v] { assert Versus(0, v, l, p); }
  }

  /** Table `(m, q)` serves some page number in `lo ..< hi`. */
  ghost predicate Serves(m: nat, q: nat, lo: nat, hi: nat) {
    lo < hi && Pre(m, lo) <= q <= Pre(m, hi - 1)
  }

  ghost predicate Sub(tab: Tab, tab': Tab) {
    forall k :: k in tab ==> k in tab' && tab'[k] == tab[k]
  }

  /** Tables below level `l` disappeared only if they serve the range, and those left are not
      empty. */
  ghost predicate Pruned(tab: Tab, mem': seq<Page>, tab': Tab, l: nat, lo: nat, hi: nat) {
    && Sub(tab', tab)
    && (forall m, q :: (m, q) in tab && (m, q) !in tab' ==> m < l && Serves(m, q, lo, hi))
    && (forall m, q :: (m, q) in tab' && m < l && Serves(m, q, lo, hi) ==> !EmptyTable(mem', tab'[(m, q)]))
  }

  /** Only tables up to level `l` that serve the range, and pages now free, changed. */
  ghost predicate Kept(mem: seq<Page>, mem': seq<Page>, tab: Tab, free': seq<nat>, l: nat, lo: nat, hi: nat) {
    && |mem'| == |mem|
    && (forall x {:trigger mem'[x]} :: 0 <= x < |mem| && x !in free' && NotTable(tab, x) ==> mem'[x] == mem[x])
    && (forall m, q {:trigger tab[(m, q)]} ::
          (m, q) in tab && !(m <= l && Serves(m, q, lo, hi)) && tab[(m, q)] < |mem| && tab[(m, q)] !in free' ==>
          mem'[tab[(m, q)]] == mem[tab[(m, q)]])
  }

  /** Names the page an account is about. */
  ghost predicate Entry(q: nat) { q >= 0 }

  /** The page accounts: what joins the free list is exactly the mapped pages of the range and the
      tables that disappeared. */
  ghost predicate Accounts(tab: Tab, tab': Tab, free: seq<nat>, free': seq<nat>, leaf: map<nat, nat>, lo: nat,
                           hi: nat) {
    forall q {:trigger Entry(q)} :: Entry(q) ==>
      (q in free' <==> q in free || MappedIn(leaf, lo, hi, q) || (IsTable(tab, q) && !IsTable(tab', q)))
  }

  ghost predicate OthersSame(mem: seq<Page>, tab: Tab, mem': seq<Page>, tab': Tab, lo: nat, hi: nat) {
    forall v {:trigger Lookup(mem', tab', v)} :: 0 <= v < VPNS && !(lo <= v < hi) ==>
      Lookup(mem', tab', v) == Lookup(mem, tab, v)
  }

  /** The whole effect of freeing page numbers `lo ..< hi` in the table of level `l` serving them. */
  ghost predicate Freed(mem: seq<Page>, tab: Tab, free: seq<nat>, mem': seq<Page>, tab': Tab, free': seq<nat>,
                        leaf: map<nat, nat>, l: nat, lo: nat, hi: nat) {
    && Pruned(tab, mem', tab', l, lo, hi)
    && Kept(mem, mem', tab, free', l, lo, hi)
    && Accounts(tab, tab', free, free', leaf, lo, hi)
    && OthersSame(mem, tab, mem', tab', lo, hi)
  }

  /** Boundary `mid` separates the tables below level `l`. */
  ghost predicate Aligned(l: nat, mid: nat) {
    forall m :: 0 <= m < l ==> mid == 0 || Pre(m, mid - 1) < Pre(m, mid)
  }

  lemma FirstFirst(l: nat, m: nat, c: nat)
    requires m <= l <= 3
    ensures First(l, c) == First(m, First(l - m, c)) < First(m, First(l - m, c) + 1)
  {
  }

  lemma FirstAligned(l: nat, c: nat)
    requires 1 <= l <= 4
    ensures Aligned(l, First(l - 1, c))
  {
    var mid := First(l - 1, c);
    forall m | 0 <= m < l ensures mid == 0 || Pre(m, mid - 1) < Pre(m, mid) {
      if mid > 0 {
        FirstFirst(l - 1, m, c);
        PreFirst(m, First(l - 1 - m, c), mid);
        PreFirst(m, First(l - 1 - m, c), mid - 1);
        PreMono(m, mid - 1, mid);
      }
    }
  }

  lemma ServesSplit(l: nat, m: nat, q: nat, lo: nat, mid: nat, hi: nat)
    requires lo <= mid <= hi && l <= 4 && m <= l
    ensures Serves(m, q, lo, mid) || Serves(m, q, mid, hi) ==> Serves(m, q, lo, hi)
    ensures m < l && Aligned(l, mid) && Serves(m, q, lo, hi) ==> Serves(m, q, lo, mid) != Serves(m, q, mid, hi)
  {
    if lo < mid < hi {
      PreMono(m, lo, mid - 1);
      PreMono(m, mid - 1, mid);
      PreMono(m, mid, hi - 1);
      PreStep(m, mid);
    }
  }

  lemma PreStep(m: nat, v: nat)
    requires v > 0 && m <= 4
    ensures Pre(m, v) <= Pre(m, v - 1) + 1
  {
  }

  lemma PrunedTrans(tab: Tab, mem1: seq<Page>, tab1: Tab, mem2: seq<Page>, tab2: Tab, free2: seq<nat>,
                    l: nat, lo: nat, mid: nat, hi: nat)
    requires Pruned(tab, mem1, tab1, l, lo, mid) && Pruned(tab1, mem2, tab2, l, mid, hi)
    requires Kept(mem1, mem2, tab1, free2, l, mid, hi) && Apart(free2, tab2)
    requires lo <= mid <= hi && l <= 4 && Aligned(l, mid)
    ensures Pruned(tab, mem2, tab2, l, lo, hi)
  {
    forall m, q | (m, q) in tab && (m, q) !in tab2 ensures m < l && Serves(m, q, lo, hi) {
      if m <= l { ServesSplit(l, m, q, lo, mid, hi); }
    }
    forall m, q | (m, q) in tab2 && m < l && Serves(m, q, lo, hi) ensures !EmptyTable(mem2, tab2[(m, q)]) {
      ServesSplit(l, m, q, lo, mid, hi);
      assert tab1[(m, q)] == tab2[(m, q)];
      TableNotFree(free2, tab2, m, q);
    }
  }

  lemma SubTables(tab: Tab, tab': Tab, q: nat)
    requires Sub(tab', tab)
    ensures IsTable(tab', q) ==> IsTable(tab, q)
    ensures NotTable(tab, q) ==> NotTable(tab', q)
  {
    if IsTable(tab', q) {
      var l, p :| (l, p) in tab' && tab'[(l, p)] == q;
      assert (l, p) in tab && tab[(l, p)] == q;
    }
    if NotTable(tab, q) {
      forall l, p | (l, p) in tab' ensures tab'[(l, p)] != q {
        assert tab[(l, p)] == tab'[(l, p)];
      }
    }
  }

  lemma KeptTrans(mem: seq<Page>, tab: Tab, mem1: seq<Page>, tab1: Tab, mem2: seq<Page>,
                  free1: seq<nat>, free2: seq<nat>, l: nat, lo: nat, mid: nat, hi: nat)
    requires Kept(mem, mem1, tab, free1, l, lo, mid) && Kept(mem1, mem2, tab1, free2, l, mid, hi)
    requires Pruned(tab, mem1, tab1, l, lo, mid) && forall q :: q in free1 ==> q in free2
    requires lo <= mid <= hi && l <= 4
    ensures Kept(mem, mem2, tab, free2, l, lo, hi)
  {
    forall x | 0 <= x < |mem| && x !in free2 && NotTable(tab, x) ensures mem2[x] == mem[x] {
      SubTables(tab, tab1, x);
    }
    forall m, q | (m, q) in tab && !(m <= l && Serves(m, q, lo, hi)) && tab[(m, q)] < |mem| && tab[(m, q)] !in free2
      ensures mem2[tab[(m, q)]] == mem[tab[(m, q)]]
    {
      if m <= l { ServesSplit(l, m, q, lo, mid, hi); }
      assert tab1[(m, q)] == tab[(m, q)];
    }
  }

  lemma AccountsTrans(tab: Tab, tab1: Tab, tab2: Tab, free: seq<nat>, free1: seq<nat>, free2: seq<nat>,
                      leaf: map<nat, nat>, lo: nat, mid: nat, hi: nat)
    requires Accounts(tab, tab1, free, free1, leaf, lo, mid)
    requires Accounts(tab1, tab2, free1, free2, Without(leaf, lo, mid), mid, hi)
    requires Sub(tab1, tab) && Sub(tab2, tab1) && lo <= mid <= hi
    ensures Accounts(tab, tab2, free, free2, leaf, lo, hi)
    ensures forall q :: q in free1 ==> q in free2
  {
    var leaf1 := Without(leaf, lo, mid);
    forall q | Entry(q)
      ensures q in free2 <==> q in free || MappedIn(leaf, lo, hi, q) || (IsTable(tab, q) && !IsTable(tab2, q))
    {
      SubTables(tab, tab1, q);
      SubTables(tab1, tab2, q);
      MappedSplit(leaf, lo, mid, hi, q);
    }
    forall q | q in free1 ensures q in free2 { assert Entry(q); }
  }

  lemma MappedSplit(leaf: map<nat, nat>, lo: nat, mid: nat, hi: nat, q: nat)
    requires lo <= mid <= hi
    ensures MappedIn(leaf, lo, hi, q) <==> MappedIn(leaf, lo, mid, q) || MappedIn(Without(leaf, lo, mid), mid, hi, q)
  {
    if MappedIn(leaf, lo, hi, q) {
      var v :| v in leaf && lo <= v < hi && leaf[v] == q;
      if v >= mid { assert v in Without(leaf, lo, mid); }
    }
    if MappedIn(Without(leaf, lo, mid), mid, hi, q) {
      var v :| v in Without(leaf, lo, mid) && mid <= v < hi && Without(leaf, lo, mid)[v] == q;
      assert v in leaf && leaf[v] == q;
    }
  }

  /** Two adjacent ranges freed one after the other are one range freed. */
  lemma FreedTrans(mem: seq<Page>, tab: Tab, free: seq<nat>, mem1: seq<Page>, tab1: Tab, free1: seq<nat>,
                   mem2: seq<Page>, tab2: Tab, free2: seq<nat>, leaf: map<nat, nat>, l: nat, lo: nat, mid: nat, hi: nat)
    requires Freed(mem, tab, free, mem1, tab1, free1, leaf, l, lo, mid)
    requires Freed(mem1, tab1, free1, mem2, tab2, free2, Without(leaf, lo, mid), l, mid, hi)
    requires lo <= mid <= hi && l <= 4 && Aligned(l, mid) && Apart(free2, tab2)
    ensures Freed(mem, tab, free, mem2, tab2, free2, leaf, l, lo, hi)
    ensures Without(Without(leaf, lo, mid), mid, hi) == Without(leaf, lo, hi)
  {
    PrunedTrans(tab, mem1, tab1, mem2, tab2, free2, l, lo, mid, hi);
    AccountsTrans(tab, tab1, tab2, free, free1, free2, leaf, lo, mid, hi);
    KeptTrans(mem, tab, mem1, tab1, mem2, free1, free2, l, lo, mid, hi);
    forall v | 0 <= v < VPNS && !(lo <= v < hi) ensures Lookup(mem2, tab2, v) == Lookup(mem, tab, v) {
      assert Lookup(mem1, tab1, v) == Lookup(mem, tab, v);
    }
  }

  // One mapped page.

  /** Page `x` behind page number `v` joins the free list and the leaf entry is cleared. */
  lemma LeafFreed(mem: seq<Page>, root: nat, tab: Tab, free: seq<nat>, leaf: map<nat, nat>, v: nat, mem1: seq<Page>)
    requires Tables(mem, root, tab) && Leaves(mem, tab, leaf) && v in leaf
    requires |mem1| == |mem| && forall y :: 0 <= y < |mem| && y != leaf[v] ==> mem1[y] == mem[y]
    requires leaf[v] !in free
    ensures (1, v / 512) in tab
    ensures var mem' := SetEntry(mem1, tab[(1, v / 512)], v % 512, 0);
            && Tables(mem', root, tab) && Leaves(mem', tab, Without(leaf, v, v + 1))
            && Freed(mem, tab, free, mem', tab, [leaf[v]] + free, leaf, 1, v, v + 1)
  {
    var x, t := leaf[v], tab[(1, v / 512)];
    assert mem1 == mem[x := mem1[x]];
    LeafNotTable(mem, tab, leaf, v);
    TablesFrame(mem, root, tab, x, mem1[x]);
    TablesSetLeaf(mem1, root, tab, v, 0);
    var mem' := SetEntry(mem1, t, v % 512, 0);
    assert forall w :: 0 <= w < VPNS ==> Lookup(mem1, tab, w) == Lookup(mem, tab, w);
    assert OthersSame(mem, tab, mem', tab, v, v + 1);
    LeafFreedAccounts(tab, free, leaf, v);
    LeafFreedKept(mem, root, tab, x, v, mem1, [x] + free);
  }

  lemma LeafFreedAccounts(tab: Tab, free: seq<nat>, leaf: map<nat, nat>, v: nat)
    requires v in leaf
    ensures Accounts(tab, tab, free, [leaf[v]] + free, leaf, v, v + 1)
  {
  }

  lemma LeafFreedKept(mem: seq<Page>, root: nat, tab: Tab, x: nat, v: nat, mem1: seq<Page>, free': seq<nat>)
    requires Tables(mem, root, tab) && (1, v / 512) in tab && x < |mem| && x in free'
    requires |mem1| == |mem| && forall y :: 0 <= y < |mem| && y != x ==> mem1[y] == mem[y]
    ensures Kept(mem, SetEntry(mem1, tab[(1, v / 512)], v % 512, 0), tab, free', 1, v, v + 1)
  {
    var t := tab[(1, v / 512)];
    assert Serves(1, v / 512, v, v + 1);
    forall m, q | (m, q) in tab && !(m <= 1 && Serves(m, q, v, v + 1)) ensures tab[(m, q)] != t {
      TellApart(tab, m, q, 1, v / 512);
    }
  }

  lemma UnmappedFreed(mem: seq<Page>, root: nat, tab: Tab, free: seq<nat>, leaf: map<nat, nat>, v: nat)
    requires Tables(mem, root, tab) && v !in leaf
    ensures Freed(mem, tab, free, mem, tab, free, leaf, 1, v, v + 1) && Without(leaf, v, v + 1) == leaf
  {
  }

  // One child table.

  lemma PrePre(k: nat, m: nat, v: nat)
    requires m <= k <= 4
    ensures Pre(k - m, Pre(m, v)) == Pre(k, v)
  {
  }

  lemma ServesBelow(m: nat, q: nat, k: nat, c: nat, lo: nat, hi: nat)
    requires Serves(m, q, lo, hi) && m <= k <= 4 && Pre(k, lo) == c == Pre(k, hi - 1)
    ensures Pre(k - m, q) == c
  {
    PrePre(k, m, lo);
    PrePre(k, m, hi - 1);
    PreMono(k - m, Pre(m, lo), q);
    PreMono(k - m, q, Pre(m, hi - 1));
  }

  lemma {:induction false} AncestorIn(mem: seq<Page>, root: nat, tab: Tab, m: nat, q: nat, k: nat)
    requires Tables(mem, root, tab) && (m, q) in tab && m <= k <= 4
    ensures (k, Pre(k - m, q)) in tab
    decreases k - m
  {
    if m < k {
      assert HasParent(tab, m, q);
      AncestorIn(mem, root, tab, m + 1, q / 512, k);
      assert Pre(k - m - 1, q / 512) == Pre(k - m, q);
    }
  }

  /** Nothing is mapped, and no table exists, below a missing table. */
  lemma ChildAbsent(mem: seq<Page>, root: nat, tab: Tab, free: seq<nat>, leaf: map<nat, nat>, l: nat, c: nat, lo: nat,
                    hi: nat)
    requires Tables(mem, root, tab) && Leaves(mem, tab, leaf) && 2 <= l <= 4 && (l - 1, c) !in tab
    requires lo < hi && Pre(l - 1, lo) == c == Pre(l - 1, hi - 1)
    ensures Freed(mem, tab, free, mem, tab, free, leaf, l, lo, hi) && Without(leaf, lo, hi) == leaf
  {
    forall m, q | (m, q) in tab && m < l ensures !Serves(m, q, lo, hi) {
      if Serves(m, q, lo, hi) {
        ServesBelow(m, q, l - 1, c, lo, hi);
        AncestorIn(mem, root, tab, m, q, l - 1);
      }
    }
    forall v | lo <= v < hi ensures v !in leaf {
      PreMono(1, lo, v);
      PreMono(1, v, hi - 1);
      assert Serves(1, v / 512, lo, hi);
      assert Lookup(mem, tab, v) == None;
    }
  }

  /** The child served the range and still holds something. */
  lemma ChildKept(mem: seq<Page>, tab: Tab, free: seq<nat>, mem1: seq<Page>, root: nat, tab1: Tab, free1: seq<nat>,
                  leaf: map<nat, nat>, l: nat, c: nat, lo: nat, hi: nat)
    requires 2 <= l <= 4 && Freed(mem, tab, free, mem1, tab1, free1, leaf, l - 1, lo, hi) && Tables(mem1, root, tab1)
    requires lo < hi && Pre(l - 1, lo) == c == Pre(l - 1, hi - 1)
    requires (l - 1, c) in tab1 && !EmptyTable(mem1, tab1[(l - 1, c)])
    ensures Freed(mem, tab, free, mem1, tab1, free1, leaf, l, lo, hi)
  {
  }

  lemma RemovedPruned(mem: seq<Page>, tab: Tab, mem1: seq<Page>, root: nat, tab1: Tab, mem': seq<Page>,
                      l: nat, p: nat, i: nat, lo: nat, hi: nat, free1: seq<nat>)
    requires 2 <= l <= 4 && Pruned(tab, mem1, tab1, l - 1, lo, hi) && Kept(mem, mem1, tab, free1, l - 1, lo, hi)
    requires Tables(mem1, root, tab1) && (l, p) in tab1 && i < ENTRIES && lo < hi
    requires Pre(l - 1, lo) == p * 512 + i == Pre(l - 1, hi - 1) && (l - 1, p * 512 + i) in tab1
    requires |mem'| == |mem1|
    requires forall y :: 0 <= y < |mem1| && y != tab1[(l - 1, p * 512 + i)] && y != tab1[(l, p)] ==> mem'[y] == mem1[y]
    ensures Pruned(tab, mem', tab1 - {(l - 1, p * 512 + i)}, l, lo, hi)
    ensures Kept(mem, mem', tab, [tab1[(l - 1, p * 512 + i)]] + free1, l, lo, hi)
  {
    var c := (l - 1, p * 512 + i);
    var x, t, tab2 := tab1[c], tab1[(l, p)], tab1 - {c};
    PrePre(l, l - 1, lo);
    PrePre(l, l - 1, hi - 1);
    assert Serves(l, p, lo, hi);
    forall m, q | (m, q) in tab2 && m < l && Serves(m, q, lo, hi) ensures !EmptyTable(mem', tab2[(m, q)]) {
      assert m < l - 1;
      TellApart(tab1, m, q, l, p);
      TellApart(tab1, m, q, l - 1, p * 512 + i);
    }
    forall m, q | (m, q) in tab && !(m <= l && Serves(m, q, lo, hi)) && tab[(m, q)] < |mem| &&
                  tab[(m, q)] !in [x] + free1
      ensures mem'[tab[(m, q)]] == mem[tab[(m, q)]]
    {
      assert (m, q) in tab1 && tab1[(m, q)] == tab[(m, q)];
      TellApart(tab1, m, q, l, p);
    }
    forall y | NotTable(tab, y) ensures y != t {
      assert tab[(l, p)] == t;
    }
  }

  lemma RemovedAccounts(root: nat, mem1: seq<Page>, tab: Tab, tab1: Tab, free: seq<nat>, free1: seq<nat>,
                        leaf: map<nat, nat>, m: nat, c: nat, lo: nat, hi: nat)
    requires Accounts(tab, tab1, free, free1, leaf, lo, hi) && Sub(tab1, tab)
    requires Tables(mem1, root, tab1) && (m, c) in tab1
    ensures Accounts(tab, tab1 - {(m, c)}, free, [tab1[(m, c)]] + free1, leaf, lo, hi)
  {
    var x, tab2 := tab1[(m, c)], tab1 - {(m, c)};
    forall q | Entry(q)
      ensures q in [x] + free1 <==> q in free || MappedIn(leaf, lo, hi, q) || (IsTable(tab, q) && !IsTable(tab2, q))
    {
      SubTables(tab, tab1, q);
      SubTables(tab1, tab2, q);
      if IsTable(tab1, q) && q != x {
        var l, p :| (l, p) in tab1 && tab1[(l, p)] == q;
        assert (l, p) in tab2;
      }
      assert IsTable(tab1, x);
      forall l, p | (l, p) in tab2 ensures tab2[(l, p)] != x { TellApart(tab1, l, p, m, c); }
    }
  }

  /** The child served the range and is empty: its entry is cleared and its page freed. */
  lemma ChildRemoved(mem: seq<Page>, tab: Tab, free: seq<nat>, mem1: seq<Page>, root: nat, tab1: Tab, free1: seq<nat>,
                     mem2: seq<Page>, leaf: map<nat, nat>, l: nat, p: nat, i: nat, lo: nat, hi: nat)
    requires 2 <= l <= 4 && Freed(mem, tab, free, mem1, tab1, free1, leaf, l - 1, lo, hi) && Tables(mem1, root, tab1)
    requires (l, p) in tab1 && i < ENTRIES && lo < hi
    requires Pre(l - 1, lo) == p * 512 + i == Pre(l - 1, hi - 1)
    requires (l - 1, p * 512 + i) in tab1 && EmptyTable(mem1, tab1[(l - 1, p * 512 + i)])
    requires |mem2| == |mem1|
    requires forall y :: 0 <= y < |mem1| && y != tab1[(l - 1, p * 512 + i)] ==> mem2[y] == mem1[y]
    requires Apart(free1, tab1)
    ensures var x, tab2 := tab1[(l - 1, p * 512 + i)], tab1 - {(l - 1, p * 512 + i)};
            var mem' := SetEntry(mem2, tab1[(l, p)], i, 0);
            && Tables(mem', root, tab2) && SameLookups(mem1, tab1, mem', tab2)
            && Freed(mem, tab, free, mem', tab2, [x] + free1, leaf, l, lo, hi)
  {
    var c := (l - 1, p * 512 + i);
    var x, t, tab2 := tab1[c], tab1[(l, p)], tab1 - {c};
    var mem' := SetEntry(mem2, t, i, 0);
    TablesRemove(mem1, root, tab1, l, p, i);
    var memR := SetEntry(mem1, t, i, 0);
    TellApart(tab1, l, p, l - 1, p * 512 + i);
    assert mem' == memR[x := mem2[x]];
    forall m, q | (m, q) in tab2 ensures tab2[(m, q)] != x { TellApart(tab1, m, q, l - 1, p * 512 + i); }
    TablesFrame(memR, root, tab2, x, mem2[x]);
    RemovedPruned(mem, tab, mem1, root, tab1, mem', l, p, i, lo, hi, free1);
    RemovedAccounts(root, mem1, tab, tab1, free, free1, leaf, l - 1, p * 512 + i, lo, hi);
  }

  // The code that frees, as functions of physical memory.

  function ClearEntry(r: Ram, t: nat, i: nat): (r': Ram)
    requires i < ENTRIES
    ensures |r'.mem| == |r.mem|
  {
    if t < |r.mem| then r.(mem := SetEntry(r.mem, t, i, 0)) else r
  }

  predicate ZeroTable(r: Ram, t: nat) {
    t < |r.mem| && forall i :: 0 <= i < ENTRIES ==> r.mem[t][i] == 0
  }

  /** Pages that one entry of a level-`l` table covers. */
  function EntrySpan(l: nat): (n: nat)
    requires 1 <= l <= 4
    ensures n > 0 && n == First(l - 1, 1)
  {
    if l == 1 then 1 else if l == 2 then 512 else if l == 3 then 0x4_0000 else 0x800_0000
  }

  /** One turn of the level-1 loop. */
  function FreeLeaf(r: Ram, t: nat, v: nat): (r': Ram)
    ensures |r'.mem| == |r.mem|
  {
    match Next(r.mem, t, v % 512)
    case None => r
    case Some(x) => ClearEntry(PutPage(r, x), t, v % 512)
  }

  /** `Table<Level1>::free_user_pages` from page number `v` on. */
  function FreeLeaves(r: Ram, t: nat, v: nat, hi: nat): (r': Ram)
    ensures |r'.mem| == |r.mem|
    decreases hi - v
  {
    if v >= hi then r else FreeLeaves(FreeLeaf(r, t, v), t, v + 1, hi)
  }

  function Max(a: nat, b: nat): nat { if a < b then b else a }
  function Min(a: nat, b: nat): nat { if a < b then a else b }

  /** One turn of the loop of a higher level, for the entry that covers page number `va`. */
  function FreeChild(r: Ram, l: nat, t: nat, va: nat, lo: nat, hi: nat): (r': Ram)
    requires 2 <= l <= 4
    ensures |r'.mem| == |r.mem|
    decreases l, 0, 0
  {
    match Next(r.mem, t, Index(l, va))
    case None => r
    case Some(x) =>
      AfterChild(FreeTable(r, l - 1, x, lo, hi), l, t, va, x)
  }

  function FreeChildren(r: Ram, l: nat, t: nat, va: nat, lo: nat, hi: nat): (r': Ram)
    requires 2 <= l <= 4
    ensures |r'.mem| == |r.mem|
    decreases l, 1, hi - va
  {
    if va >= hi then r
    else
      var end := Min(hi, va + EntrySpan(l));
      FreeChildren(FreeChild(r, l, t, va, Max(lo, va), end), l, t, va + EntrySpan(l), lo, hi)
  }

  /** `free_user_pages` of a table of level `l`. */
  function FreeTable(r: Ram, l: nat, t: nat, lo: nat, hi: nat): (r': Ram)
    requires 1 <= l <= 4
    ensures |r'.mem| == |r.mem|
    decreases l, 2, 0
  {
    if lo >= hi then r
    else if l == 1 then FreeLeaves(r, t, lo, hi)
    else FreeChildren(r, l, t, lo - lo % EntrySpan(l), lo, hi)
  }

  /** An address space that owns its user pages, next to a free list. */
  ghost predicate Owned(r: Ram, root: nat, tab: Tab, free: seq<nat>, leaf: map<nat, nat>) {
    && FreeListed(r.mem, r.head, free)
    && Tables(r.mem, root, tab) && Apart(free, tab)
    && Leaves(r.mem, tab, leaf) && Unmapped(free, leaf)
  }

  lemma ApartPush(free: seq<nat>, tab: Tab, x: nat)
    requires Apart(free, tab) && NotTable(tab, x)
    ensures Apart([x] + free, tab)
  {
    forall i, l, p | 0 <= i < |[x] + free| && (l, p) in tab ensures ([x] + free)[i] != tab[(l, p)] {
      assert Versus(0, i - 1, l, p);
    }
  }

  lemma UnmappedPush(mem: seq<Page>, tab: Tab, free: seq<nat>, leaf: map<nat, nat>, v: nat)
    requires Unmapped(free, leaf) && Leaves(mem, tab, leaf) && v in leaf
    ensures Unmapped([leaf[v]] + free, Without(leaf, v, v + 1))
  {
    var free' := [leaf[v]] + free;
    forall i, w | 0 <= i < |free'| && w in leaf && w != v ensures free'[i] != leaf[w] {
      assert Versus(i - 1, 0, w, 0);
      assert Versus(0, v, 0, w);
    }
  }

  lemma FreeLeafFrees(r: Ram, root: nat, tab: Tab, free: seq<nat>, leaf: map<nat, nat>, v: nat)
    returns (free': seq<nat>)
    requires Owned(r, root, tab, free, leaf) && v < USER_VPNS && (1, v / 512) in tab
    ensures var r' := FreeLeaf(r, tab[(1, v / 512)], v);
            && Owned(r', root, tab, free', Without(leaf, v, v + 1))
            && Freed(r.mem, tab, free, r'.mem, tab, free', leaf, 1, v, v + 1)
  {
    var t := tab[(1, v / 512)];
    var e := r.mem[t][v % 512];
    if !Present(e) {
      free' := free;
      assert Lookup(r.mem, tab, v) == None;
      UnmappedFreed(r.mem, root, tab, free, leaf, v);
    } else {
      assert Lookup(r.mem, tab, v) == Some(e);
      var x := leaf[v];
      free' := [x] + free;
      var r1 := PutPage(r, x);
      LeafNotFree(free, leaf, v);
      LeafNotTable(r.mem, tab, leaf, v);
      TableNotFree(free, tab, 1, v / 512);
      FreeListPush(r.mem, r.head, free, x, FreePageContents(r.head));
      LeafFreed(r.mem, root, tab, free, leaf, v, r1.mem);
      FreeListFrame(r1.mem, r1.head, free', t, r1.mem[t][v % 512 := 0]);
      ApartPush(free, tab, x);
      UnmappedPush(r.mem, tab, free, leaf, v);
    }
  }

  lemma {:induction false} FreeLeavesFrees(r: Ram, root: nat, tab: Tab, free: seq<nat>, leaf: map<nat, nat>, lo: nat,
                                           hi: nat)
    returns (free': seq<nat>)
    requires Owned(r, root, tab, free, leaf) && lo <= hi <= USER_VPNS
    requires lo < hi ==> (1, lo / 512) in tab && lo / 512 == (hi - 1) / 512
    ensures lo < hi ==>
              var r' := FreeLeaves(r, tab[(1, lo / 512)], lo, hi);
              && Owned(r', root, tab, free', Without(leaf, lo, hi))
              && Freed(r.mem, tab, free, r'.mem, tab, free', leaf, 1, lo, hi)
    decreases hi - lo
  {
    free' := free;
    if lo < hi {
      var t := tab[(1, lo / 512)];
      var r1 := FreeLeaf(r, t, lo);
      var free1 := FreeLeafFrees(r, root, tab, free, leaf, lo);
      if lo + 1 == hi {
        free' := free1;
        assert FreeLeaves(r1, t, hi, hi) == r1;
      } else {
        assert (lo + 1) / 512 == lo / 512;
        free' := FreeLeavesFrees(r1, root, tab, free1, Without(leaf, lo, lo + 1), lo + 1, hi);
        var r2 := FreeLeaves(r1, t, lo + 1, hi);
        FirstAligned(1, lo + 1);
        FreedTrans(r.mem, tab, free, r1.mem, tab, free1, r2.mem, tab, free', leaf, 1, lo, lo + 1, hi);
      }
    }
  }

  lemma ApartSub(free: seq<nat>, tab: Tab, tab': Tab)
    requires Apart(free, tab) && Sub(tab', tab)
    ensures Apart(free, tab')
  {
    forall i, l, p | 0 <= i < |free| && (l, p) in tab' ensures free[i] != tab'[(l, p)] {
      assert Versus(0, i, l, p);
    }
  }

  /** An emptied child table is unlinked and freed. */
  lemma DropChild(r: Ram, root: nat, tab: Tab, free: seq<nat>, leaf: map<nat, nat>, l: nat, p: nat, i: nat)
    requires Owned(r, root, tab, free, leaf) && 2 <= l <= 4 && (l, p) in tab && i < ENTRIES
    requires (l - 1, p * 512 + i) in tab && EmptyTable(r.mem, tab[(l - 1, p * 512 + i)])
    ensures var x, tab' := tab[(l - 1, p * 512 + i)], tab - {(l - 1, p * 512 + i)};
            Owned(ClearEntry(PutPage(r, x), tab[(l, p)], i), root, tab', [x] + free, leaf)
  {
    var c, t := p * 512 + i, tab[(l, p)];
    var x, tab' := tab[(l - 1, c)], tab - {(l - 1, c)};
    var r1 := PutPage(r, x);
    var r' := ClearEntry(r1, t, i);
    TableNotFree(free, tab, l - 1, c);
    TableNotFree(free, tab, l, p);
    TellApart(tab, l, p, l - 1, c);
    FreeListPush(r.mem, r.head, free, x, FreePageContents(r.head));
    FreeListFrame(r1.mem, r1.head, [x] + free, t, r1.mem[t][i := 0]);
    TablesRemove(r.mem, root, tab, l, p, i);
    var memR := SetEntry(r.mem, t, i, 0);
    assert r'.mem == memR[x := r1.mem[x]];
    forall m, q | (m, q) in tab' ensures tab'[(m, q)] != x { TellApart(tab, m, q, l - 1, c); }
    TablesFrame(memR, root, tab', x, r1.mem[x]);
    ApartSub(free, tab, tab');
    ApartPush(free, tab', x);
    SameLeaves(r.mem, tab, r'.mem, tab', leaf);
    forall j, v | 0 <= j < |[x] + free| && v in leaf ensures ([x] + free)[j] != leaf[v] {
      assert Versus(j - 1, 0, v, 0);
      assert Versus(0, v, l - 1, c);
    }
  }

  lemma SameLeaves(mem: seq<Page>, tab: Tab, mem': seq<Page>, tab': Tab, leaf: map<nat, nat>)
    requires Leaves(mem, tab, leaf) && SameLookups(mem, tab, mem', tab') && |mem'| == |mem|
    requires Sub(tab', tab)
    ensures Leaves(mem', tab', leaf)
  {
    forall v, l, p | v in leaf && (l, p) in tab' ensures leaf[v] != tab'[(l, p)] {
      assert Versus(0, v, l, p);
    }
  }

  /** `Owned` before and after, and everything that changed in between. */
  ghost predicate Done(r: Ram, tab: Tab, free: seq<nat>, r': Ram, root: nat, tab': Tab, free': seq<nat>,
                       leaf: map<nat, nat>, l: nat, lo: nat, hi: nat) {
    && Owned(r', root, tab', free', Without(leaf, lo, hi))
    && Freed(r.mem, tab, free, r'.mem, tab', free', leaf, l, lo, hi)
  }

  lemma DoneTrans(r: Ram, tab: Tab, free: seq<nat>, r1: Ram, root: nat, tab1: Tab, free1: seq<nat>,
                  r2: Ram, tab2: Tab, free2: seq<nat>, leaf: map<nat, nat>, l: nat, lo: nat, mid: nat, hi: nat)
    requires Done(r, tab, free, r1, root, tab1, free1, leaf, l, lo, mid)
    requires Done(r1, tab1, free1, r2, root, tab2, free2, Without(leaf, lo, mid), l, mid, hi)
    requires lo <= mid <= hi && l <= 4 && Aligned(l, mid)
    ensures Done(r, tab, free, r2, root, tab2, free2, leaf, l, lo, hi)
  {
    FreedTrans(r.mem, tab, free, r1.mem, tab1, free1, r2.mem, tab2, free2, leaf, l, lo, mid, hi);
  }

  /** What the code does with a child once the range below it is freed. */
  function AfterChild(r: Ram, l: nat, t: nat, va: nat, x: nat): (r': Ram)
    requires 2 <= l <= 4
    ensures |r'.mem| == |r.mem|
  {
    if ZeroTable(r, x) then ClearEntry(PutPage(r, x), t, Index(l, va)) else r
  }

  lemma ChildDone(r: Ram, tab: Tab, free: seq<nat>, r1: Ram, root: nat, tab1: Tab, free1: seq<nat>, leaf: map<nat, nat>,
                  l: nat, p: nat, va: nat, lo: nat, hi: nat)
    returns (tab': Tab, free': seq<nat>)
    requires 2 <= l <= 4 && lo < hi && Done(r, tab, free, r1, root, tab1, free1, leaf, l - 1, lo, hi)
    requires Pre(l - 1, lo) == Pre(l - 1, hi - 1) == p * 512 + Index(l, va)
    requires (l, p) in tab1 && (l - 1, p * 512 + Index(l, va)) in tab1
    ensures var x, t := tab1[(l - 1, p * 512 + Index(l, va))], tab1[(l, p)];
            Done(r, tab, free, AfterChild(r1, l, t, va, x), root, tab', free', leaf, l, lo, hi)
  {
    var i := Index(l, va);
    var c := p * 512 + i;
    var x := tab1[(l - 1, c)];
    if ZeroTable(r1, x) {
      ChildRemoved(r.mem, tab, free, r1.mem, root, tab1, free1, PutPage(r1, x).mem, leaf, l, p, i, lo, hi);
      DropChild(r1, root, tab1, free1, Without(leaf, lo, hi), l, p, i);
      tab', free' := tab1 - {(l - 1, c)}, [x] + free1;
    } else {
      tab', free' := tab1, free1;
      ChildKept(r.mem, tab, free, r1.mem, root, tab1, free1, leaf, l, c, lo, hi);
    }
  }

  lemma {:induction false} FreeChildFrees(r: Ram, root: nat, tab: Tab, free: seq<nat>, leaf: map<nat, nat>,
                                          l: nat, p: nat, va: nat, lo: nat, hi: nat, r': Ram)
    returns (tab': Tab, free': seq<nat>)
    requires Owned(r, root, tab, free, leaf) && 2 <= l <= 4 && (l, p) in tab && lo < hi <= USER_VPNS
    requires Pre(l - 1, lo) == Pre(l - 1, hi - 1) == Pre(l - 1, va) == p * 512 + Index(l, va)
    requires r' == FreeChild(r, l, tab[(l, p)], va, lo, hi)
    ensures Done(r, tab, free, r', root, tab', free', leaf, l, lo, hi)
    decreases l, 0, 0
  {
    var i, t := Index(l, va), tab[(l, p)];
    var c := p * 512 + i;
    assert Linked(r.mem, tab, l, p, i);
    if (l - 1, c) !in tab {
      tab', free' := tab, free;
      ChildAbsent(r.mem, root, tab, free, leaf, l, c, lo, hi);
    } else {
      var x := tab[(l - 1, c)];
      var r1 := FreeTable(r, l - 1, x, lo, hi);
      var tab1, free1 := FreeTableFrees(r, root, tab, free, leaf, l - 1, c, lo, hi);
      assert r' == AfterChild(r1, l, t, va, x);
      tab', free' := ChildDone(r, tab, free, r1, root, tab1, free1, leaf, l, p, va, lo, hi);
    }
  }

  lemma {:induction false} ChildrenStep(r: Ram, l: nat, t: nat, va: nat, lo: nat, hi: nat, r1: Ram, r': Ram)
    requires 2 <= l <= 4 && va < hi && r' == FreeChildren(r, l, t, va, lo, hi)
    requires r1 == FreeChild(r, l, t, va, Max(lo, va), Min(hi, va + EntrySpan(l)))
    ensures if va + EntrySpan(l) >= hi then r' == r1 else r' == FreeChildren(r1, l, t, va + EntrySpan(l), lo, hi)
  {
  }

  /** The loop over the entries from the one that covers `va` on; `lo` is where freeing starts. */
  lemma {:induction false} FreeChildrenFrees(r: Ram, root: nat, tab: Tab, free: seq<nat>, leaf: map<nat, nat>,
                                             l: nat, p: nat, va: nat, lo: nat, hi: nat, r': Ram)
    returns (tab': Tab, free': seq<nat>)
    requires Owned(r, root, tab, free, leaf) && 2 <= l <= 4 && (l, p) in tab && Max(lo, va) < hi <= USER_VPNS
    requires va == First(l - 1, Pre(l - 1, va)) && Pre(l - 1, Max(lo, va)) == Pre(l - 1, va)
    requires Pre(l, va) == p == Pre(l, hi - 1)
    requires r' == FreeChildren(r, l, tab[(l, p)], va, lo, hi)
    ensures Done(r, tab, free, r', root, tab', free', leaf, l, Max(lo, va), hi)
    decreases l, 1, hi - va
  {
    var start, next := Max(lo, va), va + EntrySpan(l);
    var t, end := tab[(l, p)], Min(hi, next);
    var r1 := FreeChild(r, l, t, va, start, end);
    ChildrenStep(r, l, t, va, lo, hi, r1, r');
    ChildBounds(l, p, va, start, hi);
    var tab1, free1 := FreeChildFrees(r, root, tab, free, leaf, l, p, va, start, end, r1);
    if next >= hi {
      tab', free' := tab1, free1;
    } else {
      tab', free' := FreeChildrenFrees(r1, root, tab1, free1, Without(leaf, start, next), l, p, next, lo, hi, r');
      DoneTrans(r, tab, free, r1, root, tab1, free1, r', tab', free', leaf, l, start, next, hi);
    }
  }

  lemma FirstNext(l: nat, c: nat)
    requires l <= 3
    ensures First(l, c + 1) == First(l, c) + EntrySpan(l + 1)
  {
  }

  /** The part of the range that one entry covers, */
  lemma ChildHere(l: nat, va: nat, start: nat, hi: nat)
    requires 2 <= l <= 4 && va <= start < hi && va == First(l - 1, Pre(l - 1, va))
    requires Pre(l - 1, start) == Pre(l - 1, va)
    ensures var next := va + EntrySpan(l);
            start < Min(hi, next) && Pre(l - 1, Min(hi, next) - 1) == Pre(l - 1, va)
  {
    var c := Pre(l - 1, va);
    FirstNext(l - 1, c);
    PreFirst(l - 1, c, start);
    PreFirst(l - 1, c, Min(hi, va + EntrySpan(l)) - 1);
  }

  /** and where the next entry takes over. */
  lemma ChildNext(l: nat, p: nat, va: nat, next: nat, hi: nat)
    requires 2 <= l <= 4 && va == First(l - 1, Pre(l - 1, va)) && next == va + EntrySpan(l) < hi
    requires Pre(l, va) == p == Pre(l, hi - 1)
    ensures next == First(l - 1, Pre(l - 1, next)) && Pre(l, next) == p && Aligned(l, next)
  {
    var c := Pre(l - 1, va);
    FirstNext(l - 1, c);
    FirstNext(l - 1, c + 1);
    PreFirst(l - 1, c + 1, next);
    PreMono(l, va, next);
    PreMono(l, next, hi - 1);
    FirstAligned(l, c + 1);
  }

  lemma ChildBounds(l: nat, p: nat, va: nat, start: nat, hi: nat)
    requires 2 <= l <= 4 && va <= start < hi && va == First(l - 1, Pre(l - 1, va))
    requires Pre(l - 1, start) == Pre(l - 1, va) && Pre(l, va) == p == Pre(l, hi - 1)
    ensures var next := va + EntrySpan(l);
            && start < Min(hi, next) && Pre(l - 1, Min(hi, next) - 1) == Pre(l - 1, va) == p * 512 + Index(l, va)
            && (next < hi ==> next == First(l - 1, Pre(l - 1, next)) && Pre(l, next) == p && Aligned(l, next))
  {
    ChildHere(l, va, start, hi);
    PrePre(l, l - 1, va);
    if va + EntrySpan(l) < hi {
      ChildNext(l, p, va, va + EntrySpan(l), hi);
    }
  }

  /** Freeing page numbers `lo ..< hi` below the table `(l, p)` that serves them all. */
  lemma {:induction false} FreeTableFrees(r: Ram, root: nat, tab: Tab, free: seq<nat>, leaf: map<nat, nat>,
                                          l: nat, p: nat, lo: nat, hi: nat)
    returns (tab': Tab, free': seq<nat>)
    requires Owned(r, root, tab, free, leaf) && 1 <= l <= 4 && (l, p) in tab && lo < hi <= USER_VPNS
    requires Pre(l, lo) == p == Pre(l, hi - 1)
    ensures Done(r, tab, free, FreeTable(r, l, tab[(l, p)], lo, hi), root, tab', free', leaf, l, lo, hi)
    decreases l, 2, 0
  {
    if l == 1 {
      tab' := tab;
      free' := FreeLeavesFrees(r, root, tab, free, leaf, lo, hi);
    } else {
      var va := lo - lo % EntrySpan(l);
      RoundDown(l, lo);
      tab', free' := FreeChildrenFrees(r, root, tab, free, leaf, l, p, va, lo, hi,
                                       FreeChildren(r, l, tab[(l, p)], va, lo, hi));
    }
  }

  lemma RoundDown(l: nat, lo: nat)
    requires 2 <= l <= 4
    ensures var va := lo - lo % EntrySpan(l);
            && 0 <= va <= lo && Pre(l - 1, va) == Pre(l - 1, lo) && Pre(l, va) == Pre(l, lo)
            && va == First(l - 1, Pre(l - 1, va))
  {
    var va, c := lo - lo % EntrySpan(l), lo / EntrySpan(l);
    assert va == c * EntrySpan(l);
    PreFirst(l - 1, c, va);
    PreFirst(l - 1, c, lo);
    PrePre(l, l - 1, va);
    PrePre(l, l - 1, lo);
  }
}
