/** `adjsize`: a process grows and shrinks below its stack (kernel/src/proc.rs:309-330,
    kernel/src/vm.rs:362-395). */
module PageGrow {
  import opened PhysMem
  import opened PageTree
  import opened PageFree
  import opened PageTables
  import opened PageDup
  import opened PageAlloc

  const USIZE: nat := 0x1_0000_0000_0000_0000
  const USEREND: nat := USER_VPNS * PAGE_SIZE
  const WRITE_USER: nat := 6   // PageFlags::USER | PageFlags::WRITE

  /** Page number `v` is mapped to a page of zeros that user code can read, write and execute. */
  ghost predicate HeapPage(mem: seq<Page>, tab: Tab, leaf: map<nat, nat>, v: nat) {
    && v in leaf && EmptyTable(mem, leaf[v]) && Lookup(mem, tab, v).Some?
    && var e := Lookup(mem, tab, v).value;
       Frame(e) == leaf[v] && Present(e) && Writable(e) && User(e) && e / NX % 2 == 0
  }

  lemma GrownPages(mem: seq<Page>, tab: Tab, leaf: map<nat, nat>, lo: nat, hi: nat)
    requires Leaves(mem, tab, leaf) && Granted(mem, tab, lo, hi, WRITE_USER)
    requires Cleared(mem, tab, leaf, lo, hi, WithUser(WRITE_USER))
    ensures forall v :: lo <= v < hi ==> HeapPage(mem, tab, leaf, v)
  {
    forall v | lo <= v < hi ensures HeapPage(mem, tab, leaf, v) {
      assert ClearedAt(mem, tab, leaf, v, WithUser(WRITE_USER));
      assert Grants(Lookup(mem, tab, v).value, WRITE_USER);
    }
  }

  /** The mapped page numbers of a process: those below `n`, and the stack. */
  ghost predicate ProcessSpace(leaf: map<nat, nat>, n: nat) {
    forall v {:trigger v in leaf} :: v in leaf <==> 0 <= v < n || STACK <= v < USER_VPNS
  }

  // How many pages can be free.

  /** How many page numbers below `n` are mapped. */
  ghost function Count(leaf: map<nat, nat>, n: nat): nat {
    if n == 0 then 0 else Count(leaf, n - 1) + One(n - 1 in leaf)
  }

  /** No page is mapped at two page numbers. */
  ghost predicate OnePlace(leaf: map<nat, nat>) {
    forall v, w {:trigger Versus(0, v, 0, w)} :: Versus(0, v, 0, w) ==>
      v in leaf && w in leaf && leaf[v] == leaf[w] ==> v == w
  }

  lemma {:induction false} CountPages(leaf: map<nat, nat>, n: nat)
    requires OnePlace(leaf)
    ensures |PagesBelow(leaf, n)| == Count(leaf, n)
  {
    if n > 0 {
      CountPages(leaf, n - 1);
      if n - 1 in leaf {
        NewPage(leaf, n - 1);
        UnionSize(PagesBelow(leaf, n - 1), {leaf[n - 1]});
      }
    }
  }

  lemma NewPage(leaf: map<nat, nat>, v: nat)
    requires OnePlace(leaf) && v in leaf
    ensures leaf[v] !in PagesBelow(leaf, v)
  {
    if leaf[v] in PagesBelow(leaf, v) {
      var w := PageIn(leaf, v, leaf[v]);
      assert Versus(0, w, 0, v);
    }
  }

  lemma UnionSize(a: set<nat>, b: set<nat>)
    requires a !! b
    ensures |a + b| == |a| + |b|
  {
  }

  lemma {:induction false} CountSpace(leaf: map<nat, nat>, n: nat, k: nat)
    requires ProcessSpace(leaf, n) && n <= STACK && k <= STACK
    ensures Count(leaf, k) == if k < n then k else n
  {
    if k > 0 { CountSpace(leaf, n, k - 1); }
  }

  lemma CountProcess(leaf: map<nat, nat>, n: nat)
    requires ProcessSpace(leaf, n) && n <= STACK
    ensures Count(leaf, USER_VPNS) == n + 4
  {
    CountSpace(leaf, n, STACK);
    assert Count(leaf, STACK + 1) == n + 1 && Count(leaf, STACK + 2) == n + 2;
    assert Count(leaf, STACK + 3) == n + 3 && Count(leaf, STACK + 4) == n + 4;
  }

  ghost function Listed(s: seq<nat>, n: nat): set<nat>
    requires n <= |s|
  {
    if n == 0 then {} else Listed(s, n - 1) + {s[n - 1]}
  }

  lemma {:induction false} ListedIn(s: seq<nat>, n: nat, x: nat)
    requires n <= |s|
    ensures x in Listed(s, n) <==> x in s[.. n]
  {
    if n > 0 {
      ListedIn(s, n - 1, x);
      assert s[.. n] == s[.. n - 1] + [s[n - 1]];
    }
  }

  lemma {:induction false} ListedSize(s: seq<nat>, n: nat)
    requires Distinct(s) && n <= |s|
    ensures |Listed(s, n)| == n
  {
    if n > 0 {
      ListedSize(s, n - 1);
      ListedIn(s, n - 1, s[n - 1]);
      forall i | 0 <= i < n - 1 ensures s[i] != s[n - 1] { assert Places(i, n - 1); }
    }
  }

  /** The free pages, the mapped ones and the root are different pages of memory. */
  lemma FreeAndMapped(r: Ram, root: nat, tab: Tab, free: seq<nat>, leaf: map<nat, nat>)
    requires Owned(r, root, tab, free, leaf)
    ensures |free| + Count(leaf, USER_VPNS) + 1 <= |r.mem|
  {
    var a, b := Listed(free, |free|), PagesBelow(leaf, USER_VPNS);
    ListedSize(free, |free|);
    CountPages(leaf, USER_VPNS);
    assert free[.. |free|] == free;
    forall x | x in a ensures x < |r.mem| && x != root && x !in b {
      ListedIn(free, |free|, x);
      TableNotFree(free, tab, 4, 0);
      if x in b {
        var v := PageIn(leaf, USER_VPNS, x);
        LeafNotFree(free, leaf, v);
      }
    }
    forall x | x in b ensures x < |r.mem| && x != root {
      var v := PageIn(leaf, USER_VPNS, x);
      assert Versus(0, v, 4, 0);
    }
    UnionSize(a, b);
    UnionSize(a + b, {root});
    FewPages(a + b + {root}, |r.mem|);
  }

  /** A process never has as many free pages as growing to the stack takes. */
  lemma FreeBelowStack(r: Ram, root: nat, tab: Tab, free: seq<nat>, leaf: map<nat, nat>, n: nat)
    requires Owned(r, root, tab, free, leaf) && ProcessSpace(leaf, n)
    ensures n <= STACK && n + |free| < STACK
  {
    BelowStack(r, root, tab, free, leaf, n);
    CountProcess(leaf, n);
    FreeAndMapped(r, root, tab, free, leaf);
  }

  /** So growing past the stack always fails, before it gets there. */
  lemma NeverPastStack(r: Ram, root: nat, tab: Tab, free: seq<nat>, leaf: map<nat, nat>, lo: nat, hi: nat,
                       res: AllocResult)
    requires Owned(r, root, tab, free, leaf) && ProcessSpace(leaf, lo) && lo <= hi
    requires Decided(Needs(tab, lo, hi), |free|, res)
    ensures hi >= STACK ==> !res.Size?
  {
    FreeBelowStack(r, root, tab, free, leaf, lo);
    NeedsCount(tab, lo, hi, hi);
  }

  lemma StopsBelow(r: Ram, root: nat, tab: Tab, free: seq<nat>, leaf: map<nat, nat>, lo: nat, hi: nat, k: nat)
    requires Owned(r, root, tab, free, leaf) && ProcessSpace(leaf, lo) && lo + k <= hi
    requires Needs(tab, lo, hi)[k] <= |free|
    ensures lo + k < STACK
  {
    FreeBelowStack(r, root, tab, free, leaf, lo);
    NeedsCount(tab, lo, lo + k, hi);
  }

  datatype AdjResult = OldSize(n: nat) | Underflow | Refused(why: AllocResult)

  /** `dealloc_user`. */
  method Shrink(pt: PageTable, oldSize: nat, newSize: nat, ghost leaf: map<nat, nat>, ghost all: seq<nat>)
    requires pt.Owns(leaf) && MadeOf(all, pt.memory.free, pt.tab, leaf) && newSize <= oldSize <= USEREND
    modifies pt, pt.memory
    ensures pt.Owns(Without(leaf, RoundUp(newSize), RoundUp(oldSize)))
    ensures MadeOf(all, pt.memory.free, pt.tab, Without(leaf, RoundUp(newSize), RoundUp(oldSize)))
    ensures OthersSame(old(pt.memory.mem), old(pt.tab), pt.memory.mem, pt.tab, RoundUp(newSize), RoundUp(oldSize))
  {
    if newSize >= oldSize {
      assert Without(leaf, RoundUp(newSize), RoundUp(oldSize)) == leaf;
      return;
    }
    ghost var r, tab, free, lo, hi := pt.Phys(), pt.tab, pt.memory.free, RoundUp(newSize), RoundUp(oldSize);
    pt.FreeUserPages(newSize, oldSize, leaf);
    if lo < hi {
      assert [] + free == free && [] + pt.memory.free == pt.memory.free;
      FreedConserves(r, pt.root, tab, free, leaf, pt.Phys(), pt.tab, pt.memory.free, lo, hi, [], all);
    } else {
      assert Without(leaf, lo, hi) == leaf;
    }
  }

  /** What a failing growth of a process from `lo` to `hi` pages leaves mapped. */
  lemma FailedSpace(leaf: map<nat, nat>, lo: nat, hi: nat)
    requires ProcessSpace(leaf, lo) && lo <= STACK && lo <= hi <= USER_VPNS
    ensures ProcessSpace(Without(leaf, lo, hi), lo) <==> hi <= STACK
    ensures forall v :: lo <= v < STACK ==> v !in leaf
  {
    assert STACK in leaf;
    assert hi > STACK ==> STACK !in Without(leaf, lo, hi);
  }

  lemma WithinUser(size: nat)
    ensures size <= USEREND <==> RoundUp(size) <= USER_VPNS
  {
  }

  /** Sizes are far from the width of a word: the sum wraps only below zero, so the test for "grow:
      overflow" never holds. */
  lemma NewSize(size: nat, delta: int)
    requires RoundUp(size) <= STACK && -(USIZE / 2) <= delta < USIZE / 2
    ensures (size + delta) % USIZE == if size + delta >= 0 then size + delta else size + delta + USIZE
    ensures size < USIZE / 2 && size <= USEREND
  {
    assert size <= STACK * PAGE_SIZE;
    if size + delta < 0 { assert (size + delta + USIZE) % USIZE == size + delta + USIZE; }
  }

  /** The growing half of `adjsize`. A growth that fails leaves the process its pages exactly when
      it would have ended below the stack: otherwise the pages of the stack up to the new size are
      gone. */
  method Grow(pt: PageTable, size: nat, newSize: nat, ghost leaf: map<nat, nat>, ghost all: seq<nat>)
    returns (res: AllocResult, ghost leaf': map<nat, nat>)
    requires pt.Owns(leaf) && MadeOf(all, pt.memory.free, pt.tab, leaf) && ProcessSpace(leaf, RoundUp(size))
    requires size <= newSize
    modifies pt, pt.memory
    ensures pt.Owns(leaf') && MadeOf(all, Held(res) + pt.memory.free, pt.tab, leaf')
    ensures Astray(Held(res), pt.memory.free, pt.tab, leaf')
    ensures res.TooLarge? <==> newSize > USEREND
    ensures res.Size? <==>
              newSize == size ||
              (RoundUp(newSize) <= STACK && Enough(old(pt.tab), old(pt.memory.free), size, newSize))
    ensures res.Size? ==> ProcessSpace(leaf', RoundUp(newSize))
    ensures res.Size? ==>
              && (forall v :: RoundUp(size) <= v < RoundUp(newSize) ==> HeapPage(pt.memory.mem, pt.tab, leaf', v))
              && OthersSame(old(pt.memory.mem), old(pt.tab), pt.memory.mem, pt.tab, RoundUp(size), RoundUp(newSize))
    ensures !res.Size? ==> leaf' == if res.TooLarge? then leaf else Without(leaf, RoundUp(size), RoundUp(newSize))
    ensures !res.Size? && !res.TooLarge? ==>
              Decided(Needs(old(pt.tab), RoundUp(size), RoundUp(newSize)), |old(pt.memory.free)|, res)
    ensures !res.Size? ==> (ProcessSpace(leaf', RoundUp(size)) <==> RoundUp(newSize) <= STACK || newSize > USEREND)
  {
    ghost var r, tab, free, lo, hi := pt.Phys(), pt.tab, pt.memory.free, RoundUp(size), RoundUp(newSize);
    FreeBelowStack(r, pt.root, tab, free, leaf, lo);
    WithinUser(newSize);
    ghost var stop;
    res, leaf', stop := AllocUser(pt, size, newSize, WRITE_USER, leaf, all);
    if !res.TooLarge? && size < newSize {
      NeverPastStack(r, pt.root, tab, free, leaf, lo, hi, res);
      if !res.Size? { StopsBelow(r, pt.root, tab, free, leaf, lo, hi, stop - lo); }
      FailedSpace(leaf, lo, hi);
      assert stop <= STACK;
      if res.Size? { GrownPages(pt.memory.mem, pt.tab, leaf', lo, hi); }
    }
    NoPagesAt(leaf, lo, stop);
    assert [] + Held(res) == Held(res);
  }

  /** As many pages are free as growing takes. */
  ghost predicate Enough(tab: Tab, free: seq<nat>, size: nat, newSize: nat)
    requires size <= newSize
  {
    |free| >= Needs(tab, RoundUp(size), RoundUp(newSize))[RoundUp(newSize) - RoundUp(size)]
  }

  /** `adjsize`: it succeeds exactly when a negative amount is within the size, or a positive one ends
      below the stack and enough pages are free. When it fails the process keeps its pages, except
      where the new size lies in the stack. */
  method AdjSize(pt: PageTable, size: nat, delta: int, ghost leaf: map<nat, nat>, ghost all: seq<nat>)
    returns (res: AdjResult, size': nat, ghost leaf': map<nat, nat>)
    requires pt.Owns(leaf) && MadeOf(all, pt.memory.free, pt.tab, leaf) && ProcessSpace(leaf, RoundUp(size))
    requires -(USIZE / 2) <= delta < USIZE / 2
    modifies pt, pt.memory
    ensures pt.Owns(leaf')
    ensures res.OldSize? ==> res.n == size && size' == size + delta && ProcessSpace(leaf', RoundUp(size'))
    ensures res.OldSize? && delta >= 0 ==>
              && (forall v :: RoundUp(size) <= v < RoundUp(size') ==> HeapPage(pt.memory.mem, pt.tab, leaf', v))
              && OthersSame(old(pt.memory.mem), old(pt.tab), pt.memory.mem, pt.tab, RoundUp(size), RoundUp(size'))
    ensures !res.OldSize? ==> size' == size
    ensures res.Underflow? <==> size + delta < 0
    ensures delta < 0 ==> (res.OldSize? <==> size + delta >= 0)
    ensures delta >= 0 ==>
              (res.OldSize? <==>
                 delta == 0 ||
                 (RoundUp(size + delta) <= STACK && Enough(old(pt.tab), old(pt.memory.free), size, size + delta)))
    ensures res.Refused? ==> delta > 0 && (res.why.TooLarge? <==> size + delta > USEREND)
    ensures res.Refused? && !res.why.TooLarge? ==>
              && leaf' == Without(leaf, RoundUp(size), RoundUp(size + delta))
              && Decided(Needs(old(pt.tab), RoundUp(size), RoundUp(size + delta)), |old(pt.memory.free)|, res.why)
    ensures !res.OldSize? ==>
              (ProcessSpace(leaf', RoundUp(size)) <==>
                 delta < 0 || RoundUp(size + delta) <= STACK || size + delta > USEREND)
    ensures var lost := if res.Refused? then Held(res.why) else [];
            MadeOf(all, lost + pt.memory.free, pt.tab, leaf') && Astray(lost, pt.memory.free, pt.tab, leaf')
  {
    FreeBelowStack(pt.Phys(), pt.root, pt.tab, pt.memory.free, leaf, RoundUp(size));
    NewSize(size, delta);
    assert [] + pt.memory.free == pt.memory.free;
    leaf', size' := leaf, size;
    var newSize := (size + delta) % USIZE;
    if delta < 0 {
      if newSize > size { return Underflow, size, leaf; }
      Shrink(pt, size, newSize, leaf, all);
      leaf' := Without(leaf, RoundUp(newSize), RoundUp(size));
      assert [] + pt.memory.free == pt.memory.free;
    } else {
      var got;
      got, leaf' := Grow(pt, size, newSize, leaf, all);
      if !got.Size? { return Refused(got), size, leaf'; }
      assert Held(got) == [];
    }
    res, size' := OldSize(size), newSize;
  }

  /** The stack takes its four pages and the three tables above them. */
  lemma StackNeeds(tab: Tab)
    requires tab == map[(4, 0) := 0]
    ensures Needs(tab, STACK, USER_VPNS) == [0, 4, 5, 6, 7]
  {
    var n0, n1, n2, n3 := Needs(tab, STACK, STACK), Needs(tab, STACK, STACK + 1), Needs(tab, STACK, STACK + 2),
                          Needs(tab, STACK, STACK + 3);
    assert n0 == [0];
    assert n1 == [0, 4];
    assert n2 == [0, 4, 5];
    assert n3 == [0, 4, 5, 6];
  }

  lemma NewAccount(tab: Tab, free: seq<nat>)
    requires tab == map[(4, 0) := 0]
    ensures MadeOf([0] + free, free, tab, map[])
  {
    assert (4, 0) in tab && !KernKey(4, 0) && tab[(4, 0)] == 0;
    forall q | Entry(q) ensures q in [0] + free <==> q in free || SpacePage(tab, map[], q) {
      assert UserTable(tab, q) <==> q == 0;
    }
  }

  lemma StackOnly(leaf: map<nat, nat>)
    requires Extends(map[], leaf, STACK, USER_VPNS)
    ensures ProcessSpace(leaf, 0) && Without(leaf, 0, USER_VPNS) == map[]
  {
  }

  lemma Bounds()
    ensures RoundUp(0) == 0 && RoundUp(STACK * PAGE_SIZE) == STACK && RoundUp(USEREND) == USER_VPNS
    ensures STACK * PAGE_SIZE < USEREND
  {
  }

  /** An address space without user pages over eight pages of memory, seven of them free. */
  method NewSpace() returns (pt: PageTable)
    ensures fresh(pt) && fresh(pt.memory) && pt.Owns(map[]) && pt.tab == map[(4, 0) := 0] && |pt.memory.free| == 7
    ensures MadeOf([0] + pt.memory.free, pt.memory.free, pt.tab, map[])
  {
    var memory := new Memory(seq(8, i => ZERO_PAGE));
    memory.FreePages(1, 8);
    SevenPages();
    ghost var tab: Tab := map[(4, 0) := 0];
    pt := new PageTable(memory, 0, tab);
    BareSpace(pt.Phys(), memory.free);
    NewAccount(tab, memory.free);
  }

  lemma SevenPages()
    ensures Downwards(1, 8) == [7, 6, 5, 4, 3, 2, 1]
  {
    assert Downwards(1, 4) == [3, 2, 1];
    assert Downwards(1, 6) == [5, 4, 3, 2, 1];
  }

  lemma StackMapped(mem: seq<Page>, tab: Tab, free: seq<nat>, mem': seq<Page>, tab': Tab, free': seq<nat>,
                    leaf': map<nat, nat>, flags: nat, stop: nat, res: AllocResult)
    requires tab == map[(4, 0) := 0] && |free| == 7
    requires Allocated(mem, tab, free, map[], mem', tab', free', leaf', STACK, USER_VPNS, flags, stop, res)
    ensures free' == [] && ProcessSpace(leaf', 0) && Without(leaf', 0, USER_VPNS) == map[]
    ensures PagesAt(map[], STACK, stop) + Held(res) == []
  {
    StackNeeds(tab);
    StackOnly(leaf');
    NoPagesAt(map[], STACK, stop);
  }

  /** A process of no pages but its stack, with memory for no more. */
  method StackSpace() returns (pt: PageTable, ghost leaf: map<nat, nat>, ghost all: seq<nat>)
    ensures fresh(pt) && fresh(pt.memory) && pt.Owns(leaf) && MadeOf(all, pt.memory.free, pt.tab, leaf)
    ensures ProcessSpace(leaf, 0) && Without(leaf, 0, USER_VPNS) == map[] && pt.memory.free == []
  {
    pt := NewSpace();
    ghost var mem, tab, free := pt.memory.mem, pt.tab, pt.memory.free;
    all := [0] + free;
    Bounds();
    var res;
    ghost var stop;
    res, leaf, stop := AllocUser(pt, STACK * PAGE_SIZE, USEREND, WRITE_USER, map[], all);
    StackMapped(mem, tab, free, pt.memory.mem, pt.tab, pt.memory.free, leaf, WithUser(WRITE_USER), stop, res);
    assert [] + pt.memory.free == pt.memory.free;
  }

  /** Such a process asks for memory up to the end of user space: the call fails, and its stack is
      gone. */
  method LosesStack() returns (res: AdjResult, pt: PageTable)
    ensures res == Refused(NoPage) && pt.Owns(map[])
  {
    ghost var leaf, all, leaf';
    pt, leaf, all := StackSpace();
    var size;
    ghost var tab := pt.tab;
    Bounds();
    res, size, leaf' := AdjSize(pt, 0, USEREND, leaf, all);
    NoPageAtOnce(tab, 0, USER_VPNS, res.why);
  }

  lemma NoPageAtOnce(tab: Tab, lo: nat, hi: nat, res: AllocResult)
    requires lo < hi && Decided(Needs(tab, lo, hi), 0, res)
    ensures res.NoPage?
  {
    NeedsAt(tab, lo, hi, lo);
  }
}
