/** The free list of the K&R allocator as a list of blocks, in units of one header
    (ulib/src/malloc.rs:44-88, 136-159). */
module FreeBlocks {

  datatype Blk = Blk(addr: nat, n: nat) {
    function End(): nat { addr + n }
  }

  function Sum(s: seq<Blk>): nat {
    if s == [] then 0 else s[0].n + Sum(s[1..])
  }

  lemma {:induction false} SumConcat(a: seq<Blk>, b: seq<Blk>)
    ensures Sum(a + b) == Sum(a) + Sum(b)
  {
    if a == [] {
      assert a + b == b;
    } else {
      SumConcat(a[1..], b);
      assert (a + b)[1..] == a[1..] + b;
    }
  }

  lemma SumAt(s: seq<Blk>, k: nat)
    requires k < |s|
    ensures Sum(s) == Sum(s[.. k]) + s[k].n + Sum(s[k + 1 ..])
  {
    assert s == s[.. k] + s[k ..];
    SumConcat(s[.. k], s[k ..]);
  }

  /** Names two blocks that are to be compared. */
  ghost predicate Pair(i: int, j: int) { true }

  /** `fl` begins with the empty block `base` below the heap; the others lie in the heap in address
      order, none empty, none overlapping and none adjacent. */
  ghost predicate FreeList(fl: seq<Blk>, base: nat, lo: nat, brk: nat) {
    && |fl| > 0 && fl[0] == Blk(base, 0) && base < lo <= brk
    && (forall i {:trigger fl[i]} :: 0 < i < |fl| ==> lo <= fl[i].addr && fl[i].n > 0 && fl[i].End() <= brk)
    && (forall i, j {:trigger Pair(i, j)} :: Pair(i, j) && 0 <= i < j < |fl| ==> fl[i].End() < fl[j].addr)
  }

  ghost predicate Apart(a: Blk, b: Blk) { a.End() <= b.addr || b.End() <= a.addr }

  /** Block `t` lies in the heap and touches no free block. */
  ghost predicate Outside(fl: seq<Blk>, lo: nat, brk: nat, t: Blk) {
    lo <= t.addr && t.End() <= brk && t.n > 0 && forall i {:trigger fl[i]} :: 0 < i < |fl| ==> Apart(fl[i], t)
  }

  /** `t` belongs right behind block `j`. */
  ghost predicate After(fl: seq<Blk>, j: nat, t: nat) {
    j < |fl| && fl[j].addr < t && (j + 1 < |fl| ==> t < fl[j + 1].addr)
  }

  predicate JoinsNext(fl: seq<Blk>, j: nat, t: Blk) {
    j + 1 < |fl| && t.End() == fl[j + 1].addr
  }

  predicate JoinsPrev(fl: seq<Blk>, j: nat, t: Blk)
    requires j < |fl|
  {
    fl[j].End() == t.addr
  }

  /** Blocks `i ..< k` give way to block `b`. */
  function Replace(fl: seq<Blk>, i: nat, k: nat, b: Blk): seq<Blk>
    requires i <= k <= |fl|
  {
    fl[.. i] + [b] + fl[k ..]
  }

  lemma ReplaceSum(fl: seq<Blk>, i: nat, k: nat, b: Blk)
    requires i <= k <= |fl|
    ensures Sum(Replace(fl, i, k, b)) + Sum(fl[i .. k]) == Sum(fl) + b.n
  {
    SumConcat(fl[.. i] + [b], fl[k ..]);
    SumConcat(fl[.. i], [b]);
    SumConcat(fl[.. i], fl[i .. k]);
    SumConcat(fl[.. k], fl[k ..]);
    assert fl == fl[.. k] + fl[k ..] && fl[.. k] == fl[.. i] + fl[i .. k];
  }

  lemma ReplaceIsFreeList(fl: seq<Blk>, base: nat, lo: nat, brk: nat, i: nat, k: nat, b: Blk)
    requires FreeList(fl, base, lo, brk) && 0 < i <= k <= |fl|
    requires lo <= b.addr && b.n > 0 && b.End() <= brk
    requires fl[i - 1].End() < b.addr && (k < |fl| ==> b.End() < fl[k].addr)
    ensures FreeList(Replace(fl, i, k, b), base, lo, brk)
  {
    var r := Replace(fl, i, k, b);
    forall x, y | 0 <= x < y < |r| ensures r[x].End() < r[y].addr {
      assert Pair(x, i - 1) && Pair(k, k + y - i - 1) && Pair(x, y) && Pair(x, k + y - i - 1) &&
             Pair(k + x - i - 1, k + y - i - 1);
    }
  }

  /** `t` with the block it touches behind it. */
  function Joined(fl: seq<Blk>, j: nat, t: Blk): Blk {
    if JoinsNext(fl, j, t) then Blk(t.addr, t.n + fl[j + 1].n) else t
  }

  function Behind(fl: seq<Blk>, j: nat, t: Blk): (k: nat)
    requires j < |fl|
    ensures j < k <= |fl|
  {
    if JoinsNext(fl, j, t) then j + 2 else j + 1
  }

  /** Where the block goes that `t` becomes, and that block. */
  function From(fl: seq<Blk>, j: nat, t: Blk): (i: nat)
    requires j < |fl|
    ensures j <= i <= j + 1
  {
    if JoinsPrev(fl, j, t) then j else j + 1
  }

  function Become(fl: seq<Blk>, j: nat, t: Blk): Blk
    requires j < |fl|
  {
    if JoinsPrev(fl, j, t) then Blk(fl[j].addr, fl[j].n + Joined(fl, j, t).n) else Joined(fl, j, t)
  }

  /** `t` is put behind block `j` and joined with its neighbours where it touches them. */
  function Add(fl: seq<Blk>, j: nat, t: Blk): seq<Blk>
    requires j < |fl|
  {
    Replace(fl, From(fl, j, t), Behind(fl, j, t), Become(fl, j, t))
  }

  lemma SliceSum(fl: seq<Blk>, j: nat)
    requires j < |fl|
    ensures Sum(fl[j .. j + 1]) == fl[j].n
    ensures j + 1 < |fl| ==> Sum(fl[j .. j + 2]) == fl[j].n + fl[j + 1].n
    ensures Sum(fl[j .. j]) == 0
  {
    assert fl[j .. j + 1] == [fl[j]];
    if j + 1 < |fl| {
      assert fl[j .. j + 2] == [fl[j]] + [fl[j + 1]];
      SumConcat([fl[j]], [fl[j + 1]]);
    }
  }

  lemma AddSum(fl: seq<Blk>, j: nat, t: Blk)
    requires j < |fl|
    ensures Sum(Add(fl, j, t)) == Sum(fl) + t.n
  {
    var i, k := From(fl, j, t), Behind(fl, j, t);
    ReplaceSum(fl, i, k, Become(fl, j, t));
    SliceSum(fl, j);
    if j + 1 < |fl| { SliceSum(fl, j + 1); }
    assert i == k ==> fl[i .. k] == [];
  }

  lemma JoinedFits(fl: seq<Blk>, base: nat, lo: nat, brk: nat, j: nat, t: Blk)
    requires FreeList(fl, base, lo, brk) && Outside(fl, lo, brk, t) && After(fl, j, t.addr)
    ensures var b, k := Joined(fl, j, t), Behind(fl, j, t);
            && b.addr == t.addr && b.End() <= brk && (k < |fl| ==> b.End() < fl[k].addr)
            && fl[j].End() <= t.addr && (j > 0 ==> fl[j - 1].End() < fl[j].addr) && (JoinsPrev(fl, j, t) ==> j > 0)
  {
    assert j > 0 ==> Apart(fl[j], t);
    assert j + 1 < |fl| ==> Apart(fl[j + 1], t);
    assert Pair(j - 1, j) && Pair(j + 1, j + 2);
  }

  /** Freeing keeps the list in address order without overlaps and without neighbours left apart. */
  lemma AddIsFreeList(fl: seq<Blk>, base: nat, lo: nat, brk: nat, j: nat, t: Blk)
    requires FreeList(fl, base, lo, brk) && Outside(fl, lo, brk, t) && After(fl, j, t.addr)
    ensures FreeList(Add(fl, j, t), base, lo, brk)
  {
    JoinedFits(fl, base, lo, brk, j, t);
    ReplaceIsFreeList(fl, base, lo, brk, From(fl, j, t), Behind(fl, j, t), Become(fl, j, t));
  }

  /** What is apart from `t` and from every block of the old list is apart from every block of the
      new one. */
  lemma AddKeepsApart(fl: seq<Blk>, base: nat, lo: nat, brk: nat, j: nat, t: Blk, o: Blk)
    requires FreeList(fl, base, lo, brk) && Outside(fl, lo, brk, t) && After(fl, j, t.addr)
    requires Outside(fl, lo, brk, o) && Apart(o, t)
    ensures Outside(Add(fl, j, t), lo, brk, o)
  {
    var r := Add(fl, j, t);
    assert Pair(j, j + 1);
    assert j > 0 ==> Apart(fl[j], o) && Apart(fl[j], t);
    assert j + 1 < |fl| ==> Apart(fl[j + 1], o) && Apart(fl[j + 1], t);
    var i := if JoinsPrev(fl, j, t) then j else j + 1;
    var k := if JoinsNext(fl, j, t) then j + 2 else j + 1;
    forall x | 0 < x < |r| ensures Apart(r[x], o) {
      if x < i {
        assert Apart(fl[x], o);
      } else if x > i {
        assert Apart(fl[k + x - i - 1], o);
      }
    }
  }

  // Taking.

  /** Block `i` gives up `n` units at its end, all of it if it has no more. */
  function Take(fl: seq<Blk>, i: nat, n: nat): seq<Blk>
    requires i < |fl| && n <= fl[i].n
  {
    if fl[i].n == n then fl[.. i] + fl[i + 1 ..] else Replace(fl, i, i + 1, Blk(fl[i].addr, fl[i].n - n))
  }

  function Taken(fl: seq<Blk>, i: nat, n: nat): Blk
    requires i < |fl| && n <= fl[i].n
  {
    Blk(fl[i].addr + fl[i].n - n, n)
  }

  lemma TakeSum(fl: seq<Blk>, i: nat, n: nat)
    requires i < |fl| && n <= fl[i].n
    ensures Sum(Take(fl, i, n)) + n == Sum(fl)
  {
    SumAt(fl, i);
    if fl[i].n == n {
      SumConcat(fl[.. i], fl[i + 1 ..]);
    } else {
      ReplaceSum(fl, i, i + 1, Blk(fl[i].addr, fl[i].n - n));
      assert fl[i .. i + 1] == [fl[i]];
    }
  }

  lemma TakeIsFreeList(fl: seq<Blk>, base: nat, lo: nat, brk: nat, i: nat, n: nat)
    requires FreeList(fl, base, lo, brk) && 0 < i < |fl| && 0 < n <= fl[i].n
    ensures FreeList(Take(fl, i, n), base, lo, brk)
  {
    var r := Take(fl, i, n);
    if fl[i].n == n {
      forall x, y | 0 <= x < y < |r| ensures r[x].End() < r[y].addr {
        if x < i { assert r[x] == fl[x]; } else { assert r[x] == fl[x + 1]; }
        if y < i { assert r[y] == fl[y]; } else { assert r[y] == fl[y + 1]; }
        assert Pair(x, y) && Pair(x, y + 1) && Pair(x + 1, y + 1);
      }
    } else {
      assert Pair(i - 1, i) && Pair(i, i + 1);
      ReplaceIsFreeList(fl, base, lo, brk, i, i + 1, Blk(fl[i].addr, fl[i].n - n));
    }
  }

  lemma TakenIsOutside(fl: seq<Blk>, base: nat, lo: nat, brk: nat, i: nat, n: nat)
    requires FreeList(fl, base, lo, brk) && 0 < i < |fl| && 0 < n <= fl[i].n
    ensures Outside(Take(fl, i, n), lo, brk, Taken(fl, i, n))
  {
    var r, t := Take(fl, i, n), Taken(fl, i, n);
    forall x | 0 < x < |r| ensures Apart(r[x], t) {
      var x' := if x < i || fl[i].n != n then x else x + 1;
      assert Pair(x', i) && Pair(i, x');
    }
  }

  lemma TakeKeepsApart(fl: seq<Blk>, base: nat, lo: nat, brk: nat, i: nat, n: nat, o: Blk)
    requires FreeList(fl, base, lo, brk) && 0 < i < |fl| && 0 < n <= fl[i].n && Outside(fl, lo, brk, o)
    ensures Outside(Take(fl, i, n), lo, brk, o) && Apart(o, Taken(fl, i, n))
  {
    var r := Take(fl, i, n);
    assert Apart(fl[i], o);
    forall x | 0 < x < |r| ensures Apart(r[x], o) {
      var x' := if x < i || fl[i].n != n then x else x + 1;
      assert Apart(fl[x'], o);
    }
  }
}
