/** Page-table entries as u64 values (kernel/src/vm.rs:14-79) and physical memory with its
    intrusive free list (kernel/src/kalloc.rs). */
module PhysMem {

  const PAGE_SIZE: nat := 4096
  const ENTRIES: nat := 512
  const KERNBASE: nat := 0xFFFF_8000_0000_0000
  /** 2^35: page numbers below this survive PHYS_PAGE_MASK. */
  const MAXPAGES: nat := 0x8_0000_0000
  const NX: nat := 0x8000_0000_0000_0000
  const SCRIBBLE: nat := 0xAAAA_AAAA_AAAA_AAAA

  // Entries. `|` of disjoint bits is `+`; masks are `/` and `%`.

  /** `PageFlags`: bits 0 to 8 and bit 63. */
  predicate IsFlags(f: nat) { f < 512 || NX <= f < NX + 512 }

  function Flags(e: nat): nat {
    e % 512 + (if e / NX % 2 == 1 then NX else 0)
  }

  predicate Present(e: nat) { e % 2 == 1 }
  predicate Writable(e: nat) { e / 2 % 2 == 1 }
  predicate User(e: nat) { e / 4 % 2 == 1 }

  /** An entry that lets user code through, to read and to write. */
  predicate Opens(e: nat) { Present(e) && Writable(e) && User(e) }

  // Bits of a number.

  lemma Halve(x: nat, h: nat, a: nat)
    requires x == 2 * h + a && a < 2
    ensures x / 2 == h && x % 2 == a
  {
  }

  lemma Quarter(x: nat, h: nat, a: nat)
    requires x == 4 * h + a && a < 4
    ensures x / 4 == h
  {
  }

  lemma Eighth(x: nat, h: nat, a: nat)
    requires x == 8 * h + a && a < 8
    ensures x / 8 == h
  {
  }

  /** The bits of a number that ends in the bits `c`, `b`, `a`. */
  lemma LastBits(e: nat, h: nat, c: nat, b: nat, a: nat)
    requires e == 8 * h + 4 * c + 2 * b + a && a < 2 && b < 2 && c < 2
    ensures e % 2 == a && e / 2 % 2 == b && e / 4 % 2 == c && e / 8 == h
  {
    Halve(e, 4 * h + 2 * c + b, a);
    Halve(e / 2, 2 * h + c, b);
    Quarter(e, 2 * h + c, 2 * b + a);
    Halve(e / 4, h, c);
    Eighth(e, h, 4 * c + 2 * b + a);
  }

  /** Every number is such a one. */
  lemma SplitBits(e: nat)
    ensures e == 8 * (e / 8) + 4 * (e / 4 % 2) + 2 * (e / 2 % 2) + e % 2
  {
    var h := e / 2;
    assert e == 2 * h + e % 2;
    var q := h / 2;
    assert h == 2 * q + h % 2;
    assert q == 2 * (q / 2) + q % 2;
    LastBits(e, q / 2, q % 2, h % 2, e % 2);
  }

  lemma OpensFlags(e: nat)
    requires Flags(e) == 7
    ensures Opens(e)
  {
    assert e % 512 == 7;
    LastBits(e, 64 * (e / 512), 1, 1, 1);
  }

  /** Page number of `phys_page_addr`. */
  function Frame(e: nat): nat { e / PAGE_SIZE % MAXPAGES }

  function PhysPageAddr(e: nat): nat { Frame(e) * PAGE_SIZE }

  function NewEntry(pa: nat, flags: nat): nat {
    pa / PAGE_SIZE % MAXPAGES * PAGE_SIZE + flags
  }

  function Enable(e: nat): nat { if Present(e) then e else e + 1 }

  lemma LowBits(k: nat, low: nat, e: nat)
    requires low < 512 && e == 512 * k + low
    ensures e % 512 == low
  {
  }

  lemma Parity(h: nat, low: nat, e: nat)
    requires e == 2 * h + low
    ensures e % 2 == low % 2
  {
    assert e == 2 * (h + low / 2) + low % 2;
  }

  lemma FrameBits(x: nat, low: nat, m: nat, e: nat)
    requires x < MAXPAGES && low < PAGE_SIZE && e == PAGE_SIZE * (MAXPAGES * m + x) + low
    ensures Frame(e) == x
  {
    assert e / PAGE_SIZE == MAXPAGES * m + x;
  }

  /** The fields of an entry do not overlap. */
  lemma EntryFields(x: nat, low: nat, nx: bool, e: nat)
    requires x < MAXPAGES && low < 512 && e == x * PAGE_SIZE + low + (if nx then NX else 0)
    ensures e % 512 == low && e % 2 == low % 2 && Frame(e) == x && Flags(e) == low + (if nx then NX else 0)
  {
    LowBits(8 * x + (if nx then 0x40_0000_0000_0000 else 0), low, e);
    Parity(2048 * x + (if nx then 0x4000_0000_0000_0000 else 0), low, e);
    FrameBits(x, low, if nx then 0x1_0000 else 0, e);
    assert e / NX == if nx then 1 else 0;
  }

  /** `Entry::new` then `enable`: the frame is the physical address without its offset and its bits
      above bit 46, the flags are those given, plus PRESENT. */
  lemma EntryRoundTrip(pa: nat, flags: nat)
    requires IsFlags(flags)
    ensures var e := Enable(NewEntry(pa, flags));
            && Present(e)
            && Frame(e) == pa / PAGE_SIZE % MAXPAGES
            && Flags(e) == (if flags % 2 == 1 then flags else flags + 1)
  {
    var x, nx := pa / PAGE_SIZE % MAXPAGES, flags >= NX;
    var low := if nx then flags - NX else flags;
    EntryFields(x, low, nx, NewEntry(pa, flags));
    Parity(if nx then 0x4000_0000_0000_0000 else 0, low, flags);
    EntryFields(x, if low % 2 == 1 then low else low + 1, nx, Enable(NewEntry(pa, flags)));
  }

  // Physical memory: every page is 512 words.

  type Page = p: seq<nat> | |p| == ENTRIES witness seq(ENTRIES, i => 0)

  const ZERO_PAGE: Page := seq(ENTRIES, i => 0)

  function PageAddr(p: nat): nat { KERNBASE + p * PAGE_SIZE }

  function Link(free: seq<nat>, i: nat): nat {
    if i < |free| then PageAddr(free[i]) else 0
  }

  /** Names a pair of places; proofs mention it to compare what is there. */
  ghost predicate Places(i: int, j: int) { true }

  ghost predicate Distinct(s: seq<nat>) {
    forall i, j {:trigger Places(i, j)} :: Places(i, j) && 0 <= i < j < |s| ==> s[i] != s[j]
  }

  lemma FirstOnce(s: seq<nat>)
    requires Distinct(s) && s != []
    ensures s[0] !in s[1..] && Distinct(s[1..])
  {
    forall i | 0 < i < |s| ensures s[i] != s[0] { assert Places(0, i); }
    forall i, j | Places(i, j) && 0 <= i < j < |s[1..]| ensures s[1..][i] != s[1..][j] {
      assert Places(i + 1, j + 1);
    }
  }

  lemma FirstMore(s: seq<nat>, x: nat)
    requires Distinct(s) && x !in s
    ensures Distinct([x] + s)
  {
    forall i, j | Places(i, j) && 0 <= i < j < |[x] + s| ensures ([x] + s)[i] != ([x] + s)[j] {
      assert Places(i - 1, j - 1);
    }
  }

  /** `free` lists, in order, the pages linked through their first words from `head`. */
  ghost predicate FreeListed(mem: seq<Page>, head: nat, free: seq<nat>) {
    && Distinct(free)
    && (forall i :: 0 <= i < |free| ==> free[i] < |mem|)
    && head == Link(free, 0)
    && forall i {:trigger mem[free[i]]} :: 0 <= i < |free| ==> mem[free[i]][0] == Link(free, i + 1)
  }

  /** A walk over the links from `head` meets the listed pages and no others. */
  lemma {:induction false} FreeListUnique(mem: seq<Page>, head: nat, a: seq<nat>, b: seq<nat>)
    requires FreeListed(mem, head, a) && FreeListed(mem, head, b)
    ensures a == b
    decreases |a|
  {
    if a == [] || b == [] {
    } else {
      assert a[0] == b[0];
      FreeListTail(mem, head, a);
      FreeListTail(mem, head, b);
      FreeListUnique(mem, mem[a[0]][0], a[1..], b[1..]);
      assert a == [a[0]] + a[1..] && b == [b[0]] + b[1..];
    }
  }

  lemma FreeListTail(mem: seq<Page>, head: nat, free: seq<nat>)
    requires FreeListed(mem, head, free) && free != []
    ensures FreeListed(mem, mem[free[0]][0], free[1..])
  {
    FirstOnce(free);
    forall i | 0 <= i < |free[1..]| ensures mem[free[1..][i]][0] == Link(free[1..], i + 1) {
      assert mem[free[i + 1]][0] == Link(free, i + 2);
    }
  }

  lemma FreeListPush(mem: seq<Page>, head: nat, free: seq<nat>, p: nat, page: Page)
    requires FreeListed(mem, head, free) && p < |mem| && p !in free && page[0] == head
    ensures FreeListed(mem[p := page], PageAddr(p), [p] + free)
  {
    var free' := [p] + free;
    FirstMore(free, p);
    forall i | 0 <= i < |free'| ensures mem[p := page][free'[i]][0] == Link(free', i + 1) {
      if i > 0 {
        assert free'[i] == free[i - 1];
        assert mem[free[i - 1]][0] == Link(free, i);
      }
    }
  }

  lemma FreeListFrame(mem: seq<Page>, head: nat, free: seq<nat>, p: nat, page: Page)
    requires FreeListed(mem, head, free) && p < |mem| && p !in free
    ensures FreeListed(mem[p := page], head, free)
  {
  }

  /** Physical memory with the head of its free list. */
  datatype Ram = Ram(mem: seq<Page>, head: nat)

  function FreePageContents(head: nat): Page {
    seq(ENTRIES, i => SCRIBBLE)[0 := head]
  }

  /** The first word is the next free page, every other byte 0xAA. */
  predicate Scribbled(page: Page, next: nat) {
    page[0] == next && forall i :: 1 <= i < ENTRIES ==> page[i] == 0xAAAA_AAAA_AAAA_AAAA
  }

  /** A page is scribbled over and put in front of the free list; the frame of an entry that points
      outside memory is no page. */
  function PutPage(r: Ram, p: nat): (r': Ram)
    ensures |r'.mem| == |r.mem|
  {
    if p < |r.mem| then Ram(r.mem[p := FreePageContents(r.head)], PageAddr(p)) else r
  }

  /** `hi - 1` down to `lo`. */
  ghost function Downwards(lo: nat, hi: nat): (s: seq<nat>)
    ensures forall i :: 0 <= i < |s| ==> lo <= s[i] < hi
  {
    if hi <= lo then [] else [hi - 1] + Downwards(lo, hi - 1)
  }

  class Memory {
    var mem: seq<Page>
    var head: nat
    ghost var free: seq<nat>

    ghost predicate Valid()
      reads this
    {
      FreeListed(mem, head, free)
    }

    /** Memory in which no page is free yet. */
    constructor (pages: seq<Page>)
      ensures Valid() && mem == pages && free == []
    {
      mem, head, free := pages, 0, [];
    }

    /** `FreeList::get`: the first free page, cleared; None exactly when no page is free. */
    method Get() returns (ok: bool, p: nat)
      requires Valid()
      modifies this
      ensures Valid()
      ensures ok <==> old(free) != []
      ensures ok ==> p == old(free)[0] < |old(mem)| && free == old(free)[1..] && mem == old(mem)[p := ZERO_PAGE]
      ensures ok ==> p !in free
      ensures !ok ==> mem == old(mem) && free == old(free)
    {
      if head == 0 { return false, 0; }
      ok, p := true, (head - KERNBASE) / PAGE_SIZE;
      FreeListTail(mem, head, free);
      FirstOnce(free);
      FreeListFrame(mem, mem[p][0], free[1..], p, ZERO_PAGE);
      head := mem[p][0];
      mem := mem[p := ZERO_PAGE];
      free := free[1..];
    }

    /** `FreeList::put`. */
    method Put(p: nat)
      modifies this`mem, this`head
      ensures Ram(mem, head) == PutPage(old(Ram(mem, head)), p)
      ensures p < |old(mem)| ==> Scribbled(mem[p], old(head)) && head == KERNBASE + p * PAGE_SIZE
    {
      if p < |mem| {
        mem := mem[p := FreePageContents(head)];
        head := PageAddr(p);
      }
    }

    /** `free` of a page that is not free. */
    method Free(p: nat)
      requires Valid() && p < |mem| && p !in free
      modifies this
      ensures Valid() && free == [p] + old(free) && mem == old(mem)[p := FreePageContents(old(head))]
      ensures Scribbled(mem[p], old(head))
    {
      FreeListPush(mem, head, free, p, FreePageContents(head));
      Put(p);
      free := [p] + free;
    }

    /** `free_pages` of pages `lo ..< hi`, none of them free: each is free once, the last in front. */
    method FreePages(lo: nat, hi: nat)
      requires Valid() && lo <= hi <= |mem| && forall x :: x in free ==> !(lo <= x < hi)
      modifies this
      ensures Valid() && |mem| == old(|mem|) && free == Downwards(lo, hi) + old(free)
      ensures forall x :: 0 <= x < |mem| && !(lo <= x < hi) ==> mem[x] == old(mem)[x]
    {
      ghost var free0 := free;
      for p := lo to hi
        invariant Valid() && |mem| == old(|mem|) && free == Downwards(lo, p) + free0
        invariant forall x :: 0 <= x < |mem| && !(lo <= x < hi) ==> mem[x] == old(mem)[x]
      {
        DownwardsMore(lo, p, free0);
        Free(p);
      }
    }
  }

  lemma DownwardsMore(lo: nat, p: nat, free: seq<nat>)
    requires lo <= p && p !in free
    ensures p !in Downwards(lo, p) + free && Downwards(lo, p + 1) + free == [p] + (Downwards(lo, p) + free)
  {
  }
}
