/** The pipe's ring buffer, byte by byte (kernel/src/pipe.rs:29-101). */
module Pipe {
  import opened Options

  const PAGE: nat := 4096
  const USIZE: nat := 0x1_0000_0000_0000_0000

  type Byte = x: nat | x < 256

  lemma SameRemainder(k: nat, q: nat, x: nat)
    requires k == PAGE * q + x
    ensures k % PAGE == x % PAGE
  {
    assert k == PAGE * (q + x / PAGE) + x % PAGE;
  }

  /** Position `k` of the stream lies at `k` modulo the page, however often the counters have
      wrapped. */
  lemma Wraps(k: nat)
    ensures k % USIZE % PAGE == k % PAGE
  {
    SameRemainder(k, 0x10_0000_0000_0000 * (k / USIZE), k % USIZE);
  }

  lemma Add(a: nat, b: nat)
    ensures (a % USIZE + b) % USIZE == (a + b) % USIZE
  {
    assert a + b == USIZE * (a / USIZE) + (a % USIZE + b);
  }

  lemma WithinPage(a: nat, b: nat)
    requires a <= b <= a + PAGE
    ensures a % USIZE == b % USIZE <==> a == b
    ensures (a % USIZE + PAGE) % USIZE == b % USIZE <==> b == a + PAGE
  {
    Add(a, PAGE);
    Apart(a, b);
    Apart(b, a + PAGE);
  }

  lemma Apart(a: nat, b: nat)
    requires a <= b < a + USIZE
    ensures a % USIZE == b % USIZE ==> a == b
  {
    if a % USIZE == b % USIZE {
      assert b - a == USIZE * (b / USIZE - a / USIZE);
    }
  }

  lemma SlotsDiffer(a: nat, b: nat)
    requires a < b < a + PAGE
    ensures a % PAGE != b % PAGE
  {
  }

  class Ring {
    var nread: nat
    var nwrite: nat
    var data: seq<Byte>
    var readOpen: bool
    var writeOpen: bool
    /** The build checks additions for overflow, as the development profile does. */
    const checked: bool
    /** All bytes ever written, and how many of them have been read. */
    ghost var written: seq<Byte>
    ghost var count: nat

    /** The counters wrap; the page holds what has been written and not read. */
    ghost predicate Valid()
      reads this
    {
      && |data| == PAGE && count <= |written| <= count + PAGE
      && nread == count % USIZE && nwrite == |written| % USIZE
      && forall k {:trigger written[k]} :: count <= k < |written| ==> data[k % PAGE] == written[k]
    }

    /** `reset`. */
    constructor (checked: bool)
      ensures Valid() && readOpen && writeOpen && written == [] && count == 0 && this.checked == checked
    {
      this.checked := checked;
      nread, nwrite, data, readOpen, writeOpen := 0, 0, seq(PAGE, i => 0), true, true;
      written, count := [], 0;
    }

    method IsEmpty() returns (e: bool)
      requires Valid()
      ensures e <==> count == |written|
    {
      WithinPage(count, |written|);
      e := nread == nwrite;
    }

    /** The sum in `is_full` is beyond the machine word: a page or less of reading before the
        counter wraps. */
    predicate Overflows()
      reads this
    {
      checked && nread + PAGE >= USIZE
    }

    /** None is the panic of a checked addition. */
    method IsFull() returns (f: Option<bool>)
      requires Valid()
      ensures f.None? <==> checked && count % USIZE >= USIZE - PAGE
      ensures f.Some? ==> (f.value <==> |written| == count + PAGE)
    {
      WithinPage(count, |written|);
      f := if Overflows() then None else Some((nread + PAGE) % USIZE == nwrite);
    }

    method ReadByte() returns (b: Byte)
      requires Valid() && count < |written|
      modifies this`nread, this`count
      ensures Valid() && count == old(count) + 1 && b == written[old(count)]
    {
      Wraps(count);
      Add(count, 1);
      b := data[nread % PAGE];
      nread := (nread + 1) % USIZE;
      count := count + 1;
    }

    method WriteByte(b: Byte)
      requires Valid() && |written| < count + PAGE
      modifies this`nwrite, this`data, this`written
      ensures Valid() && written == old(written) + [b]
    {
      Wraps(|written|);
      Add(|written|, 1);
      var k := nwrite % PAGE;
      forall j | count <= j < |written| ensures j % PAGE != k { SlotsDiffer(j, |written|); }
      data := data[k := b];
      nwrite := (nwrite + 1) % USIZE;
      written := written + [b];
    }

    /** The copying loop of `read`: as many bytes as wanted and there, in order. */
    method ReadSome(buf: array<Byte>) returns (k: nat)
      requires Valid()
      modifies this`nread, this`count, buf
      ensures Valid() && k == (if buf.Length < |written| - old(count) then buf.Length else |written| - old(count)) &&
              count == old(count) + k
      ensures buf[.. k] == written[old(count) .. old(count) + k] && buf[k ..] == old(buf[k ..])
    {
      k := 0;
      var empty := IsEmpty();
      while k < buf.Length && !empty
        invariant Valid() && k <= buf.Length && count == old(count) + k && (empty <==> count == |written|)
        invariant forall j :: 0 <= j < k ==> buf[j] == written[old(count) + j]
        invariant forall j :: k <= j < buf.Length ==> buf[j] == old(buf[j])
      {
        var b := ReadByte();
        buf[k] := b;
        k := k + 1;
        empty := IsEmpty();
      }
    }

    /** The loop of `write` from byte `i` on, until all is written or the page is full. None is a
        panic, before any byte. */
    method WriteSome(buf: seq<Byte>, i: nat) returns (r: Option<nat>)
      requires Valid() && i <= |buf|
      modifies this`nwrite, this`data, this`written
      ensures Valid() && (r.None? <==> i < |buf| && old(Overflows())) && (r.None? ==> written == old(written))
      ensures r.Some? ==>
                && i <= r.value <= |buf| && written == old(written) + buf[i .. r.value]
                && (r.value < |buf| ==> |written| == count + PAGE)
    {
      var j := i;
      while j < |buf|
        invariant Valid() && i <= j <= |buf| && written == old(written) + buf[i .. j] && (i < j ==> !Overflows())
      {
        var full := IsFull();
        if full.None? { return None; }
        if full.value { return Some(j); }
        WriteByte(buf[j]);
        j := j + 1;
      }
      r := Some(j);
    }
  }
}
