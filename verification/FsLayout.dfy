/** Blocks of bytes, the bit map and the words of an indirect block, and where things are on the
    device (kernel/src/fs.rs:20-117, 146-182). */
module FsLayout {

  const BSIZE: nat := 4096
  const BPB: nat := 32768        // bits of a bit map block
  const IPB: nat := 32           // inodes of a block
  const NDIRECT: nat := 12
  const NINDIRECT: nat := 512
  const MAXFILE: nat := 524      // NDIRECT + NINDIRECT
  const U64: nat := 0x1_0000_0000_0000_0000

  type Byte = x: nat | x < 256
  type Block = s: seq<Byte> | |s| == BSIZE witness seq(BSIZE, i => 0)

  function ZeroBlock(): Block { seq(BSIZE, i => 0) }

  // Bits. `x & m` and `x | m` for a one-bit mask `m` are a test and an addition.

  function Mask(k: nat): (m: nat)
    ensures m > 0
  {
    if k == 0 then 1 else 2 * Mask(k - 1)
  }

  predicate ByteBit(x: nat, k: nat) {
    if k == 0 then x % 2 == 1 else ByteBit(x / 2, k - 1)
  }

  lemma HalfPlus(x: nat, m: nat)
    ensures (x + 2 * m) / 2 == x / 2 + m && (x + 2 * m) % 2 == x % 2
  {
    assert x + 2 * m == 2 * (x / 2 + m) + x % 2;
  }

  lemma {:induction false} MaskSets(x: nat, n: nat, k: nat, j: nat)
    requires x < Mask(n) && k < n && !ByteBit(x, k)
    ensures x + Mask(k) < Mask(n)
    ensures ByteBit(x + Mask(k), j) <==> j == k || ByteBit(x, j)
  {
    if k > 0 {
      HalfPlus(x, Mask(k - 1));
      MaskSets(x / 2, n - 1, k - 1, if j > 0 then j - 1 else 0);
    } else {
      assert (x + 1) / 2 == x / 2;
    }
  }

  lemma {:induction false} MaskClears(x: nat, k: nat, j: nat)
    requires ByteBit(x, k)
    ensures x >= Mask(k)
    ensures ByteBit(x - Mask(k), j) <==> j != k && ByteBit(x, j)
  {
    if k > 0 {
      MaskClears(x / 2, k - 1, if j > 0 then j - 1 else 0);
      assert (x - Mask(k)) / 2 == x / 2 - Mask(k - 1);
    } else {
      assert (x - 1) / 2 == x / 2;
    }
  }

  /** The sum of the masks of the bits below `n` that are set. */
  function MasksOf(x: nat, n: nat): nat {
    if n == 0 then 0 else MasksOf(x, n - 1) + (if ByteBit(x, n - 1) then Mask(n - 1) else 0)
  }

  lemma {:induction false} MasksHalf(x: nat, n: nat)
    ensures MasksOf(x, n + 1) == x % 2 + 2 * MasksOf(x / 2, n)
  {
    if n > 0 { MasksHalf(x, n - 1); }
  }

  /** A number is the sum of the masks of its bits: bit `k` is the one of weight 2 to the `k`. */
  lemma {:induction false} BitsOfNumber(x: nat, n: nat)
    requires x < Mask(n)
    ensures MasksOf(x, n) == x
  {
    if n > 0 {
      BitsOfNumber(x / 2, n - 1);
      MasksHalf(x, n - 1);
    }
  }

  predicate Bit(b: Block, i: nat)
    requires i < BPB
  {
    ByteBit(b[i / 8], i % 8)
  }

  function SetBit(b: Block, i: nat): Block
    requires i < BPB && !Bit(b, i)
  {
    MaskSets(b[i / 8], 8, i % 8, 0);
    b[i / 8 := b[i / 8] + Mask(i % 8)]
  }

  function ClearBit(b: Block, i: nat): Block
    requires i < BPB && Bit(b, i)
  {
    MaskClears(b[i / 8], i % 8, 0);
    b[i / 8 := b[i / 8] - Mask(i % 8)]
  }

  lemma SetBitBits(b: Block, i: nat, j: nat)
    requires i < BPB && j < BPB && !Bit(b, i)
    ensures Bit(SetBit(b, i), j) <==> j == i || Bit(b, j)
  {
    if i / 8 == j / 8 { MaskSets(b[i / 8], 8, i % 8, j % 8); }
  }

  lemma ClearBitBits(b: Block, i: nat, j: nat)
    requires i < BPB && j < BPB && Bit(b, i)
    ensures Bit(ClearBit(b, i), j) <==> j != i && Bit(b, j)
  {
    if i / 8 == j / 8 { MaskClears(b[i / 8], i % 8, j % 8); }
  }

  // Little-endian words.

  /** Byte `k` of a word. */
  function Digit(w: nat, k: nat): Byte {
    if k == 0 then w % 256 else Digit(w / 256, k - 1)
  }

  function Value(s: seq<Byte>): nat {
    if s == [] then 0 else s[0] + 256 * Value(s[1..])
  }

  function Power(n: nat): nat { if n == 0 then 1 else 256 * Power(n - 1) }

  lemma {:induction false} DigitsValue(w: nat, s: seq<Byte>)
    requires w < Power(|s|) && forall i :: 0 <= i < |s| ==> s[i] == Digit(w, i)
    ensures Value(s) == w
  {
    if s != [] {
      forall i | 0 <= i < |s[1..]| ensures s[1..][i] == Digit(w / 256, i) {
        assert s[i + 1] == Digit(w, i + 1);
      }
      DigitsValue(w / 256, s[1..]);
      assert s[0] == Digit(w, 0);
    }
  }

  lemma {:induction false} ZeroValue(s: seq<Byte>)
    requires forall i :: 0 <= i < |s| ==> s[i] == 0
    ensures Value(s) == 0
  {
    if s != [] { ZeroValue(s[1..]); }
  }

  function Word(b: Block, j: nat): nat
    requires j < NINDIRECT
  {
    Value(b[8 * j .. 8 * j + 8])
  }

  /** A word is eight bytes, the low one first. */
  lemma WordBytes(b: Block, j: nat)
    requires j < NINDIRECT
    ensures Word(b, j) == LowFirst(b[8 * j .. 8 * j + 8])
  {
    ValueOfEight(b[8 * j .. 8 * j + 8]);
  }

  function LowFirst(s: seq<nat>): nat
    requires |s| == 8
  {
    s[0] + 0x100 * s[1] + 0x1_0000 * s[2] + 0x100_0000 * s[3] + 0x1_0000_0000 * s[4] + 0x100_0000_0000 * s[5]
    + 0x1_0000_0000_0000 * s[6] + 0x100_0000_0000_0000 * s[7]
  }

  lemma ValueStep(s: seq<Byte>, k: nat)
    requires k < |s|
    ensures Value(s[k ..]) == s[k] as nat + 256 * Value(s[k + 1 ..])
  {
    assert s[k ..][1..] == s[k + 1 ..];
  }

  lemma ValueOfEight(s: seq<Byte>)
    requires |s| == 8
    ensures Value(s) == LowFirst(s)
  {
    assert s[0 ..] == s && s[8 ..] == [];
    ValueStep(s, 0);
    ValueStep(s, 1);
    ValueStep(s, 2);
    ValueStep(s, 3);
    ValueStep(s, 4);
    ValueStep(s, 5);
    ValueStep(s, 6);
    ValueStep(s, 7);
  }

  function ByteOfWord(b: Block, j: nat, w: nat, k: nat): Byte
    requires k < BSIZE
  {
    if 8 * j <= k < 8 * j + 8 then Digit(w, k - 8 * j) else b[k]
  }

  function SetWord(b: Block, j: nat, w: nat): Block
    requires j < NINDIRECT
  {
    seq(BSIZE, k requires 0 <= k < BSIZE => ByteOfWord(b, j, w, k))
  }

  lemma SetWordWords(b: Block, j: nat, w: nat, k: nat)
    requires j < NINDIRECT && k < NINDIRECT && w < U64
    ensures Word(SetWord(b, j, w), k) == if k == j then w else Word(b, k)
  {
    var b' := SetWord(b, j, w);
    if k == j {
      DigitsValue(w, b'[8 * j .. 8 * j + 8]);
    } else {
      assert b'[8 * k .. 8 * k + 8] == b[8 * k .. 8 * k + 8];
    }
  }

  lemma ZeroBlockWords(j: nat)
    requires j < NINDIRECT
    ensures Word(ZeroBlock(), j) == 0
  {
    ZeroValue(ZeroBlock()[8 * j .. 8 * j + 8]);
  }
}
