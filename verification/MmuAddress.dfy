/** How masks and shifts split an address, bit by bit, and which numbers the fields are. */
module MmuAddress {
  import opened Division
  import opened MmuMemory

  /** A machine word, least significant bit first. */
  type Bits = seq<bool>

  function Value(b: Bits): nat {
    if b == [] then 0 else (if b[0] then 1 else 0) + 2 * Value(b[1..])
  }

  function Power(k: nat): nat {
    if k == 0 then 1 else 2 * Power(k - 1)
  }

  // The operations of the source, on words of 32 bits.

  function And(a: Bits, b: Bits): Bits
    requires |a| == |b|
  {
    seq(|a|, i requires 0 <= i < |a| => a[i] && b[i])
  }

  function Not(a: Bits): Bits {
    seq(|a|, i requires 0 <= i < |a| => !a[i])
  }

  function Zeros(n: nat): Bits {
    seq(n, _ => false)
  }

  function ShiftRight(a: Bits, k: nat): Bits
    requires k <= |a|
  {
    a[k..] + Zeros(k)
  }

  /** The word with ones from bit lo up to bit hi. */
  function Ones(lo: nat, hi: nat): Bits {
    seq(32, i => lo <= i < hi)
  }

  const PAGE_DIR_BITS := Ones(22, 32)
  const PAGE_TABLE_BITS := Ones(12, 22)
  const FRAME_BITS := Ones(0, 12)

  function PageBits(va: Bits): Bits
    requires |va| == 32
  {
    ShiftRight(And(va, PAGE_DIR_BITS), 22)
  }

  function TableBits(va: Bits): Bits
    requires |va| == 32
  {
    ShiftRight(And(va, PAGE_TABLE_BITS), 12)
  }

  function FrameBits(va: Bits): Bits
    requires |va| == 32
  {
    ShiftRight(And(va, Not(FRAME_BITS)), 12)
  }

  function OffsetBits(va: Bits): Bits
    requires |va| == 32
  {
    And(va, FRAME_BITS)
  }

  // What they mean as numbers.

  lemma {:induction false} ValueBound(b: Bits)
    ensures Value(b) < Power(|b|)
  {
    if b != [] {
      ValueBound(b[1..]);
    }
  }

  lemma TwicePlus(low: nat, p: nat, high: nat)
    ensures 2 * (low + p * high) == 2 * low + (2 * p) * high
  {
  }

  lemma {:induction false} ValueSplit(b: Bits, k: nat)
    requires k <= |b|
    ensures Value(b) == Value(b[..k]) + Power(k) * Value(b[k..])
  {
    if k > 0 {
      ValueSplit(b[1..], k - 1);
      assert b[1..][..k - 1] == b[..k][1..] && b[1..][k - 1..] == b[k..];
      TwicePlus(Value(b[..k][1..]), Power(k - 1), Value(b[k..]));
    } else {
      assert b[0..] == b && Value(b[..0]) == 0;
    }
  }

  lemma {:induction false} ValueOfZeros(n: nat)
    ensures Value(Zeros(n)) == 0
  {
    if n > 0 {
      assert Zeros(n)[1..] == Zeros(n - 1);
      ValueOfZeros(n - 1);
    }
  }

  lemma ValuePadded(b: Bits, n: nat)
    ensures Value(b + Zeros(n)) == Value(b)
  {
    ValueSplit(b + Zeros(n), |b|);
    assert (b + Zeros(n))[..|b|] == b && (b + Zeros(n))[|b|..] == Zeros(n);
    ValueOfZeros(n);
  }

  /** The low k bits are the remainder by the k-th power of two, the rest the quotient. */
  lemma LowAndHigh(b: Bits, k: nat)
    requires k <= |b|
    ensures Power(k) > 0 && Value(b[..k]) == Value(b) % Power(k) && Value(b[k..]) == Value(b) / Power(k)
  {
    hide Value, Power;
    ValueSplit(b, k);
    ValueBound(b[..k]);
    QuotientAndRemainder(Power(k), Value(b), Value(b[k..]), Value(b[..k]));
  }

  lemma Powers()
    ensures Power(0) == 1 && Power(10) == ENTRIES && Power(12) == PAGE && Power(22) == 0x40_0000
    ensures Power(32) == ADDRESSES
  {
    assert Power(5) == 32;
    assert Power(10) == 1024;
    assert Power(14) == 0x4000;
    assert Power(18) == 0x4_0000;
    assert Power(22) == 0x40_0000;
    assert Power(26) == 0x400_0000;
    assert Power(30) == 0x4000_0000;
  }

  lemma {:induction false} ValueOfOnes(n: nat)
    ensures Value(seq(n, _ => true)) == Power(n) - 1
  {
    if n > 0 {
      assert seq(n, _ => true)[1..] == seq(n - 1, _ => true);
      ValueOfOnes(n - 1);
    }
  }

  lemma MaskValue(lo: nat, hi: nat)
    requires lo <= hi <= 32
    ensures Value(Ones(lo, hi)) == Power(lo) * (Power(hi - lo) - 1)
  {
    var mask := Ones(lo, hi);
    ValueSplit(mask, lo);
    assert mask[..lo] == Zeros(lo) && mask[lo..] == seq(hi - lo, _ => true) + Zeros(32 - hi);
    ValueOfZeros(lo);
    ValuePadded(seq(hi - lo, _ => true), 32 - hi);
    ValueOfOnes(hi - lo);
  }

  /** The masks are the source's constants. */
  lemma MasksAreConstants()
    ensures Value(PAGE_DIR_BITS) == 0xFFC0_0000 && Value(PAGE_TABLE_BITS) == 0x003F_F000 && Value(FRAME_BITS) == 0xFFF
  {
    hide Value, Power, Ones;
    Powers();
    MaskValue(22, 32);
    MaskValue(12, 22);
    MaskValue(0, 12);
  }

  /** The fields of an address are quotients and remainders by the page and table sizes, as the two-level walk takes
      them. */
  lemma SplitIsDivision(va: Bits)
    requires |va| == 32
    ensures Value(PageBits(va)) == Value(va) / PAGE / ENTRIES
    ensures Value(TableBits(va)) == Value(va) / PAGE % ENTRIES
    ensures Value(FrameBits(va)) == Value(va) / PAGE
    ensures Value(OffsetBits(va)) == Value(va) % PAGE
  {
    Powers();
    hide Value, Power;
    var page := va[12..];
    LowAndHigh(va, 12);
    LowAndHigh(page, 10);
    assert page[10..] == va[22..] && page[..10] == va[12..22];
    assert PageBits(va) == va[22..] + Zeros(22);
    assert TableBits(va) == va[12..22] + Zeros(22);
    assert FrameBits(va) == va[12..] + Zeros(12);
    assert OffsetBits(va) == va[..12] + Zeros(20);
    ValuePadded(va[22..], 22);
    ValuePadded(va[12..22], 22);
    ValuePadded(va[12..], 12);
    ValuePadded(va[..12], 20);
  }

  /** The three fields together give the address back. */
  lemma AddressSplit(va: Bits)
    requires |va| == 32
    ensures Value(va) == (Value(PageBits(va)) * ENTRIES + Value(TableBits(va))) * PAGE + Value(OffsetBits(va)) < ADDRESSES
  {
    hide Value, Power;
    SplitIsDivision(va);
    ValueBound(va);
    Powers();
  }

  /** The walk of an address goes through the directory and table entries that its fields name. */
  lemma WalkUsesFields(dirs: Directories, p: Physical, pid: Pid, va: Bits)
    requires |va| == 32 && Backed(dirs, p, pid, Value(va) / PAGE)
    ensures Backed(dirs, p, pid, Value(FrameBits(va)))
    ensures (dirs[pid], Value(PageBits(va))) in p.pdes
    ensures Walk(dirs, p, pid, Value(va) / PAGE) == PteRef(p.pdes[(dirs[pid], Value(PageBits(va)))], Value(TableBits(va)))
  {
    SplitIsDivision(va);
  }
}
