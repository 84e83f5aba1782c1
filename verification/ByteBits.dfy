/** Counting the bits of a byte with masks and one multiplication. */
module ByteBits {

  function Digit(bit: bool): nat {
    if bit then 1 else 0
  }

  function Mask(k: nat): bv8 {
    match k
    case 0 => 0x01
    case 1 => 0x02
    case 2 => 0x04
    case 3 => 0x08
    case 4 => 0x10
    case 5 => 0x20
    case 6 => 0x40
    case 7 => 0x80
    case _ => 0
  }

  /** Bit k of a byte, bit 0 being the least significant. */
  predicate Bit(b: bv8, k: nat) {
    b & Mask(k) != 0
  }

  function Shifted(b: bv8, k: nat): bv8
    requires k < 8
  {
    b >> k
  }

  /** Bit k is the last one after a shift by k. */
  lemma BitIsShifted(b: bv8, k: nat)
    requires k < 8
    ensures Bit(b, k) <==> Shifted(b, k) & 1 == 1
  {
    assert k == 0 || k == 1 || k == 2 || k == 3 || k == 4 || k == 5 || k == 6 || k == 7;
  }

  /** How many of the bits 0 to n - 1 are set. */
  function CountBelow(b: bv8, n: nat): nat {
    if n == 0 then 0 else CountBelow(b, n - 1) + Digit(Bit(b, n - 1))
  }

  function FoldBits(n: bv32): bv32 {
    n - ((n >> 1) & 0x55555555)
  }

  function FoldPairs(n: bv32): bv32 {
    (n & 0x33333333) + ((n >> 2) & 0x33333333)
  }

  function FoldNibbles(n: bv32): bv32 {
    (((n + (n >> 4)) & 0x0F0F0F0F) * 0x01010101) >> 24
  }

  function ToNat(n: bv32): nat {
    n as nat
  }

  /** The folding of the source: bits into pairs, pairs into nibbles, nibbles into the byte. */
  function BitCount(b: bv8): nat {
    ToNat(FoldNibbles(FoldPairs(FoldBits(b as bv32))))
  }

  function AddBit(sum: bv32, bit: bool): bv32 {
    sum + if bit then 1 else 0
  }

  function SumBelow(b: bv8, n: nat): bv32 {
    if n == 0 then 0 else AddBit(SumBelow(b, n - 1), Bit(b, n - 1))
  }

  lemma SumStep(b: bv8, n: nat)
    ensures SumBelow(b, 0) == 0 && SumBelow(b, n + 1) == AddBit(SumBelow(b, n), Bit(b, n))
    ensures CountBelow(b, 0) == 0 && CountBelow(b, n + 1) == CountBelow(b, n) + Digit(Bit(b, n))
  {
  }

  /** The folding adds the bits up, as bit-vectors. */
  lemma FoldIsSum(b: bv8)
    ensures FoldNibbles(FoldPairs(FoldBits(b as bv32))) == SumBelow(b, 8)
  {
    hide SumBelow;
    SumStep(b, 0);
    SumStep(b, 1);
    SumStep(b, 2);
    SumStep(b, 3);
    SumStep(b, 4);
    SumStep(b, 5);
    SumStep(b, 6);
    SumStep(b, 7);
  }

  /** The number as a bit-vector, up to eight. */
  function Small(n: nat): bv32 {
    match n
    case 0 => 0
    case 1 => 1
    case 2 => 2
    case 3 => 3
    case 4 => 4
    case 5 => 5
    case 6 => 6
    case 7 => 7
    case _ => 8
  }

  lemma AddBitIsNext(n: nat, bit: bool)
    requires n < 8
    ensures AddBit(Small(n), bit) == Small(n + Digit(bit))
  {
  }

  lemma SmallZero()
    ensures Small(0) == 0
  {
  }

  lemma SmallIsNumber(n: nat)
    requires n <= 8
    ensures ToNat(Small(n)) == n
  {
  }

  lemma DigitIsSmall(bit: bool)
    ensures Digit(bit) <= 1
  {
  }

  lemma {:induction false} SumIsCount(b: bv8, n: nat)
    requires n <= 8
    ensures SumBelow(b, n) == Small(CountBelow(b, n)) && CountBelow(b, n) <= n
  {
    hide Bit, SumBelow, CountBelow, AddBit, Digit, Small;
    if n == 0 {
      SumStep(b, 0);
      SmallZero();
    } else {
      SumIsCount(b, n - 1);
      SumStep(b, n - 1);
      DigitIsSmall(Bit(b, n - 1));
      AddBitIsNext(CountBelow(b, n - 1), Bit(b, n - 1));
    }
  }

  /** The folding counts the bits of every byte. */
  lemma BitCountIsCount(b: bv8)
    ensures BitCount(b) == CountBelow(b, 8) <= 8
  {
    hide Bit, FoldNibbles, FoldPairs, FoldBits, SumBelow, CountBelow, ToNat, Small;
    FoldIsSum(b);
    SumIsCount(b, 8);
    SmallIsNumber(CountBelow(b, 8));
  }

  lemma BitsOfOr(a: bv8, b: bv8, k: nat)
    ensures Bit(a | b, k) <==> Bit(a, k) || Bit(b, k)
  {
  }

  lemma BitsOfAnd(a: bv8, b: bv8, k: nat)
    ensures Bit(a & b, k) <==> Bit(a, k) && Bit(b, k)
  {
  }
}
