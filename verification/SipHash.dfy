/** SipHash-1-3 on 32-bit halves, against its definition on 64-bit words (section 2 of
  * "SipHash: a fast short-input PRF", by Aumasson and Bernstein).
  */
module SipHash {

  // ---------- The definition on 64-bit words ----------

  datatype State = State(v0: bv64, v1: bv64, v2: bv64, v3: bv64)

  /** Addition modulo 2^64. */
  function Plus(a: bv64, b: bv64): bv64 {
    a + b
  }

  function Mix(a: bv64, b: bv64): bv64 {
    a ^ b
  }

  function Rotl13(a: bv64): bv64 {
    a.RotateLeft(13)
  }

  function Rotl16(a: bv64): bv64 {
    a.RotateLeft(16)
  }

  function Rotl17(a: bv64): bv64 {
    a.RotateLeft(17)
  }

  function Rotl21(a: bv64): bv64 {
    a.RotateLeft(21)
  }

  function Rotl32(a: bv64): bv64 {
    a.RotateLeft(32)
  }

  function SipRound(s: State): State {
    var v0 := Plus(s.v0, s.v1);
    var v1 := Mix(Rotl13(s.v1), v0);
    var v2 := Plus(s.v2, s.v3);
    var v3 := Mix(Rotl16(s.v3), v2);
    var w0 := Plus(Rotl32(v0), v3);
    var w3 := Mix(Rotl21(v3), w0);
    var w2 := Plus(v2, v1);
    var w1 := Mix(Rotl17(v1), w2);
    State(w0, w1, Rotl32(w2), w3)
  }

  function Initial(k0: bv64, k1: bv64): State {
    State(Mix(k0, 0x736f6d6570736575), Mix(k1, 0x646f72616e646f6d), Mix(k0, 0x6c7967656e657261),
          Mix(k1, 0x7465646279746573))
  }

  /** One message word: one round, with the word mixed in before and after. */
  function Absorb(s: State, m: bv64): State {
    var t := SipRound(s.(v3 := Mix(s.v3, m)));
    t.(v0 := Mix(t.v0, m))
  }

  function Finish(s: State): bv64 {
    var t := SipRound(SipRound(SipRound(s.(v2 := Mix(s.v2, 0xff)))));
    Mix(Mix(Mix(t.v0, t.v1), t.v2), t.v3)
  }

  /** Four bytes as a 32-bit number, least significant first. */
  function FromBytes(b0: bv8, b1: bv8, b2: bv8, b3: bv8): bv32 {
    (b0 as bv32) | (b1 as bv32 << 8) | (b2 as bv32 << 16) | (b3 as bv32 << 24)
  }

  /** Eight bytes as a 64-bit number, least significant first. */
  function LittleEndian(b0: bv8, b1: bv8, b2: bv8, b3: bv8, b4: bv8, b5: bv8, b6: bv8, b7: bv8): bv64 {
    (b0 as bv64) | (b1 as bv64 << 8) | (b2 as bv64 << 16) | (b3 as bv64 << 24)
    | (b4 as bv64 << 32) | (b5 as bv64 << 40) | (b6 as bv64 << 48) | (b7 as bv64 << 56)
  }

  /** Eight bytes as a 64-bit number, most significant first. */
  function BigEndian(b: seq<bv8>): bv64
    requires |b| == 8
  {
    LittleEndian(b[7], b[6], b[5], b[4], b[3], b[2], b[1], b[0])
  }

  function LengthByte(n: nat): bv8 {
    (n % 256) as bv8
  }

  /** The i-th full word of the message. */
  function FullWord(input: seq<bv8>, i: nat): bv64
    requires 8 * i + 8 <= |input|
  {
    LittleEndian(input[8 * i], input[8 * i + 1], input[8 * i + 2], input[8 * i + 3],
                 input[8 * i + 4], input[8 * i + 5], input[8 * i + 6], input[8 * i + 7])
  }

  /** What is left after the full words, padded with zeros to seven bytes, and the length of the message. */
  function LastWord(input: seq<bv8>): bv64 {
    var tail := input[|input| / 8 * 8..] + [0, 0, 0, 0, 0, 0, 0];
    LittleEndian(tail[0], tail[1], tail[2], tail[3], tail[4], tail[5], tail[6], (|input| % 256) as bv8)
  }

  function AbsorbFirst(k0: bv64, k1: bv64, input: seq<bv8>, n: nat): State
    requires 8 * n <= |input|
  {
    if n == 0 then Initial(k0, k1) else Absorb(AbsorbFirst(k0, k1, input, n - 1), FullWord(input, n - 1))
  }

  function SipHash13(k0: bv64, k1: bv64, input: seq<bv8>): bv64 {
    Finish(Absorb(AbsorbFirst(k0, k1, input, |input| / 8), LastWord(input)))
  }

  // ---------- Halves ----------

  datatype Halves = Halves(lo: bv32, hi: bv32)

  function Glue(lo: bv32, hi: bv32): bv64 {
    (hi as bv64 << 32) | (lo as bv64)
  }

  function Join(h: Halves): bv64 {
    Glue(h.lo, h.hi)
  }

  datatype HalfState = HalfState(v0: Halves, v1: Halves, v2: Halves, v3: Halves)

  function JoinState(s: HalfState): State {
    State(Join(s.v0), Join(s.v1), Join(s.v2), Join(s.v3))
  }

  // The operations on 32-bit values the steps are written in.
  function Flip(a: bv32, b: bv32): bv32 {
    a ^ b
  }

  /** Addition modulo 2^32. */
  function Sum(a: bv32, b: bv32): bv32 {
    a + b
  }

  function Carry(a: bv32, b: bv32): bv32 {
    if a as bv64 + b as bv64 > 0xffffffff then 1 else 0
  }

  function Turn13(upper: bv32, lower: bv32): bv32 {
    (upper << 13) | (lower >> 19)
  }

  function Turn16(upper: bv32, lower: bv32): bv32 {
    (upper << 16) | (lower >> 16)
  }

  function Turn17(upper: bv32, lower: bv32): bv32 {
    (upper << 17) | (lower >> 15)
  }

  function Turn21(upper: bv32, lower: bv32): bv32 {
    (upper << 21) | (lower >> 11)
  }

  function Xor(a: Halves, b: Halves): Halves {
    Halves(Flip(a.lo, b.lo), Flip(a.hi, b.hi))
  }

  function Add(a: Halves, b: Halves): Halves {
    Halves(Sum(a.lo, b.lo), Sum(Sum(a.hi, b.hi), Carry(a.lo, b.lo)))
  }

  function Swap(a: Halves): Halves {
    Halves(a.hi, a.lo)
  }

  function Rotate13(a: Halves): Halves {
    Halves(Turn13(a.lo, a.hi), Turn13(a.hi, a.lo))
  }

  function Rotate16(a: Halves): Halves {
    Halves(Turn16(a.lo, a.hi), Turn16(a.hi, a.lo))
  }

  function Rotate17(a: Halves): Halves {
    Halves(Turn17(a.lo, a.hi), Turn17(a.hi, a.lo))
  }

  function Rotate21(a: Halves): Halves {
    Halves(Turn21(a.lo, a.hi), Turn21(a.hi, a.lo))
  }

  lemma XorJoins(a: Halves, b: Halves)
    ensures Join(Xor(a, b)) == Mix(Join(a), Join(b))
  {
  }

  lemma SwapJoins(a: Halves)
    ensures Join(Swap(a)) == Rotl32(Join(a))
  {
  }

  lemma Rotate13Joins(a: Halves)
    ensures Join(Rotate13(a)) == Rotl13(Join(a))
  {
  }

  lemma Rotate16Joins(a: Halves)
    ensures Join(Rotate16(a)) == Rotl16(Join(a))
  {
  }

  lemma Rotate17Joins(a: Halves)
    ensures Join(Rotate17(a)) == Rotl17(Join(a))
  {
  }

  lemma Rotate21Joins(a: Halves)
    ensures Join(Rotate21(a)) == Rotl21(Join(a))
  {
  }
  // Addition: the halves do not overlap, so joining them is a sum, and the carry moves from one to the other.

  function Up(a: bv32): bv64 {
    a as bv64 << 32
  }

  function Low(a: bv32): bv64 {
    a as bv64
  }

  lemma GlueIsSum(lo: bv32, hi: bv32)
    ensures Glue(lo, hi) == Plus(Up(hi), Low(lo))
  {
  }

  lemma PlusIsSum(a: bv64, b: bv64)
    ensures Plus(a, b) == a + b
  {
  }

  lemma PlusMoves(a: bv64, b: bv64, c: bv64)
    ensures Plus(a, b + c) == Plus(a + b, c)
  {
  }

  lemma PlusAssociates(a: bv64, b: bv64, c: bv64)
    ensures Plus(a, Plus(b, c)) == Plus(Plus(a, b), c)
  {
    hide Plus;
    assert Plus(a, b + c) == Plus(a, Plus(b, c)) by { PlusIsSum(b, c); }
    assert Plus(a + b, c) == Plus(Plus(a, b), c) by { PlusIsSum(a, b); }
    PlusMoves(a, b, c);
  }

  lemma PlusCommutes(a: bv64, b: bv64)
    ensures Plus(a, b) == Plus(b, a)
  {
  }

  lemma PlusZero(b: bv64)
    ensures Plus(0, b) == b
  {
  }

  lemma PlusRegroups(a: bv64, b: bv64, c: bv64, d: bv64)
    ensures Plus(Plus(a, b), Plus(c, d)) == Plus(Plus(a, c), Plus(b, d))
  {
    hide Plus;
    PlusAssociates(a, b, Plus(c, d));
    PlusAssociates(b, c, d);
    PlusCommutes(b, c);
    PlusAssociates(c, b, d);
    PlusAssociates(a, c, Plus(b, d));
  }

  lemma HighShifted(a: bv32, b: bv32)
    ensures Plus(a as bv64 << 32, b as bv64 << 32) == (a + b) as bv64 << 32
  {
  }

  lemma HighSum(a: bv32, b: bv32)
    ensures Plus(Up(a), Up(b)) == Up(Sum(a, b))
  {
    assert Plus(Up(a), Up(b)) == Up(a + b) by {
      hide Plus, Sum;
      HighShifted(a, b);
    }
    hide Plus, Up;
  }

  lemma LowOver(a: bv32, b: bv32)
    requires a as bv64 + b as bv64 > 0xffffffff
    ensures Carry(a, b) == 1
    ensures Plus(a as bv64, b as bv64) == Plus(0x1_0000_0000, (a + b) as bv64)
  {
  }

  lemma LowUnder(a: bv32, b: bv32)
    requires a as bv64 + b as bv64 <= 0xffffffff
    ensures Carry(a, b) == 0
    ensures Plus(a as bv64, b as bv64) == (a + b) as bv64
  {
  }

  lemma LowSumParts(a: bv32, b: bv32)
    ensures Plus(Low(a), Low(b)) == Plus(Up(Carry(a, b)), Low(a + b))
  {
    hide Plus, Carry;
    assert Plus(Low(a), Low(b)) == Plus(a as bv64, b as bv64);
    if a as bv64 + b as bv64 > 0xffffffff {
      LowOver(a, b);
      assert Up(1) == 0x1_0000_0000;
    } else {
      LowUnder(a, b);
      assert Up(0) == 0;
      PlusZero((a + b) as bv64);
    }
  }

  lemma LowSum(a: bv32, b: bv32)
    ensures Plus(Low(a), Low(b)) == Plus(Up(Carry(a, b)), Low(Sum(a, b)))
  {
    LowSumParts(a, b);
    hide Plus, Carry, Up, Low;
  }

  lemma GlueSum(al: bv32, ah: bv32, bl: bv32, bh: bv32)
    ensures Plus(Glue(al, ah), Glue(bl, bh)) == Glue(Sum(al, bl), Sum(Sum(ah, bh), Carry(al, bl)))
  {
    hide Glue, Plus, Up, Low, Sum, Carry;
    var c := Carry(al, bl);
    GlueIsSum(al, ah);
    GlueIsSum(bl, bh);
    PlusRegroups(Up(ah), Low(al), Up(bh), Low(bl));
    LowSum(al, bl);
    PlusAssociates(Plus(Up(ah), Up(bh)), Up(c), Low(Sum(al, bl)));
    HighSum(ah, bh);
    HighSum(Sum(ah, bh), c);
    GlueIsSum(Sum(al, bl), Sum(Sum(ah, bh), c));
  }

  lemma AddJoins(a: Halves, b: Halves)
    ensures Join(Add(a, b)) == Plus(Join(a), Join(b))
  {
    hide Glue, Plus, Sum, Carry;
    GlueSum(a.lo, a.hi, b.lo, b.hi);
  }

  /** One round on halves, in the order the halves are computed. */
  function HalfRound(s: HalfState): HalfState {
    var v0 := Add(s.v0, s.v1);
    var v1 := Xor(Rotate13(s.v1), v0);
    var v2 := Add(s.v2, s.v3);
    var v3 := Xor(Rotate16(s.v3), v2);
    var w0 := Add(Swap(v0), v3);
    var w3 := Xor(Rotate21(v3), w0);
    var w2 := Add(v2, v1);
    var w1 := Xor(Rotate17(v1), w2);
    HalfState(w0, w1, Swap(w2), w3)
  }

  lemma HalfRoundJoins(s: HalfState)
    ensures JoinState(HalfRound(s)) == SipRound(JoinState(s))
  {
    hide Join, Add, Xor, Swap, Rotate13, Rotate16, Rotate17, Rotate21;
    hide Plus, Mix, Rotl13, Rotl16, Rotl17, Rotl21, Rotl32;
    var v0, v2 := Add(s.v0, s.v1), Add(s.v2, s.v3);
    AddJoins(s.v0, s.v1);
    AddJoins(s.v2, s.v3);
    Rotate13Joins(s.v1);
    Rotate16Joins(s.v3);
    var v1, v3 := Xor(Rotate13(s.v1), v0), Xor(Rotate16(s.v3), v2);
    XorJoins(Rotate13(s.v1), v0);
    XorJoins(Rotate16(s.v3), v2);
    SwapJoins(v0);
    var w0, w2 := Add(Swap(v0), v3), Add(v2, v1);
    AddJoins(Swap(v0), v3);
    AddJoins(v2, v1);
    Rotate21Joins(v3);
    Rotate17Joins(v1);
    XorJoins(Rotate21(v3), w0);
    XorJoins(Rotate17(v1), w2);
    SwapJoins(w2);
  }

  lemma Constants()
    ensures Join(Halves(0x70736575, 0x736f6d65)) == 0x736f6d6570736575
    ensures Join(Halves(0x6e646f6d, 0x646f7261)) == 0x646f72616e646f6d
    ensures Join(Halves(0x6e657261, 0x6c796765)) == 0x6c7967656e657261
    ensures Join(Halves(0x79746573, 0x74656462)) == 0x7465646279746573
    ensures Join(Halves(0xff, 0)) == 0xff
  {
  }

  function HalfInitial(k0: Halves, k1: Halves): HalfState {
    HalfState(Xor(k0, Halves(0x70736575, 0x736f6d65)), Xor(k1, Halves(0x6e646f6d, 0x646f7261)),
              Xor(k0, Halves(0x6e657261, 0x6c796765)), Xor(k1, Halves(0x79746573, 0x74656462)))
  }

  lemma HalfInitialJoins(k0: Halves, k1: Halves)
    ensures JoinState(HalfInitial(k0, k1)) == Initial(Join(k0), Join(k1))
  {
    hide Join, Xor, Mix;
    Constants();
    XorJoins(k0, Halves(0x70736575, 0x736f6d65));
    XorJoins(k1, Halves(0x6e646f6d, 0x646f7261));
    XorJoins(k0, Halves(0x6e657261, 0x6c796765));
    XorJoins(k1, Halves(0x79746573, 0x74656462));
  }

  function HalfAbsorb(s: HalfState, m: Halves): HalfState {
    var t := HalfRound(s.(v3 := Xor(s.v3, m)));
    t.(v0 := Xor(t.v0, m))
  }

  lemma HalfAbsorbJoins(s: HalfState, m: Halves)
    ensures JoinState(HalfAbsorb(s, m)) == Absorb(JoinState(s), Join(m))
  {
    hide Join, Xor, Mix, HalfRound, SipRound;
    var u := s.(v3 := Xor(s.v3, m));
    XorJoins(s.v3, m);
    HalfRoundJoins(u);
    XorJoins(HalfRound(u).v0, m);
  }

  function HalfFinish(s: HalfState): Halves {
    var t := HalfRound(HalfRound(HalfRound(s.(v2 := Xor(s.v2, Halves(0xff, 0))))));
    Xor(Xor(Xor(t.v0, t.v1), t.v2), t.v3)
  }

  lemma HalfFinishJoins(s: HalfState)
    ensures Join(HalfFinish(s)) == Finish(JoinState(s))
  {
    hide Join, Xor, Mix, HalfRound, SipRound;
    var u := s.(v2 := Xor(s.v2, Halves(0xff, 0)));
    Constants();
    XorJoins(s.v2, Halves(0xff, 0));
    HalfRoundJoins(u);
    HalfRoundJoins(HalfRound(u));
    HalfRoundJoins(HalfRound(HalfRound(u)));
    var t := HalfRound(HalfRound(HalfRound(u)));
    XorJoins(t.v0, t.v1);
    XorJoins(Xor(t.v0, t.v1), t.v2);
    XorJoins(Xor(Xor(t.v0, t.v1), t.v2), t.v3);
  }

  // ---------- The eight local words ----------

  lemma FlipZero(x: bv32)
    ensures Flip(x, 0) == x
  {
  }

  class Sip {
    var v0lo: bv32
    var v0hi: bv32
    var v1lo: bv32
    var v1hi: bv32
    var v2lo: bv32
    var v2hi: bv32
    var v3lo: bv32
    var v3hi: bv32

    /** The eight words, as the halves of four. */
    ghost function Value(): HalfState
      reads this
    {
      HalfState(Halves(v0lo, v0hi), Halves(v1lo, v1hi), Halves(v2lo, v2hi), Halves(v3lo, v3hi))
    }

    constructor (k0: Halves, k1: Halves)
      ensures Value() == HalfInitial(k0, k1)
    {
      hide Flip;
      v0lo, v0hi := Flip(k0.lo, 0x70736575), Flip(k0.hi, 0x736f6d65);
      v1lo, v1hi := Flip(k1.lo, 0x6e646f6d), Flip(k1.hi, 0x646f7261);
      v2lo, v2hi := Flip(k0.lo, 0x6e657261), Flip(k0.hi, 0x6c796765);
      v3lo, v3hi := Flip(k1.lo, 0x79746573), Flip(k1.hi, 0x74656462);
    }

    /** One round. */
    method Compress()
      modifies this
      ensures Value() == HalfRound(old(Value()))
    {
      hide Sum, Carry, Flip, Turn13, Turn16, Turn17, Turn21;
      v0hi := Sum(Sum(v0hi, v1hi), Carry(v0lo, v1lo));
      v0lo := Sum(v0lo, v1lo);
      var lo, hi := v1lo, v1hi;
      v1lo := Turn13(lo, hi);
      v1hi := Turn13(hi, lo);
      v1lo := Flip(v1lo, v0lo);
      v1hi := Flip(v1hi, v0hi);
      lo, hi := v0lo, v0hi;
      v0lo := hi;
      v0hi := lo;
      v2hi := Sum(Sum(v2hi, v3hi), Carry(v2lo, v3lo));
      v2lo := Sum(v2lo, v3lo);
      lo, hi := v3lo, v3hi;
      v3lo := Turn16(lo, hi);
      v3hi := Turn16(hi, lo);
      v3lo := Flip(v3lo, v2lo);
      v3hi := Flip(v3hi, v2hi);
      v0hi := Sum(Sum(v0hi, v3hi), Carry(v0lo, v3lo));
      v0lo := Sum(v0lo, v3lo);
      lo, hi := v3lo, v3hi;
      v3lo := Turn21(lo, hi);
      v3hi := Turn21(hi, lo);
      v3lo := Flip(v3lo, v0lo);
      v3hi := Flip(v3hi, v0hi);
      v2hi := Sum(Sum(v2hi, v1hi), Carry(v2lo, v1lo));
      v2lo := Sum(v2lo, v1lo);
      lo, hi := v1lo, v1hi;
      v1lo := Turn17(lo, hi);
      v1hi := Turn17(hi, lo);
      v1lo := Flip(v1lo, v2lo);
      v1hi := Flip(v1hi, v2hi);
      lo, hi := v2lo, v2hi;
      v2lo := hi;
      v2hi := lo;
    }

    /** A message word, given as halves. */
    method AbsorbHalves(m: Halves)
      modifies this
      ensures Value() == HalfAbsorb(old(Value()), m)
    {
      hide HalfRound, Flip;
      v3lo, v3hi := Flip(v3lo, m.lo), Flip(v3hi, m.hi);
      Compress();
      v0lo, v0hi := Flip(v0lo, m.lo), Flip(v0hi, m.hi);
    }

    /** The last three rounds, and the words folded into one. */
    method Final() returns (h: Halves)
      modifies this
      ensures h == HalfFinish(old(Value()))
    {
      hide HalfRound, Flip;
      ghost var s := Value();
      v2lo := Flip(v2lo, 0xff);
      FlipZero(v2hi);
      assert Value() == s.(v2 := Xor(s.v2, Halves(0xff, 0)));
      Compress();
      Compress();
      Compress();
      h := Halves(Flip(Flip(Flip(v0lo, v1lo), v2lo), v3lo), Flip(Flip(Flip(v0hi, v1hi), v2hi), v3hi));
    }
  }

  // ---------- Bytes ----------

  lemma LittleEndianGlues(b0: bv8, b1: bv8, b2: bv8, b3: bv8, b4: bv8, b5: bv8, b6: bv8, b7: bv8)
    ensures LittleEndian(b0, b1, b2, b3, b4, b5, b6, b7) == Glue(FromBytes(b0, b1, b2, b3), FromBytes(b4, b5, b6, b7))
  {
  }

  /** The byte at an index, or 0 from the end on. */
  function ByteBefore(input: seq<bv8>, k: nat, end: nat): bv8
    requires end <= |input|
  {
    if k < end then input[k] else 0
  }

  /** Eight bytes from an index on, as halves; bytes from end on read as 0. */
  function LoadHalves(input: seq<bv8>, i: nat, end: nat): Halves
    requires end <= |input|
  {
    Halves(FromBytes(ByteBefore(input, i, end), ByteBefore(input, i + 1, end), ByteBefore(input, i + 2, end),
                     ByteBefore(input, i + 3, end)),
           FromBytes(ByteBefore(input, i + 4, end), ByteBefore(input, i + 5, end), ByteBefore(input, i + 6, end),
                     ByteBefore(input, i + 7, end)))
  }

  lemma FullHalves(input: seq<bv8>, n: nat)
    requires 8 * n + 8 <= |input|
    ensures Join(LoadHalves(input, 8 * n, 8 * n + 8)) == FullWord(input, n)
  {
  }

  /** A byte in the top eight bits of a half that has none there. */
  function OnTop(top: bv8, half: bv32): bv32 {
    (top as bv32 << 24) | half
  }

  lemma OnTopIsByte(b0: bv8, b1: bv8, b2: bv8, top: bv8)
    ensures OnTop(top, FromBytes(b0, b1, b2, 0)) == FromBytes(b0, b1, b2, top)
  {
  }

  function LastHalves(input: seq<bv8>): Halves {
    var h := LoadHalves(input, |input| / 8 * 8, |input|);
    Halves(h.lo, OnTop(LengthByte(|input|), h.hi))
  }

  lemma TailReads(input: seq<bv8>, i: nat)
    requires i <= |input| < i + 8
    ensures ByteBefore(input, i + 7, |input|) == 0
    ensures var tail := input[i..] + [0, 0, 0, 0, 0, 0, 0];
            forall k :: 0 <= k < 7 ==> ByteBefore(input, i + k, |input|) == tail[k]
  {
  }

  lemma LastHalvesJoin(input: seq<bv8>)
    ensures Join(LastHalves(input)) == LastWord(input)
  {
    hide LittleEndian, FromBytes, Glue, OnTop, ByteBefore;
    var tail, top := input[|input| / 8 * 8..] + [0, 0, 0, 0, 0, 0, 0], LengthByte(|input|);
    TailReads(input, |input| / 8 * 8);
    LittleEndianGlues(tail[0], tail[1], tail[2], tail[3], tail[4], tail[5], tail[6], top);
    OnTopIsByte(tail[4], tail[5], tail[6], top);
  }

  function Octet0(x: bv32): bv8 {
    (x & 0xff) as bv8
  }

  function Octet8(x: bv32): bv8 {
    ((x >> 8) & 0xff) as bv8
  }

  function Octet16(x: bv32): bv8 {
    ((x >> 16) & 0xff) as bv8
  }

  function Octet24(x: bv32): bv8 {
    ((x >> 24) & 0xff) as bv8
  }

  function Octets(h: Halves): seq<bv8> {
    [Octet24(h.hi), Octet16(h.hi), Octet8(h.hi), Octet0(h.hi), Octet24(h.lo), Octet16(h.lo), Octet8(h.lo), Octet0(h.lo)]
  }

  lemma OctetsAreBigEndian(h: Halves)
    ensures BigEndian(Octets(h)) == Join(h)
  {
  }

  // ---------- The hash ----------

  function HalfAbsorbFirst(k0: Halves, k1: Halves, input: seq<bv8>, n: nat): HalfState
    requires 8 * n <= |input|
  {
    if n == 0 then HalfInitial(k0, k1)
    else HalfAbsorb(HalfAbsorbFirst(k0, k1, input, n - 1), LoadHalves(input, 8 * n - 8, 8 * n))
  }

  lemma {:induction false} HalfAbsorbFirstJoins(k0: Halves, k1: Halves, input: seq<bv8>, n: nat)
    requires 8 * n <= |input|
    ensures JoinState(HalfAbsorbFirst(k0, k1, input, n)) == AbsorbFirst(Join(k0), Join(k1), input, n)
  {
    hide Join, JoinState, LoadHalves, FullWord, HalfInitial, Initial, HalfAbsorb, Absorb;
    if n == 0 {
      HalfInitialJoins(k0, k1);
    } else {
      HalfAbsorbFirstJoins(k0, k1, input, n - 1);
      FullHalves(input, n - 1);
      HalfAbsorbJoins(HalfAbsorbFirst(k0, k1, input, n - 1), LoadHalves(input, 8 * n - 8, 8 * n));
    }
  }

  function HalfHash(k0: Halves, k1: Halves, input: seq<bv8>): Halves {
    HalfFinish(HalfAbsorb(HalfAbsorbFirst(k0, k1, input, |input| / 8), LastHalves(input)))
  }

  lemma HalfHashJoins(k0: Halves, k1: Halves, input: seq<bv8>)
    ensures Join(HalfHash(k0, k1, input)) == SipHash13(Join(k0), Join(k1), input)
  {
    hide Join, JoinState, LastWord, LastHalves, HalfAbsorb, Absorb, HalfFinish, Finish, HalfAbsorbFirst, AbsorbFirst;
    HalfAbsorbFirstJoins(k0, k1, input, |input| / 8);
    LastHalvesJoin(input);
    HalfAbsorbJoins(HalfAbsorbFirst(k0, k1, input, |input| / 8), LastHalves(input));
    HalfFinishJoins(HalfAbsorb(HalfAbsorbFirst(k0, k1, input, |input| / 8), LastHalves(input)));
  }

  /** The whole input through the eight words, up to the final halves. */
  method Digest(input: seq<bv8>, k0: Halves, k1: Halves) returns (h: Halves)
    ensures h == HalfHash(k0, k1, input)
  {
    hide HalfInitial, HalfAbsorb, LoadHalves, HalfRound, Flip, OnTop, LengthByte;
    var sip := new Sip(k0, k1);
    var inputLength := |input|;
    var inputI := 0;
    var left := inputLength % 8;
    ghost var n: nat := 0;
    while inputI < inputLength - left
      invariant inputI == 8 * n && inputI <= inputLength - left && fresh(sip)
      invariant sip.Value() == HalfAbsorbFirst(k0, k1, input, n)
    {
      var m := LoadHalves(input, inputI, inputI + 8);
      sip.AbsorbHalves(m);
      inputI := inputI + 8;
      n := n + 1;
    }
    var m := LoadHalves(input, inputI, inputI + left);
    sip.AbsorbHalves(Halves(m.lo, OnTop(LengthByte(inputLength), m.hi)));
    assert sip.Value() == HalfAbsorb(HalfAbsorbFirst(k0, k1, input, |input| / 8), LastHalves(input));
    h := sip.Final();
  }

  /** Eight elements, written from the last to the first. */
  method WriteEight<T>(b: seq<T>, output: array<T>)
    requires |b| == 8 <= output.Length
    modifies output
    ensures output[..8] == b
    ensures output[8..] == old(output[8..])
  {
    output[7] := b[7];
    output[6] := b[6];
    output[5] := b[5];
    output[4] := b[4];
    output[3] := b[3];
    output[2] := b[2];
    output[1] := b[1];
    output[0] := b[0];
  }

  /** The first eight bytes of the output become the SipHash-1-3 of the input, most significant byte first. */
  method SiphashOfBytes(input: seq<bv8>, k0: Halves, k1: Halves, output: array<bv8>)
    requires output.Length >= 8
    modifies output
    ensures BigEndian(output[..8]) == SipHash13(Join(k0), Join(k1), input)
    ensures output[8..] == old(output[8..])
  {
    hide Join, SipHash13, HalfHash, BigEndian, Octet0, Octet8, Octet16, Octet24;
    var h := Digest(input, k0, k1);
    WriteEight(Octets(h), output);
    OctetsAreBigEndian(h);
    HalfHashJoins(k0, k1, input);
  }
}
