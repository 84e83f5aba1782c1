/** Small values packed back to back into 32-bit words, as the automaton tables are.
  *
  * The words are read as one long number, least significant word first; unpacking a value
  * is then reading one digit of that number, whether or not the value straddles two words.
  */
module BitFields {

  function Pow2(n: nat): (power: nat)
    ensures power > 0
  {
    if n == 0 then 1 else 2 * Pow2(n - 1)
  }

  const WORD: nat := 0x1_0000_0000

  // ---------- Multiplication and division ----------

  lemma MulAssoc(x: int, y: int, z: int)
    ensures x * (y * z) == (x * y) * z
  {
  }

  lemma MulDistribute(x: int, y: int, z: int)
    ensures (x + y) * z == x * z + y * z
  {
  }

  lemma MulMonotone(x: nat, y: nat, z: nat)
    requires x <= y
    ensures x * z <= y * z
  {
  }

  lemma QuotientIsNat(x: nat, m: nat)
    requires m > 0
    ensures x / m >= 0
  {
    var q := x / m;
    assert x == q * m + x % m;
    if q < 0 {
      MulMonotone(1, -q, m);
      MulDistribute(q, -q, m);
    }
  }

  lemma DivUnique(x: nat, m: nat, q: nat, r: nat)
    requires x == q * m + r && r < m
    ensures x / m == q && x % m == r
  {
    var q', r' := x / m, x % m;
    assert x == q' * m + r';
    if q' > q {
      MulMonotone(q + 1, q', m);
      MulDistribute(q, 1, m);
    } else if q > q' {
      MulMonotone(q' + 1, q, m);
      MulDistribute(q', 1, m);
    }
  }

  lemma TwoDivisions(x: nat, m: nat, n: nat, q1: nat, r1: nat, q2: nat, r2: nat)
    requires x == q1 * m + r1 && q1 == q2 * n + r2 && r1 < m && r2 < n
    ensures x == q2 * (m * n) + (r2 * m + r1) && r2 * m + r1 < m * n
  {
    MulDistribute(q2 * n, r2, m);
    MulAssoc(q2, n, m);
    MulMonotone(r2 + 1, n, m);
    MulDistribute(r2, 1, m);
  }

  lemma DivDiv(x: nat, m: nat, n: nat)
    requires m > 0 && n > 0
    ensures m * n > 0 && x / (m * n) == x / m / n
  {
    QuotientIsNat(x, m);
    QuotientIsNat(x / m, n);
    TwoDivisions(x, m, n, x / m, x % m, x / m / n, x / m % n);
    DivUnique(x, m * n, x / m / n, x / m % n * m + x % m);
  }

  lemma AddMultiple(x: nat, m: nat, y: nat)
    requires m > 0
    ensures (x + m * y) / m == x / m + y && (x + m * y) % m == x % m
  {
    MulDistribute(x / m, y, m);
    DivUnique(x + m * y, m, x / m + y, x % m);
  }

  /** x >> s */
  function Shift(x: nat, s: nat): nat {
    QuotientIsNat(x, Pow2(s));
    x / Pow2(s)
  }

  /** (x >> s) & (2^k - 1) */
  function ShiftMask(x: nat, s: nat, k: nat): nat {
    Shift(x, s) % Pow2(k)
  }

  /** A word of the table; past its end JavaScript reads undefined, which the operators take as 0. */
  function WordAt(data: seq<nat>, k: nat): nat {
    if k < |data| then data[k] else 0
  }

  /** The masks of the source: the one for ten bits has only six. */
  function MaskSize(k: nat): (size: nat)
    ensures size > 0
  {
    if k == 10 then 64 else Pow2(k)
  }

  /** (x >> s) & MASKS[k - 1] */
  function Masked(x: nat, s: nat, k: nat): nat {
    Shift(x, s) % MaskSize(k)
  }

  function Field(data: seq<nat>, bitLoc: nat, bitsPerValue: nat): nat
    requires bitsPerValue <= 31
  {
    var dataLoc := bitLoc / 32;
    var bitStart := bitLoc % 32;
    if bitStart + bitsPerValue <= 32 then
      Masked(WordAt(data, dataLoc), bitStart, bitsPerValue)
    else
      var part := 32 - bitStart;
      Masked(WordAt(data, dataLoc), bitStart, part)
        + Masked(WordAt(data, dataLoc + 1), 0, bitsPerValue - part) * Pow2(part)
  }

  /** Reading the field takes ten bits out of one word. */
  predicate ReadsTenBits(bitLoc: nat, bitsPerValue: nat) {
    var bitStart := bitLoc % 32;
    if bitStart + bitsPerValue <= 32 then bitsPerValue == 10
    else 32 - bitStart == 10 || bitsPerValue - (32 - bitStart) == 10
  }

  function Unpack(data: seq<nat>, index: nat, bitsPerValue: nat): nat
    requires bitsPerValue <= 31
  {
    Field(data, bitsPerValue * index, bitsPerValue)
  }

  ghost predicate Words(data: seq<nat>) {
    forall k :: 0 <= k < |data| ==> data[k] < WORD
  }

  function Number(data: seq<nat>): nat {
    if data == [] then 0 else data[0] + WORD * Number(data[1..])
  }

  // ---------- Powers of two ----------

  lemma Pow2Double(n: nat)
    ensures Pow2(0) == 1 && Pow2(n + 1) == 2 * Pow2(n)
  {
  }

  lemma {:induction false} Pow2Add(m: nat, n: nat)
    ensures Pow2(m + n) == Pow2(m) * Pow2(n)
  {
    if m > 0 {
      Pow2Add(m - 1, n);
      Pow2Double(m - 1);
      Pow2Double(m - 1 + n);
      hide Pow2;
      MulAssoc(2, Pow2(m - 1), Pow2(n));
    }
  }

  lemma Pow2Word()
    ensures Pow2(32) == WORD
  {
    assert Pow2(4) == 16;
    Pow2Add(4, 4);
    Pow2Add(8, 8);
    Pow2Add(16, 16);
  }

  // ---------- Unpack reads a digit ----------

  function NumberFrom(data: seq<nat>, q: nat): nat {
    if q <= |data| then Number(data[q..]) else 0
  }

  lemma NumberFromStep(data: seq<nat>, q: nat)
    ensures NumberFrom(data, q) == WordAt(data, q) + WORD * NumberFrom(data, q + 1)
  {
  }

  lemma ShiftTwice(x: nat, s: nat, t: nat)
    ensures Shift(x, s + t) == Shift(Shift(x, s), t)
  {
    hide Pow2;
    Pow2Add(s, t);
    DivDiv(x, Pow2(s), Pow2(t));
  }

  lemma ShiftNone(x: nat)
    ensures Shift(x, 0) == x
  {
  }

  lemma {:induction false} NumberDrop(data: seq<nat>, q: nat)
    requires Words(data)
    ensures Shift(Number(data), 32 * q) == NumberFrom(data, q)
    decreases q
  {
    hide Pow2;
    if q == 0 {
      ShiftNone(Number(data));
      assert data[0..] == data;
    } else if data == [] {
      DivUnique(0, Pow2(32 * q), 0, 0);
    } else {
      Pow2Word();
      ShiftTwice(Number(data), 32, 32 * (q - 1));
      AddMultiple(data[0], WORD, Number(data[1..]));
      NumberDrop(data[1..], q - 1);
      assert data[0] / WORD == 0;
      if q <= |data| {
        assert data[1..][q - 1..] == data[q..];
      }
    }
  }

  lemma ShiftHigh(d: nat, rest: nat, s: nat)
    requires s <= 32
    ensures Shift(d + WORD * rest, s) == Shift(d, s) + Pow2(32 - s) * rest
  {
    hide Pow2;
    Pow2Word();
    Pow2Add(s, 32 - s);
    MulAssoc(Pow2(s), Pow2(32 - s), rest);
    AddMultiple(d, Pow2(s), Pow2(32 - s) * rest);
  }

  lemma FieldInWord(d: nat, rest: nat, s: nat, k: nat)
    requires s + k <= 32
    ensures ShiftMask(d + WORD * rest, s, k) == ShiftMask(d, s, k)
  {
    hide Pow2, Shift;
    ShiftHigh(d, rest, s);
    Pow2Add(k, 32 - s - k);
    MulAssoc(Pow2(k), Pow2(32 - s - k), rest);
    AddMultiple(Shift(d, s), Pow2(k), Pow2(32 - s - k) * rest);
  }

  /** u below one power of two, and rest above it, cut at a larger power. */
  lemma LowAndHigh(u: nat, low: nat, rest: nat, high: nat)
    requires u < low && high > 0
    ensures low * high > 0 && (u + low * rest) % (low * high) == u + rest % high * low
  {
    QuotientIsNat(rest, high);
    TwoDivisions(u + low * rest, low, high, rest, u, rest / high, rest % high);
    DivUnique(u + low * rest, low * high, rest / high, rest % high * low + u);
  }

  lemma QuotientBelow(d: nat, m: nat, n: nat)
    requires m > 0 && d < m * n
    ensures d / m < n
  {
  }

  lemma ShiftBelow(d: nat, s: nat)
    requires d < WORD && s <= 32
    ensures Shift(d, s) < Pow2(32 - s)
  {
    hide Pow2;
    Pow2Word();
    Pow2Add(s, 32 - s);
    QuotientBelow(d, Pow2(s), Pow2(32 - s));
  }

  lemma FieldAcross(d: nat, rest: nat, s: nat, k: nat)
    requires d < WORD && s <= 32 && 32 - s <= k
    ensures ShiftMask(d + WORD * rest, s, k)
         == ShiftMask(d, s, 32 - s) + ShiftMask(rest, 0, k - (32 - s)) * Pow2(32 - s)
  {
    hide Pow2, Shift;
    ShiftNone(rest);
    var part := 32 - s;
    ShiftHigh(d, rest, s);
    ShiftBelow(d, s);
    Pow2Add(part, k - part);
    DivUnique(Shift(d, s), Pow2(part), 0, Shift(d, s));
    LowAndHigh(Shift(d, s), Pow2(part), rest, Pow2(k - part));
  }

  lemma ShiftMaskFrom(x: nat, q: nat, s: nat, k: nat)
    ensures ShiftMask(x, 32 * q + s, k) == ShiftMask(Shift(x, 32 * q), s, k)
  {
    hide Shift, Pow2;
    ShiftTwice(x, 32 * q, s);
  }

  /** The field as true masks would give it. */
  function TrueField(data: seq<nat>, bitLoc: nat, bitsPerValue: nat): nat {
    var q, s := bitLoc / 32, bitLoc % 32;
    if s + bitsPerValue <= 32 then ShiftMask(WordAt(data, q), s, bitsPerValue)
    else
      ShiftMask(WordAt(data, q), s, 32 - s) + ShiftMask(WordAt(data, q + 1), 0, bitsPerValue - (32 - s)) * Pow2(32 - s)
  }

  /** Reading a field with true masks is masking the whole table, whether or not the field straddles two words. */
  lemma TrueFieldIsMask(data: seq<nat>, bitLoc: nat, bitsPerValue: nat)
    requires Words(data) && bitsPerValue <= 32
    ensures TrueField(data, bitLoc, bitsPerValue) == ShiftMask(Number(data), bitLoc, bitsPerValue)
  {
    hide Pow2, Shift, ShiftMask, Number, NumberFrom;
    var q, s := bitLoc / 32, bitLoc % 32;
    ShiftMaskFrom(Number(data), q, s, bitsPerValue);
    NumberDrop(data, q);
    NumberFromStep(data, q);
    var d, rest := WordAt(data, q), NumberFrom(data, q + 1);
    if s + bitsPerValue <= 32 {
      FieldInWord(d, rest, s, bitsPerValue);
    } else {
      FieldAcross(d, rest, s, bitsPerValue);
      NumberFromStep(data, q + 1);
      FieldInWord(WordAt(data, q + 1), NumberFrom(data, q + 2), 0, bitsPerValue - (32 - s));
    }
  }

  lemma FieldIsMask(data: seq<nat>, bitLoc: nat, bitsPerValue: nat)
    requires Words(data) && bitsPerValue <= 31 && !ReadsTenBits(bitLoc, bitsPerValue)
    ensures Field(data, bitLoc, bitsPerValue) == ShiftMask(Number(data), bitLoc, bitsPerValue)
  {
    TrueFieldIsMask(data, bitLoc, bitsPerValue);
    hide Pow2, Shift, Number;
  }

  lemma TenIs1024()
    ensures Pow2(10) == 1024
  {
    assert Pow2(5) == 32;
    Pow2Add(5, 5);
  }

  /** A word of ones shifted right, under the mask of ten bits and under ten ones. */
  lemma TenOnes(s: nat)
    requires s <= 22
    ensures Masked(WORD - 1, s, 10) < ShiftMask(WORD - 1, s, 10)
  {
    hide Pow2, WORD;
    var low, high := Pow2(s), Pow2(32 - s);
    Pow2Word();
    Pow2Add(s, 32 - s);
    MulDistribute(high - 1, 1, low);
    DivUnique(WORD - 1, low, high - 1, low - 1);
    Pow2Add(10, 22 - s);
    TenIs1024();
    var rest := Pow2(22 - s);
    assert high - 1 == (rest - 1) * 1024 + 1023 == (16 * rest - 1) * 64 + 63;
    DivUnique(high - 1, 1024, rest - 1, 1023);
    DivUnique(high - 1, 64, 16 * rest - 1, 63);
  }

  lemma SmallerModulus(x: nat)
    ensures x % 64 <= x % 1024
  {
    var y := x % 1024;
    assert x == 1024 * (x / 1024) + y;
    DivUnique(x, 64, 16 * (x / 1024) + y / 64, y % 64);
  }

  /** The mask never adds anything. */
  lemma MaskedAtMost(x: nat, s: nat, k: nat)
    ensures Masked(x, s, k) <= ShiftMask(x, s, k)
    ensures k != 10 ==> Masked(x, s, k) == ShiftMask(x, s, k)
  {
    if k == 10 {
      TenIs1024();
      hide Pow2;
      SmallerModulus(Shift(x, s));
    }
  }

  /** Where ten bits are read out of a word of ones, the field comes out too small. */
  lemma TenBitsFail(data: seq<nat>, bitLoc: nat, bitsPerValue: nat)
    requires bitsPerValue <= 31 && ReadsTenBits(bitLoc, bitsPerValue)
    requires |data| == bitLoc / 32 + 2 && forall k :: 0 <= k < |data| ==> data[k] == WORD - 1
    ensures Field(data, bitLoc, bitsPerValue) < TrueField(data, bitLoc, bitsPerValue)
  {
    hide Pow2, Masked, ShiftMask, WORD;
    var q, s := bitLoc / 32, bitLoc % 32;
    assert WordAt(data, q) == WORD - 1 == WordAt(data, q + 1);
    if s + bitsPerValue <= 32 {
      TenOnes(s);
    } else {
      var part := 32 - s;
      MaskedAtMost(WORD - 1, s, part);
      MaskedAtMost(WORD - 1, 0, bitsPerValue - part);
      if part == 10 {
        TenOnes(s);
        MulMonotone(Masked(WORD - 1, 0, bitsPerValue - part), ShiftMask(WORD - 1, 0, bitsPerValue - part), Pow2(part));
      } else {
        TenOnes(0);
        MulMonotone(Masked(WORD - 1, 0, 10) + 1, ShiftMask(WORD - 1, 0, 10), Pow2(part));
        MulDistribute(Masked(WORD - 1, 0, 10), 1, Pow2(part));
      }
    }
  }

  /** Reading a field is masking the whole table, for every table, exactly if no ten bits are read out of one word. */
  lemma FieldIsMaskIff(bitLoc: nat, bitsPerValue: nat)
    requires bitsPerValue <= 31
    ensures (forall data :: Words(data) ==> Field(data, bitLoc,
                                                  bitsPerValue) == ShiftMask(Number(data), bitLoc, bitsPerValue))
            <==> !ReadsTenBits(bitLoc, bitsPerValue)
  {
    hide Field, ShiftMask, Number;
    if ReadsTenBits(bitLoc, bitsPerValue) {
      var data: seq<nat> := seq(bitLoc / 32 + 2, _ => WORD - 1);
      TenBitsFail(data, bitLoc, bitsPerValue);
      TrueFieldIsMask(data, bitLoc, bitsPerValue);
    } else {
      forall data | Words(data)
        ensures Field(data, bitLoc, bitsPerValue) == ShiftMask(Number(data), bitLoc, bitsPerValue)
      {
        FieldIsMask(data, bitLoc, bitsPerValue);
      }
    }
  }

  /** Reading a packed value is reading one digit of the whole table. */
  lemma UnpackIsDigit(data: seq<nat>, index: nat, bitsPerValue: nat)
    requires Words(data) && bitsPerValue <= 31 && !ReadsTenBits(bitsPerValue * index, bitsPerValue)
    ensures Unpack(data, index, bitsPerValue) == Shift(Number(data), bitsPerValue * index) % Pow2(bitsPerValue)
  {
    hide Field;
    FieldIsMask(data, bitsPerValue * index, bitsPerValue);
  }
}
