/** The transition tables of the distance-one automaton, and what is packed in them.
  *
  * The six parametric states stand for sets of positions in the word, relative to an offset.
  * `Expected` is the transition on those sets; `TableEntry` says the packed integers hold it.
  */
module Lev1Tables {
  import opened BitFields

  // ---------- The packed tables ----------

  const TO_STATES: seq<seq<nat>> := [
    [0x2],
    [0xa43],
    [0x12180003, 0xb45a4914, 0x69],
    [0x900c0003, 0xa1904864, 0x45a49169, 0x5a6d196a, 0x9634]]

  const OFFSET_INCRS: seq<seq<nat>> := [
    [0x0],
    [0x38],
    [0x558a0000, 0x5555],
    [0xa0fc0000, 0x5555ba08, 0x55555555]]

  const MIN_ERRORS: seq<int> := [0, 1, 0, -1, -1, -1]

  /** There is one pair of tables for 0, 1, 2 and at least 3 symbols left before the end of the word. */
  type Window = k: nat | k <= 3

  function StateCount(window: Window): nat {
    if window == 0 then 2 else if window == 1 then 3 else 6
  }

  function StateBits(window: Window): nat {
    if window <= 1 then 2 else 3
  }

  function IncrementBits(window: Window): nat {
    if window <= 1 then 1 else 2
  }

  // ---------- What the tables should say ----------

  datatype Next = Dead | Live(state: nat, increment: nat)

  /** Whether the k-th symbol of the window matches, read off the match vector. */
  predicate Bit(window: Window, vector: nat, k: nat) {
    if k + 1 == window then vector % 2 == 1
    else if k + 2 == window then vector / 2 % 2 == 1
    else if k + 3 == window then vector / 4 % 2 == 1
    else false
  }

  /** States 1 to 5 hold positions offset + k for these k, each one error in. */
  predicate Holds(state: nat, k: int) {
    if k == 0 then 1 <= state <= 5
    else if k == 1 then state == 2 || state == 3 || state == 5
    else if k == 2 then 3 <= state <= 5
    else false
  }

  function FromMatches(m0: bool, m1: bool, m2: bool): Next {
    if m0 then
      if m1 then Live(if m2 then 3 else 2, 1) else Live(if m2 then 4 else 1, 1)
    else if m1 then Live(if m2 then 2 else 1, 2)
    else if m2 then Live(1, 3)
    else Dead
  }

  /** State 0 is an exact match so far; state 5 may also complete a transposition. */
  function Expected(window: Window, state: nat, b0: bool, b1: bool, b2: bool): Next {
    if state == 0 then
      if b0 then Live(0, 1)
      else if window == 0 then Live(1, 0)
      else if b1 then Live(5, 0)
      else Live(2, 0)
    else
      FromMatches(Holds(state, 0) && b0,
                  (Holds(state, 1) && b1) || (state == 5 && b0),
                  Holds(state, 2) && b2)
  }

  function ExpectedFor(window: Window, state: nat, vector: nat): Next {
    Expected(window, state, Bit(window, vector, 0), Bit(window, vector, 1), Bit(window, vector, 2))
  }

  function ExpectedAt(window: Window, loc: nat): Next {
    ExpectedFor(window, loc % StateCount(window), loc / StateCount(window))
  }

  function EntryCount(window: Window): nat {
    if window == 0 then 2 else if window == 1 then 6 else if window == 2 then 24 else 48
  }

  // ---------- The tables say it ----------

  function StateBase(window: Window): nat {
    if window <= 1 then 4 else 8
  }

  function IncrementBase(window: Window): nat {
    if window <= 1 then 2 else 4
  }

  predicate DigitsMatch(next: Next, stateDigit: nat, incrementDigit: nat) {
    if next.Dead? then stateDigit == 0 else stateDigit == next.state + 1 && incrementDigit == next.increment
  }

  /** The digits of two packed numbers are the expected transitions from entry loc up to entry n. */
  predicate Digits(window: Window, states: nat, increments: nat, loc: nat, n: nat)
    decreases n - loc
  {
    loc >= n ||
    (DigitsMatch(ExpectedAt(window, loc), states % StateBase(window), increments % IncrementBase(window)) &&
     Digits(window, states / StateBase(window), increments / IncrementBase(window), loc + 1, n))
  }

  lemma Digits0()
    ensures Digits(0, 0x2, 0x0, 0, 2)
  {
  }

  lemma Digits1()
    ensures Digits(1, 0xa43, 0x38, 0, 6)
  {
  }

  lemma Row2_0()
    ensures Digits(2, 0x69_b45a4914_12180003, 0x5555_558a0000, 0, 6)
  {
    assert Digits(2, 0x34da2d24_8a090c00, 0x155_55562800, 3, 6);
  }

  lemma Row2_1()
    ensures Digits(2, 0x1a6d16_92450486, 0x5_555558a0, 6, 12)
  {
    assert Digits(2, 0xd36_8b492282, 0x15555562, 9, 12);
  }

  lemma Row2_2()
    ensures Digits(2, 0x6_9b45a491, 0x555555, 12, 18)
  {
    assert Digits(2, 0x34da2d2, 0x15555, 15, 18);
  }

  lemma Row2_3()
    ensures Digits(2, 0x1a6d1, 0x555, 18, 24)
  {
    assert Digits(2, 0xd3, 0x15, 21, 24);
  }

  lemma Row3_0()
    ensures Digits(3, 0x9634_5a6d196a_45a49169_a1904864_900c0003, 0x55555555_5555ba08_a0fc0000, 0, 6)
  {
    assert Digits(3, 0x9_6345a6d1_96a45a49_169a1904_864900c0, 0x555555_555555ba_08a0fc00, 4, 6);
    assert Digits(3, 0x258_d169b465_a9169245_a6864121_92403000, 0x5555555_55555ba0_8a0fc000, 2, 6);
  }

  lemma Row3_1()
    ensures Digits(3, 0x258d169b_465a9169_245a6864_12192403, 0x55555_5555555b_a08a0fc0, 6, 12)
  {
    assert Digits(3, 0x258d1_69b465a9_169245a6_86412192, 0x555_55555555_5ba08a0f, 10, 12);
    assert Digits(3, 0x96345a_6d196a45_a49169a1_90486490, 0x5555_55555555_ba08a0fc, 8, 12);
  }

  lemma Row3_2()
    ensures Digits(3, 0x963_45a6d196_a45a4916_9a190486, 0x55_55555555_55ba08a0, 12, 18)
  {
    assert Digits(3, 0x96345a6d_196a45a4_9169a190, 0x55555555_5555ba08, 16, 18);
    assert Digits(3, 0x25_8d169b46_5a916924_5a686412, 0x5_55555555_555ba08a, 14, 18);
  }

  lemma Row3_3()
    ensures Digits(3, 0x258d169_b465a916_9245a686, 0x5555555_55555ba0, 18, 24)
  {
    assert Digits(3, 0x258d_169b465a_9169245a, 0x55555_5555555b, 22, 24);
    assert Digits(3, 0x96345_a6d196a4_5a49169a, 0x555555_555555ba, 20, 24);
  }

  lemma Row3_4()
    ensures Digits(3, 0x96_345a6d19_6a45a491, 0x5555_55555555, 24, 30)
  {
    assert Digits(3, 0x96345a6_d196a45a, 0x55_55555555, 28, 30);
    assert Digits(3, 0x2_58d169b4_65a91692, 0x555_55555555, 26, 30);
  }

  lemma Row3_5()
    ensures Digits(3, 0x258d16_9b465a91, 0x5_55555555, 30, 36)
  {
    assert Digits(3, 0x258_d169b465, 0x5555555, 34, 36);
    assert Digits(3, 0x9634_5a6d196a, 0x55555555, 32, 36);
  }

  lemma Row3_6()
    ensures Digits(3, 0x9_6345a6d1, 0x555555, 36, 42)
  {
    assert Digits(3, 0x96345a, 0x5555, 40, 42);
    assert Digits(3, 0x258d169b, 0x55555, 38, 42);
  }

  lemma Row3_7()
    ensures Digits(3, 0x258d1, 0x555, 42, 48)
  {
    assert Digits(3, 0x25, 0x5, 46, 48);
    assert Digits(3, 0x963, 0x55, 44, 48);
  }

  lemma Bases(window: Window)
    ensures Pow2(StateBits(window)) == StateBase(window)
    ensures Pow2(IncrementBits(window)) == IncrementBase(window)
  {
    Pow2Double(0);
    Pow2Double(1);
    Pow2Double(2);
  }

  lemma DropDigit(x: nat, bits: nat, k: nat)
    requires k > 0
    ensures Shift(x, bits * k) == Shift(Shift(x, bits), bits * (k - 1))
  {
    assert bits + bits * (k - 1) == bits * k;
    ShiftTwice(x, bits, bits * (k - 1));
  }

  lemma {:induction false} Join(window: Window, states: nat, increments: nat, loc: nat, k: nat, n: nat)
    requires loc + k <= n
    requires Digits(window, states, increments, loc, loc + k)
    requires Digits(window, Shift(states, StateBits(window) * k), Shift(increments, IncrementBits(window) * k), loc + k,
                    n)
    ensures Digits(window, states, increments, loc, n)
    decreases k
  {
    hide ExpectedAt, DigitsMatch;
    if k == 0 {
      ShiftNone(states);
      ShiftNone(increments);
    } else {
      DropDigit(states, StateBits(window), k);
      DropDigit(increments, IncrementBits(window), k);
      Bases(window);
      hide Pow2;
      Join(window, states / StateBase(window), increments / IncrementBase(window), loc + 1, k - 1, n);
    }
  }

  /** Six entries make a row, one per state; the rows follow each other in the numbers. */
  lemma JoinRow(window: Window, states: nat, increments: nat, loc: nat, n: nat)
    requires window >= 2 && loc + 6 <= n
    requires Digits(window, states, increments, loc, loc + 6)
    requires Digits(window, states / 0x40000, increments / 0x1000, loc + 6, n)
    ensures Digits(window, states, increments, loc, n)
  {
    assert Pow2(6) == 0x40;
    Pow2Add(6, 6);
    Pow2Add(6, 12);
    Join(window, states, increments, loc, 6, n);
  }

  /** Digits, read at one entry. */
  lemma {:induction false} DigitAt(window: Window, states: nat, increments: nat, loc: nat, n: nat, k: nat)
    requires loc <= k < n && Digits(window, states, increments, loc, n)
    ensures DigitsMatch(ExpectedAt(window, k),
                        Shift(states, StateBits(window) * (k - loc)) % StateBase(window),
                        Shift(increments, IncrementBits(window) * (k - loc)) % IncrementBase(window))
    decreases k - loc
  {
    hide ExpectedAt, DigitsMatch;
    if k == loc {
      ShiftNone(states);
      ShiftNone(increments);
    } else {
      DropDigit(states, StateBits(window), k - loc);
      DropDigit(increments, IncrementBits(window), k - loc);
      Bases(window);
      hide Pow2;
      DigitAt(window, states / StateBase(window), increments / IncrementBase(window), loc + 1, n, k);
    }
  }

  lemma Digits2()
    ensures Digits(2, 0x69_b45a4914_12180003, 0x5555_558a0000, 0, 24)
  {
    hide Digits;
    Row2_3();
    Row2_2();
    JoinRow(2, 0x6_9b45a491, 0x555555, 12, 24);
    Row2_1();
    JoinRow(2, 0x1a6d16_92450486, 0x5_555558a0, 6, 24);
    Row2_0();
    JoinRow(2, 0x69_b45a4914_12180003, 0x5555_558a0000, 0, 24);
  }

  lemma Digits3()
    ensures Digits(3, 0x9634_5a6d196a_45a49169_a1904864_900c0003, 0x55555555_5555ba08_a0fc0000, 0, 48)
  {
    hide Digits;
    Row3_7();
    Row3_6();
    JoinRow(3, 0x9_6345a6d1, 0x555555, 36, 48);
    Row3_5();
    JoinRow(3, 0x258d16_9b465a91, 0x5_55555555, 30, 48);
    Row3_4();
    JoinRow(3, 0x96_345a6d19_6a45a491, 0x5555_55555555, 24, 48);
    Row3_3();
    JoinRow(3, 0x258d169_b465a916_9245a686, 0x5555555_55555ba0, 18, 48);
    Row3_2();
    JoinRow(3, 0x963_45a6d196_a45a4916_9a190486, 0x55_55555555_55ba08a0, 12, 48);
    Row3_1();
    JoinRow(3, 0x258d169b_465a9169_245a6864_12192403, 0x55555_5555555b_a08a0fc0, 6, 48);
    Row3_0();
    JoinRow(3, 0x9634_5a6d196a_45a49169_a1904864_900c0003, 0x55555555_5555ba08_a0fc0000, 0, 48);
  }

  lemma AllDigits(window: Window)
    ensures Words(TO_STATES[window]) && Words(OFFSET_INCRS[window])
    ensures Digits(window, Number(TO_STATES[window]), Number(OFFSET_INCRS[window]), 0, EntryCount(window))
  {
    hide Digits;
    if window == 0 {
      Digits0();
    } else if window == 1 {
      Digits1();
    } else if window == 2 {
      Digits2();
      assert Number(TO_STATES[2][2..]) == 0x69;
      assert Number(TO_STATES[2][1..]) == 0x69_b45a4914;
      assert Number(OFFSET_INCRS[2][1..]) == 0x5555;
    } else {
      Digits3();
      assert Number(TO_STATES[3][4..]) == 0x9634;
      assert Number(TO_STATES[3][3..]) == 0x9634_5a6d196a;
      assert Number(TO_STATES[3][2..]) == 0x9634_5a6d196a_45a49169;
      assert Number(TO_STATES[3][1..]) == 0x9634_5a6d196a_45a49169_a1904864;
      assert Number(OFFSET_INCRS[3][2..]) == 0x55555555;
      assert Number(OFFSET_INCRS[3][1..]) == 0x55555555_5555ba08;
    }
  }

  /** Every packed entry unpacks to the transition it should hold. */
  lemma TableEntry(window: Window, loc: nat)
    requires loc < EntryCount(window)
    ensures DigitsMatch(ExpectedAt(window, loc),
                        Unpack(TO_STATES[window], loc, StateBits(window)),
                        Unpack(OFFSET_INCRS[window], loc, IncrementBits(window)))
  {
    hide ExpectedAt, DigitsMatch, Unpack, Digits, Number, Pow2;
    AllDigits(window);
    DigitAt(window, Number(TO_STATES[window]), Number(OFFSET_INCRS[window]), 0, EntryCount(window), loc);
    UnpackIsDigit(TO_STATES[window], loc, StateBits(window));
    UnpackIsDigit(OFFSET_INCRS[window], loc, IncrementBits(window));
    Bases(window);
  }
}
