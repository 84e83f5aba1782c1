/** The automaton that accepts the words within distance one of a given word. */
module Lev1 {
  import opened Alignment
  import opened BitFields
  import opened Lev1Tables

  // ---------- The automaton ----------

  /** Bit by bit: does name[i] equal the symbol, for i from pos up to end? */
  function Vector(name: Word, symbol: int, pos: nat, end: nat): nat
    requires pos <= end <= |name|
    decreases end - pos
  {
    if pos == end then 0
    else 2 * Vector(name, symbol, pos, end - 1) + if name[end - 1] == symbol then 1 else 0
  }

  method GetVector(name: Word, symbol: int, pos: nat, end: nat) returns (vector: nat)
    requires pos <= end <= |name|
    ensures vector == Vector(name, symbol, pos, end)
  {
    vector := 0;
    var i := pos;
    while i < end
      invariant pos <= i <= end && vector == Vector(name, symbol, pos, i)
    {
      vector := vector * 2;
      if name[i] == symbol {
        vector := vector + 1;
      }
      i := i + 1;
    }
  }

  /** The description for words of length w; a state and an offset are packed into one number. */
  datatype Description = Description(w: nat) {

    function State(absState: nat): nat {
      absState / (w + 1)
    }

    function GetPosition(absState: nat): nat {
      absState % (w + 1)
    }

    predicate IsAccept(absState: nat) {
      State(absState) < |MIN_ERRORS| && w - GetPosition(absState) + MIN_ERRORS[State(absState)] <= 1
    }

    function WindowAt(position: nat): Window {
      if position == w then 0
      else if position == w - 1 then 1
      else if position == w - 2 then 2
      else 3
    }

    function Transition(absState: nat, position: nat, vector: nat): int {
      var state, offset := State(absState), GetPosition(absState);
      var window := WindowAt(position);
      var loc := vector * StateCount(window) + state;
      var offset' := if state < StateCount(window) then offset + Unpack(OFFSET_INCRS[window], loc,
                                                                        IncrementBits(window))
                     else offset;
      var state' := if state < StateCount(window) then Unpack(TO_STATES[window], loc, StateBits(window)) - 1 else state;
      if state' == -1 then -1 else state' * (w + 1) + offset'
    }
  }

  /** One step of the walk: the position, the match vector of the window there, the transition. */
  function Step(word: Word, absState: nat, symbol: int): int {
    var d := Description(|word|);
    var position := d.GetPosition(absState);
    d.Transition(absState, position, Vector(word, symbol, position, Min(|word|, position + 3)))
  }

  datatype Outcome = Stopped | At(absState: nat)

  function Run(word: Word, x: Word): Outcome {
    if x == [] then At(0)
    else
      match Run(word, x[..|x| - 1])
      case Stopped => Stopped
      case At(absState) =>
        var next := Step(word, absState, x[|x| - 1]);
        if next < 0 then Stopped else At(next)
  }

  predicate Accepts(word: Word, x: Word) {
    Run(word, x).At? && Description(|word|).IsAccept(Run(word, x).absState)
  }

  // ---------- What a state means ----------

  ghost predicate Near(word: Word, x: Word, j: nat)
    requires j <= |word|
  {
    Osa(word[..j], x) <= 1
  }

  /** x is word[..k] followed by word[k + 1]: the next symbol may complete a transposition. */
  predicate Pending(word: Word, x: Word, k: nat) {
    k + 2 <= |word| && |x| == k + 1 && x[..k] == word[..k] && x[k] == word[k + 1]
  }

  function Reach(state: nat): nat {
    if state <= 1 then 0 else if state == 2 then 1 else 2
  }

  ghost predicate Represents(word: Word, x: Word, state: nat, offset: nat) {
    offset <= |word| &&
    if state == 0 then x == word[..offset]
    else
      && state <= 5 && offset + Reach(state) <= |word|
      && !(x <= word)
      && (forall j :: 0 <= j <= |word| ==> (Near(word, x, j) <==> Holds(state, j - offset)))
      && (forall k: nat :: Pending(word, x, k) <==> state == 5 && k == offset)
  }

  ghost predicate DeadEnd(word: Word, x: Word) {
    && !(x <= word)
    && (forall j :: 0 <= j <= |word| ==> !Near(word, x, j))
    && (forall k: nat :: !Pending(word, x, k))
  }

  // ---------- One more symbol ----------

  lemma PendingIsSwap(word: Word, x: Word, c: int, j: nat)
    requires 1 < j <= |word| && |x| > 0
    ensures |x + [c]| - 2 == |x| - 1
    ensures Swapped(word, x + [c], j, |x| + 1) && Cell(word, x + [c], j - 2, |x| - 1) == 0 <==>
            Pending(word, x, j - 2) && word[j - 2] == c
  {
    hide Osa;
    var x' := (x + [c])[..|x| - 1];
    OsaBounds(word[..j - 2], x');
    assert x' == x[..|x| - 1];
  }

  /** Which prefixes are near after one more symbol. */
  lemma NearStep(word: Word, x: Word, c: int, j: nat)
    requires j <= |word|
    ensures Near(word, x + [c], j) <==>
            || x == word[..j]
            || (j > 0 && (x == word[..j - 1] || x + [c] == word[..j - 1]))
            || (j > 0 && Near(word, x, j - 1) && word[j - 1] == c)
            || (j > 1 && Pending(word, x, j - 2) && word[j - 2] == c)
  {
    hide Osa;
    var y := x + [c];
    assert y[..|y|] == y && y[..|x|] == x;
    OsaBounds(word[..j], y);
    OsaBounds(word[..j], x);
    if j == 0 {
      CellBorder(word, y, |y|);
      assert word[..0] == [];
    } else {
      OsaBounds(word[..j - 1], x);
      OsaBounds(word[..j - 1], y);
      CellRecurrence(word, y, j, |y|);
      assert Cell(word, y, j, |y|) == Osa(word[..j], y) && Cell(word, y, j - 1, |x|) == Osa(word[..j - 1], x);
      assert Cell(word, y, j, |x|) == Osa(word[..j], x) && Cell(word, y, j - 1, |y|) == Osa(word[..j - 1], y);
      hide Cell, Swapped;
      if j > 1 && |x| > 0 {
        PendingIsSwap(word, x, c, j);
      }
    }
  }

  /** From an exact match, the near prefixes are those one symbol shorter or longer. */
  lemma NearExact(word: Word, o: nat, j: nat)
    requires o <= |word| && j <= |word|
    ensures Near(word, word[..o], j) <==> o - 1 <= j <= o + 1
  {
    hide Osa;
    OsaBounds(word[..j], word[..o]);
    OsaBounds(word[..o], word[..o]);
    OsaBounds(word[..j], word[..j]);
    if j == o + 1 {
      CellAtMost(word, word, j, o, Delete(word[o]));
    } else if j + 1 == o {
      CellAtMost(word, word, j, o, Insert(word[j]));
    }
  }

  predicate Match(word: Word, c: int, k: nat) {
    k < |word| && word[k] == c
  }

  lemma NotPrefixAt(y: Word, word: Word, o: nat)
    requires o < |y| && (o < |word| ==> y[o] != word[o])
    ensures !(y <= word)
  {
  }

  lemma PrefixShrinks(x: Word, c: int, word: Word)
    ensures x + [c] <= word ==> x <= word
  {
  }

  /** The transition from an exact match. */
  lemma StepExact(word: Word, x: Word, c: int, o: nat)
    requires o <= |word| && x == word[..o] && !Match(word, c, o)
    ensures o == |word| ==> Represents(word, x + [c], 1, o)
    ensures o < |word| && !Match(word, c, o + 1) ==> Represents(word, x + [c], 2, o)
    ensures Match(word, c, o + 1) ==> Represents(word, x + [c], 5, o)
  {
    hide Near;
    var y := x + [c];
    NotPrefixAt(y, word, o);
    forall j | 0 <= j <= |word|
      ensures Near(word, y, j) <==> j == o || j == o + 1 || (j == o + 2 && Match(word, c, o + 1))
    {
      NearStep(word, x, c, j);
      if j > 0 {
        NearExact(word, o, j - 1);
      }
    }
    forall k: nat ensures Pending(word, y, k) <==> k == o && Match(word, c, o + 1) {
      assert y[..o] == word[..o];
    }
  }

  /** The transition from a set of positions one error in. */
  lemma StepNear(word: Word, x: Word, c: int, state: nat, offset: nat)
    requires 0 < state && Represents(word, x, state, offset)
    ensures !(x + [c] <= word)
    ensures forall j :: 0 <= j <= |word| ==>
              (Near(word, x + [c], j) <==>
                || (Holds(state, j - 1 - offset) && Match(word, c, j - 1))
                || (state == 5 && j == offset + 2 && Match(word, c, offset)))
    ensures forall k: nat :: !Pending(word, x + [c], k)
  {
    hide Near;
    var y := x + [c];
    PrefixShrinks(x, c, word);
    forall j | 0 <= j <= |word|
      ensures Near(word, y, j) <==>
                || (Holds(state, j - 1 - offset) && Match(word, c, j - 1))
                || (state == 5 && j == offset + 2 && Match(word, c, offset))
    {
      NearStep(word, x, c, j);
    }
  }

  function WindowOf(word: Word, offset: nat): Window
    requires offset <= |word|
  {
    Min(3, |word| - offset)
  }

  /** The transition the tables should hold is the one the distances require. */
  lemma ExpectedIsRight(word: Word, x: Word, c: int, state: nat, offset: nat)
    requires Represents(word, x, state, offset)
    ensures match Expected(WindowOf(word, offset), state, Match(word, c, offset), Match(word, c, offset + 1),
                           Match(word, c, offset + 2))
            case Dead => DeadEnd(word, x + [c])
            case Live(s, d) => Represents(word, x + [c], s, offset + d)
  {
    hide Near, Pending;
    if state == 0 && Match(word, c, offset) {
      assert word[..offset + 1] == word[..offset] + [word[offset]];
    } else if state == 0 {
      StepExact(word, x, c, offset);
    } else {
      StepNear(word, x, c, state, offset);
    }
  }

  // ---------- The tables and the match vector carry it out ----------

  function Digit(hit: bool): nat {
    if hit then 1 else 0
  }

  lemma VectorBits(word: Word, c: int, offset: nat, window: Window)
    requires offset + window <= |word|
    ensures Vector(word, c, offset, offset + window) * StateCount(window) + StateCount(window) <= EntryCount(window)
    ensures window > 0 ==> (Bit(window, Vector(word, c, offset, offset + window), 0) <==> Match(word, c, offset))
    ensures window > 1 ==> (Bit(window, Vector(word, c, offset, offset + window), 1) <==> Match(word, c, offset + 1))
    ensures window > 2 ==> (Bit(window, Vector(word, c, offset, offset + window), 2) <==> Match(word, c, offset + 2))
  {
    var v := Vector(word, c, offset, offset + window);
    var m0, m1 := Digit(Match(word, c, offset)), Digit(Match(word, c, offset + 1));
    var m2 := Digit(Match(word, c, offset + 2));
    if window > 0 {
      assert Vector(word, c, offset, offset + 1) == m0;
      if window > 1 {
        assert Vector(word, c, offset, offset + 2) == 2 * m0 + m1;
      }
    }
    assert v == if window == 0 then 0 else if window == 1 then m0
                else if window == 2 then 2 * m0 + m1 else 4 * m0 + 2 * m1 + m2;
    assert window == 2 ==> v / 2 == m0;
    assert window == 3 ==> v / 2 == 2 * m0 + m1 && v / 4 == m0;
  }

  /** What Transition computes from a packed table entry. */
  lemma TransitionFromEntry(w: nat, state: nat, offset: nat, vector: nat)
    requires offset <= w && state < StateCount(Description(w).WindowAt(offset))
    requires vector * StateCount(Description(w).WindowAt(offset)) + state < EntryCount(Description(w).WindowAt(offset))
    ensures
      var window := Description(w).WindowAt(offset);
      Description(w).Transition(state * (w + 1) + offset, offset, vector) ==
      match Expected(window, state, Bit(window, vector, 0), Bit(window, vector, 1), Bit(window, vector, 2))
      case Dead => -1
      case Live(s, d) => s * (w + 1) + (offset + d)
  {
    hide Unpack, Expected, Bit;
    var window := Description(w).WindowAt(offset);
    DivUnique(state * (w + 1) + offset, w + 1, state, offset);
    var loc := vector * StateCount(window) + state;
    DivUnique(loc, StateCount(window), vector, state);
    TableEntry(window, loc);
  }

  /** One step of the code is the expected transition on the symbols of the word. */
  lemma StepIsExpected(word: Word, c: int, state: nat, offset: nat)
    requires offset + Reach(state) <= |word| && state <= 5
    ensures Step(word, state * (|word| + 1) + offset, c) ==
            match Expected(WindowOf(word, offset), state, Match(word, c, offset), Match(word, c, offset + 1),
                           Match(word, c, offset + 2))
            case Dead => -1
            case Live(s, d) => s * (|word| + 1) + (offset + d)
  {
    hide Unpack, Expected;
    var w, window := |word|, WindowOf(word, offset);
    DivUnique(state * (w + 1) + offset, w + 1, state, offset);
    VectorBits(word, c, offset, window);
    var vector := Vector(word, c, offset, offset + window);
    assert forall k :: 0 <= k < 3 ==> (Bit(window, vector, k) <==> Match(word, c, offset + k));
    TransitionFromEntry(w, state, offset, vector);
  }

  // ---------- The runs ----------

  /** A dead end stays one: no later symbol brings the distance back. */
  lemma DeadEndStays(word: Word, x: Word, c: int)
    requires DeadEnd(word, x)
    ensures DeadEnd(word, x + [c])
  {
    hide Near;
    var y := x + [c];
    PrefixShrinks(x, c, word);
    forall j | 0 <= j <= |word| ensures !Near(word, y, j) {
      NearStep(word, x, c, j);
    }
  }

  ghost predicate OutcomeMeans(word: Word, x: Word, outcome: Outcome) {
    match outcome
    case Stopped => DeadEnd(word, x)
    case At(absState) =>
      var d := Description(|word|);
      Represents(word, x, d.State(absState), d.GetPosition(absState))
  }

  lemma StepMeans(word: Word, x: Word, c: int, state: nat, offset: nat)
    requires Represents(word, x, state, offset)
    ensures var next := Step(word, state * (|word| + 1) + offset, c);
            OutcomeMeans(word, x + [c], if next < 0 then Stopped else At(next))
  {
    hide Near, Step, Pending, Expected;
    ExpectedIsRight(word, x, c, state, offset);
    StepIsExpected(word, c, state, offset);
    match Expected(WindowOf(word, offset), state, Match(word, c, offset), Match(word, c, offset + 1),
                   Match(word, c, offset + 2))
    case Dead =>
    case Live(s, d) =>
      DivUnique(s * (|word| + 1) + (offset + d), |word| + 1, s, offset + d);
  }

  /** After every input, the automaton's state says exactly which prefixes of the word are near. */
  lemma {:induction false} RunMeans(word: Word, x: Word)
    ensures OutcomeMeans(word, x, Run(word, x))
  {
    hide Near, Step, Pending;
    var d := Description(|word|);
    if x == [] {
      DivUnique(0, |word| + 1, 0, 0);
      assert word[..0] == [];
    } else {
      var x', c := x[..|x| - 1], x[|x| - 1];
      assert x == x' + [c];
      RunMeans(word, x');
      match Run(word, x')
      case Stopped => DeadEndStays(word, x', c);
      case At(absState) =>
        var state, offset := d.State(absState), d.GetPosition(absState);
        StepMeans(word, x', c, state, offset);
        assert absState == state * (|word| + 1) + offset;
    }
  }

  /** The accepting states are those of the inputs within distance one of the whole word. */
  lemma AcceptMeans(word: Word, x: Word, absState: nat)
    requires OutcomeMeans(word, x, At(absState))
    ensures Description(|word|).IsAccept(absState) <==> Osa(word, x) <= 1
  {
    hide Osa, Pending;
    var d := Description(|word|);
    assert word[..|word|] == word;
    assert Near(word, x, |word|) <==> Osa(word, x) <= 1;
    if d.State(absState) == 0 {
      NearExact(word, d.GetPosition(absState), |word|);
    }
  }

  /** The automaton accepts exactly the inputs within optimal string alignment distance one. */
  lemma AcceptsIffWithinOne(word: Word, x: Word)
    ensures Accepts(word, x) <==> Osa(word, x) <= 1
  {
    RunMeans(word, x);
    match Run(word, x)
    case At(absState) =>
      AcceptMeans(word, x, absState);
    case Stopped =>
      assert word[..|word|] == word;
      assert !Near(word, x, |word|);
  }

  /** Where it stops, no continuation is within distance one: the walk may prune there. */
  lemma {:induction false} StoppedPrunesAll(word: Word, x: Word, rest: Word)
    requires Run(word, x).Stopped?
    ensures Run(word, x + rest).Stopped? && Osa(word, x + rest) > 1
    decreases |rest|
  {
    hide Step, Osa;
    if rest == [] {
      assert x + rest == x;
    } else {
      StoppedPrunesAll(word, x, rest[..|rest| - 1]);
      assert (x + rest)[..|x + rest| - 1] == x + rest[..|rest| - 1];
    }
    AcceptsIffWithinOne(word, x + rest);
  }
}
