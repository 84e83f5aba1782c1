/** Optimal string alignment: the distance both fuzzy matchers of the search engine compute.
  *
  * `Osa` is defined without any recursion on prefixes, as the least cost of an edit script
  * whose edits keep, substitute, insert, delete or transpose adjacent symbols.  The dynamic
  * programming recurrence is a theorem about it, and so are the trimming laws.
  */
module Alignment {

  type Word = seq<int>

  datatype Edit =
    | Keep(x: int)
    | Substitute(x: int, y: int)
    | Insert(y: int)
    | Delete(x: int)
    | Transpose(x: int, y: int)
  {
    function Source(): Word {
      match this
      case Keep(x) => [x]
      case Substitute(x, _) => [x]
      case Insert(_) => []
      case Delete(x) => [x]
      case Transpose(x, y) => [x, y]
    }

    function Target(): Word {
      match this
      case Keep(x) => [x]
      case Substitute(_, y) => [y]
      case Insert(y) => [y]
      case Delete(_) => []
      case Transpose(x, y) => [y, x]
    }

    function Cost(): nat {
      if Keep? then 0 else 1
    }

    /** The same edit read from right to left. */
    function Mirrored(): Edit {
      match this
      case Transpose(x, y) => Transpose(y, x)
      case _ => this
    }

    /** The edit that turns the target back into the source. */
    function Inverted(): Edit {
      match this
      case Keep(x) => Keep(x)
      case Substitute(x, y) => Substitute(y, x)
      case Insert(y) => Delete(y)
      case Delete(x) => Insert(x)
      case Transpose(x, y) => Transpose(y, x)
    }
  }

  type Script = seq<Edit>

  function Source(s: Script): Word {
    if s == [] then [] else Source(s[..|s| - 1]) + s[|s| - 1].Source()
  }

  function Target(s: Script): Word {
    if s == [] then [] else Target(s[..|s| - 1]) + s[|s| - 1].Target()
  }

  function Cost(s: Script): nat {
    if s == [] then 0 else Cost(s[..|s| - 1]) + s[|s| - 1].Cost()
  }

  /** The script s turns a into b. */
  ghost predicate Edits(s: Script, a: Word, b: Word) {
    Source(s) == a && Target(s) == b
  }

  ghost predicate Cheapest(s: Script, a: Word, b: Word) {
    Edits(s, a, b) && forall t :: Edits(t, a, b) ==> Cost(s) <= Cost(t)
  }

  lemma {:induction false} CheapestBelow(s: Script) returns (r: Script)
    ensures Cheapest(r, Source(s), Target(s))
    decreases Cost(s)
  {
    if t :| Edits(t, Source(s), Target(s)) && Cost(t) < Cost(s) {
      r := CheapestBelow(t);
    } else {
      r := s;
    }
  }

  // ---------- Scripts ----------

  lemma Append(s: Script, e: Edit)
    ensures Source(s + [e]) == Source(s) + e.Source()
    ensures Target(s + [e]) == Target(s) + e.Target()
    ensures Cost(s + [e]) == Cost(s) + e.Cost()
  {
  }

  lemma {:induction false} SomeScript(a: Word, b: Word) returns (s: Script)
    ensures Edits(s, a, b)
    decreases |a| + |b|
  {
    if a != [] {
      var a', e := a[..|a| - 1], Delete(a[|a| - 1]);
      assert a == a' + e.Source() && b == b + e.Target();
      s := SomeScript(a', b);
      Append(s, e);
      s := s + [e];
    } else if b != [] {
      var b', e := b[..|b| - 1], Insert(b[|b| - 1]);
      assert a == a + e.Source() && b == b' + e.Target();
      s := SomeScript(a, b');
      Append(s, e);
      s := s + [e];
    } else {
      s := [];
    }
  }

  lemma CheapestExists(a: Word, b: Word)
    ensures exists s :: Cheapest(s, a, b)
  {
    var s := SomeScript(a, b);
    var t := CheapestBelow(s);
  }

  ghost function Osa(a: Word, b: Word): nat {
    CheapestExists(a, b);
    var s :| Cheapest(s, a, b);
    Cost(s)
  }

  lemma CheapestScript(a: Word, b: Word) returns (s: Script)
    ensures Edits(s, a, b) && Cost(s) == Osa(a, b)
  {
    CheapestExists(a, b);
    s :| Cheapest(s, a, b) && Cost(s) == Osa(a, b);
  }

  lemma OsaAtMost(s: Script)
    ensures Osa(Source(s), Target(s)) <= Cost(s)
  {
  }

  function Reverse(a: Word): Word {
    if a == [] then [] else [a[|a| - 1]] + Reverse(a[..|a| - 1])
  }

  lemma Associative<T>(a: seq<T>, b: seq<T>, c: seq<T>)
    ensures a + b + c == a + (b + c)
  {
  }

  lemma {:induction false} ReverseConcat(a: Word, b: Word)
    ensures Reverse(a + b) == Reverse(b) + Reverse(a)
    decreases |b|
  {
    if b == [] {
      assert a + b == a;
    } else {
      assert (a + b)[..|a + b| - 1] == a + b[..|b| - 1];
      ReverseConcat(a, b[..|b| - 1]);
      Associative([b[|b| - 1]], Reverse(b[..|b| - 1]), Reverse(a));
    }
  }

  lemma {:induction false} ConcatScripts(s: Script, t: Script)
    ensures Source(s + t) == Source(s) + Source(t)
    ensures Target(s + t) == Target(s) + Target(t)
    ensures Cost(s + t) == Cost(s) + Cost(t)
    decreases |t|
  {
    if t == [] {
      assert s + t == s;
    } else {
      var t', e := t[..|t| - 1], t[|t| - 1];
      ConcatScripts(s, t');
      assert (s + t)[..|s + t| - 1] == s + t';
      Associative(Source(s), Source(t'), e.Source());
      Associative(Target(s), Target(t'), e.Target());
    }
  }

  lemma ReverseShort(a: Word)
    requires |a| <= 2
    ensures Reverse(a) == if |a| == 2 then [a[1], a[0]] else a
  {
  }

  lemma {:induction false} ReverseReverse(a: Word)
    ensures Reverse(Reverse(a)) == a
  {
    if a != [] {
      var last, rest := [a[|a| - 1]], a[..|a| - 1];
      ReverseConcat(last, Reverse(rest));
      ReverseReverse(rest);
      ReverseShort(last);
    }
  }

  lemma SingleMirrored(e: Edit)
    ensures Source([e.Mirrored()]) == Reverse(e.Source())
    ensures Target([e.Mirrored()]) == Reverse(e.Target())
    ensures Cost([e.Mirrored()]) == e.Cost()
  {
    Append([], e.Mirrored());
    assert [] + [e.Mirrored()] == [e.Mirrored()];
    ReverseShort(e.Source());
    ReverseShort(e.Target());
  }

  /** Reading a script backwards costs the same. */
  lemma {:induction false} MirrorScript(s: Script) returns (r: Script)
    ensures Edits(r, Reverse(Source(s)), Reverse(Target(s))) && Cost(r) == Cost(s)
  {
    if s == [] {
      r := [];
    } else {
      var t, e := s[..|s| - 1], s[|s| - 1];
      var r' := MirrorScript(t);
      r := [e.Mirrored()] + r';
      ConcatScripts([e.Mirrored()], r');
      SingleMirrored(e);
      ReverseConcat(Source(t), e.Source());
      ReverseConcat(Target(t), e.Target());
    }
  }

  // ---------- Symmetries ----------

  lemma OsaReverseAtMost(a: Word, b: Word)
    ensures Osa(Reverse(a), Reverse(b)) <= Osa(a, b)
  {
    hide Osa;
    var s := CheapestScript(a, b);
    var r := MirrorScript(s);
    OsaAtMost(r);
  }

  /** Reading both words backwards keeps the distance. */
  lemma OsaReverse(a: Word, b: Word)
    ensures Osa(Reverse(a), Reverse(b)) == Osa(a, b)
  {
    hide Osa;
    OsaReverseAtMost(a, b);
    OsaReverseAtMost(Reverse(a), Reverse(b));
    ReverseReverse(a);
    ReverseReverse(b);
  }

  /** Undoing a script costs the same. */
  lemma {:induction false} InvertScript(s: Script) returns (r: Script)
    ensures Edits(r, Target(s), Source(s)) && Cost(r) == Cost(s)
  {
    if s == [] {
      r := [];
    } else {
      r := InvertScript(s[..|s| - 1]);
      var e := s[|s| - 1].Inverted();
      Append(r, e);
      r := r + [e];
    }
  }

  lemma OsaSymmetricAtMost(a: Word, b: Word)
    ensures Osa(b, a) <= Osa(a, b)
  {
    hide Osa;
    var s := CheapestScript(a, b);
    var r := InvertScript(s);
    OsaAtMost(r);
  }

  lemma OsaSymmetric(a: Word, b: Word)
    ensures Osa(a, b) == Osa(b, a)
  {
    hide Osa;
    OsaSymmetricAtMost(a, b);
    OsaSymmetricAtMost(b, a);
  }

  // ---------- Bounds ----------

  lemma {:induction false} ScriptLengths(s: Script)
    ensures |Source(s)| - |Target(s)| <= Cost(s) && |Target(s)| - |Source(s)| <= Cost(s)
    ensures Cost(s) == 0 ==> Source(s) == Target(s)
  {
    if s != [] {
      ScriptLengths(s[..|s| - 1]);
    }
  }

  lemma {:induction false} KeepAll(a: Word) returns (s: Script)
    ensures Edits(s, a, a) && Cost(s) == 0
  {
    if a == [] {
      s := [];
    } else {
      s := KeepAll(a[..|a| - 1]);
      Append(s, Keep(a[|a| - 1]));
      s := s + [Keep(a[|a| - 1])];
    }
  }

  /** The distance is at least the difference of the lengths, and zero exactly on equal words. */
  lemma OsaBounds(a: Word, b: Word)
    ensures |a| - |b| <= Osa(a, b) && |b| - |a| <= Osa(a, b)
    ensures Osa(a, b) == 0 <==> a == b
  {
    hide Osa;
    var s := CheapestScript(a, b);
    ScriptLengths(s);
    var k := KeepAll(a);
    OsaAtMost(k);
  }

  // ---------- The dynamic programming recurrence ----------

  /** The distance between the first i symbols of a and the first j symbols of b. */
  ghost function Cell(a: Word, b: Word, i: nat, j: nat): nat
    requires i <= |a| && j <= |b|
  {
    Osa(a[..i], b[..j])
  }

  /** The two symbols before i and the two before j are each other's transposition. */
  predicate Swapped(a: Word, b: Word, i: nat, j: nat)
    requires i <= |a| && j <= |b|
  {
    i > 1 && j > 1 && a[i - 1] == b[j - 2] && a[i - 2] == b[j - 1]
  }

  function Min(x: int, y: int): int {
    if x <= y then x else y
  }

  lemma OsaAppend(a: Word, b: Word, e: Edit)
    ensures Osa(a + e.Source(), b + e.Target()) <= Osa(a, b) + e.Cost()
  {
    hide Osa;
    var s := CheapestScript(a, b);
    Append(s, e);
    OsaAtMost(s + [e]);
  }

  /** Whatever the last edit is, adding it to a script for the shorter prefixes is possible. */
  lemma CellAtMost(a: Word, b: Word, i: nat, j: nat, e: Edit)
    requires |e.Source()| <= i <= |a| && |e.Target()| <= j <= |b|
    requires a[i - |e.Source()|..i] == e.Source() && b[j - |e.Target()|..j] == e.Target()
    ensures Cell(a, b, i, j) <= Cell(a, b, i - |e.Source()|, j - |e.Target()|) + e.Cost()
  {
    hide Osa;
    var i', j' := i - |e.Source()|, j - |e.Target()|;
    assert a[..i] == a[..i'] + e.Source() by {
      assert a[..i] == a[..i'] + a[i'..i];
    }
    assert b[..j] == b[..j'] + e.Target() by {
      assert b[..j] == b[..j'] + b[j'..j];
    }
    OsaAppend(a[..i'], b[..j'], e);
  }

  lemma SplitAt(w: Word, n: nat, u: Word, v: Word)
    requires n <= |w| && w[..n] == u + v
    ensures |v| <= n && w[..n - |v|] == u && w[n - |v|..n] == v
  {
  }

  /** And some last edit makes it an equality. */
  lemma CellLastEdit(a: Word, b: Word, i: nat, j: nat) returns (e: Edit)
    requires i <= |a| && j <= |b| && i + j > 0
    ensures |e.Source()| <= i && |e.Target()| <= j
    ensures a[i - |e.Source()|..i] == e.Source() && b[j - |e.Target()|..j] == e.Target()
    ensures Cell(a, b, i, j) == Cell(a, b, i - |e.Source()|, j - |e.Target()|) + e.Cost()
  {
    hide Osa;
    var s := CheapestScript(a[..i], b[..j]);
    assert s != [];
    e := s[|s| - 1];
    var t := s[..|s| - 1];
    var i', j' := i - |e.Source()|, j - |e.Target()|;
    SplitAt(a, i, Source(t), e.Source());
    SplitAt(b, j, Target(t), e.Target());
    OsaAtMost(t);
    CellAtMost(a, b, i, j, e);
  }

  lemma CellBorder(a: Word, b: Word, n: nat)
    ensures n <= |a| ==> Cell(a, b, n, 0) == n
    ensures n <= |b| ==> Cell(a, b, 0, n) == n
    decreases n
  {
    hide Osa;
    if n <= |a| {
      OsaBounds(a[..n], b[..0]);
      if n > 0 {
        CellBorder(a, b, n - 1);
        CellAtMost(a, b, n, 0, Delete(a[n - 1]));
      }
    }
    if n <= |b| {
      OsaBounds(a[..0], b[..n]);
      if n > 0 {
        CellBorder(a, b, n - 1);
        CellAtMost(a, b, 0, n, Insert(b[n - 1]));
      }
    }
  }

  ghost function LeastOfThree(a: Word, b: Word, i: nat, j: nat): int
    requires 0 < i <= |a| && 0 < j <= |b|
  {
    Min(Min(Cell(a, b, i - 1, j) + 1, Cell(a, b, i, j - 1) + 1),
        Cell(a, b, i - 1, j - 1) + if a[i - 1] == b[j - 1] then 0 else 1)
  }

  lemma CellAtMostSwapped(a: Word, b: Word, i: nat, j: nat)
    requires i <= |a| && j <= |b|
    ensures Swapped(a, b, i, j) ==> Cell(a, b, i, j) <= Cell(a, b, i - 2, j - 2) + 1
  {
    hide Cell;
    if Swapped(a, b, i, j) {
      CellAtMost(a, b, i, j, Transpose(b[j - 1], a[i - 1]));
    }
  }

  lemma CellAtMostNeighbours(a: Word, b: Word, i: nat, j: nat)
    requires 0 < i <= |a| && 0 < j <= |b|
    ensures Cell(a, b, i, j) <= LeastOfThree(a, b, i, j)
    ensures Swapped(a, b, i, j) ==> Cell(a, b, i, j) <= Cell(a, b, i - 2, j - 2) + 1
  {
    hide Cell;
    var x, y := a[i - 1], b[j - 1];
    CellAtMost(a, b, i, j, Delete(x));
    CellAtMost(a, b, i, j, Insert(y));
    CellAtMost(a, b, i, j, if x == y then Keep(x) else Substitute(x, y));
    CellAtMostSwapped(a, b, i, j);
  }

  /** The recurrence that both matchers compute. */
  lemma CellRecurrence(a: Word, b: Word, i: nat, j: nat)
    requires 0 < i <= |a| && 0 < j <= |b|
    ensures Cell(a, b, i, j) ==
            if Swapped(a, b, i, j) then Min(LeastOfThree(a, b, i, j), Cell(a, b, i - 2, j - 2) + 1)
            else LeastOfThree(a, b, i, j)
  {
    hide Cell;
    CellAtMostNeighbours(a, b, i, j);
    var e := CellLastEdit(a, b, i, j);
    if e.Transpose? {
      assert a[i - 2] == a[i - 2..i][0] && a[i - 1] == a[i - 2..i][1];
      assert b[j - 2] == b[j - 2..j][0] && b[j - 1] == b[j - 2..j][1];
    } else if e.Keep? {
      assert a[i - 1] == a[i - 1..i][0] == b[j - 1..j][0] == b[j - 1];
    }
  }

  /** The distance is at most the longer of the two lengths. */
  lemma {:induction false} CellUpperBound(a: Word, b: Word, i: nat, j: nat)
    requires i <= |a| && j <= |b|
    ensures Cell(a, b, i, j) <= if i <= j then j else i
  {
    hide Cell;
    if i == 0 || j == 0 {
      CellBorder(a, b, if i == 0 then j else i);
    } else {
      CellUpperBound(a, b, i - 1, j - 1);
      CellAtMostNeighbours(a, b, i, j);
    }
  }

  /** The distance lies between the difference of the lengths and the longer length. */
  lemma OsaBetween(a: Word, b: Word)
    ensures |a| - |b| <= Osa(a, b) && |b| - |a| <= Osa(a, b)
    ensures Osa(a, b) <= if |a| <= |b| then |b| else |a|
    ensures Osa(a, b) == 0 <==> a == b
  {
    hide Osa;
    OsaBounds(a, b);
    CellUpperBound(a, b, |a|, |b|);
    assert a[..|a|] == a && b[..|b|] == b;
  }

  // ---------- Trimming ----------

  /** Dropping the last symbol of the first prefix changes the distance by at most one. */
  lemma {:induction false} CellDropLast(a: Word, b: Word, i: nat, j: nat)
    requires 0 < i <= |a| && j <= |b|
    ensures Cell(a, b, i - 1, j) <= Cell(a, b, i, j) + 1
    decreases j
  {
    hide Cell;
    if j == 0 {
      CellBorder(a, b, i);
      CellBorder(a, b, i - 1);
    } else {
      CellDropLast(a, b, i, j - 1);
      CellRecurrence(a, b, i, j);
      if i > 1 {
        CellRecurrence(a, b, i - 1, j);
        if Swapped(a, b, i, j) {
          CellAtMost(a, b, i - 2, j - 1, Insert(b[j - 2]));
        }
      } else {
        CellAtMost(a, b, i - 1, j, Insert(b[j - 1]));
      }
    }
  }

  lemma CellSymmetric(a: Word, b: Word, i: nat, j: nat)
    requires i <= |a| && j <= |b|
    ensures Cell(a, b, i, j) == Cell(b, a, j, i)
  {
    hide Osa;
    OsaSymmetric(a[..i], b[..j]);
  }

  lemma CellTrimLast(a: Word, b: Word, i: nat, j: nat)
    requires 0 < i <= |a| && 0 < j <= |b| && a[i - 1] == b[j - 1]
    ensures Cell(a, b, i, j) == Cell(a, b, i - 1, j - 1)
  {
    hide Cell;
    CellRecurrence(a, b, i, j);
    CellDropLast(a, b, i, j - 1);
    CellDropLast(b, a, j, i - 1);
    CellSymmetric(a, b, i - 1, j);
    CellSymmetric(a, b, i - 1, j - 1);
    if Swapped(a, b, i, j) {
      CellAtMost(a, b, i - 1, j - 1, Keep(a[i - 2]));
    }
  }

  /** A common last symbol does not count. */
  lemma OsaTrimLast(a: Word, b: Word)
    requires a != [] && b != [] && a[|a| - 1] == b[|b| - 1]
    ensures Osa(a, b) == Osa(a[..|a| - 1], b[..|b| - 1])
  {
    hide Osa;
    CellTrimLast(a, b, |a|, |b|);
    assert a[..|a|] == a && b[..|b|] == b;
  }

  /** A common first symbol does not count. */
  lemma OsaTrimFirst(a: Word, b: Word)
    requires a != [] && b != [] && a[0] == b[0]
    ensures Osa(a, b) == Osa(a[1..], b[1..])
  {
    hide Osa, Reverse;
    ReverseConcat([a[0]], a[1..]);
    ReverseConcat([b[0]], b[1..]);
    ReverseShort([a[0]]);
    assert a == [a[0]] + a[1..] && b == [b[0]] + b[1..];
    assert Reverse(a)[..|Reverse(a)| - 1] == Reverse(a[1..]) && Reverse(b)[..|Reverse(b)| - 1] == Reverse(b[1..]);
    OsaTrimLast(Reverse(a), Reverse(b));
    OsaReverse(a, b);
    OsaReverse(a[1..], b[1..]);
  }
}
