/** Matching a type query against a function signature, for signatures without type arguments,
  * associated types or constrained generics: the backtracking search that moves array elements
  * in place and renames the query's generics as it goes.
  */
module Unify {
  import opened Basics

  /** A type in a signature; negative ids stand for its generics. */
  datatype FnType = FnType(id: Option<int>, ty: int, path: seq<string>)

  /** A type in the query; negative ids stand for generics, a negative filter lets any kind pass. */
  datatype QueryElem = QueryElem(id: Option<int>, typeFilter: int, pathWithoutLast: seq<string>)

  /** Ids of the names that a query may use for several types; -1 where the index lacks the name. */
  datatype Names = Names(
    arrayOrSlice: int, slice: int, arrayType: int,
    tupleOrUnit: int, tuple: int, unit: int,
    hof: int, fn: int, fnMut: int, fnOnce: int, fnPtr: int)

  const NO_TYPE_FILTER := -1

  const ITEM_PARENTS: map<int, int> := map[19 := 18, 13 := 7, 12 := 7, 1 := 8, 17 := 8, 25 := 10, 23 := 16, 24 := 16,
                                           3 := 4]

  /** Which signature generic stands for which query generic; no renaming yet is the empty map. */
  type Renaming = map<int, int>

  // ---------- Match candidates ----------

  predicate TypePassesFilter(filter: int, ty: int) {
    filter <= NO_TYPE_FILTER || filter == ty || (ty in ITEM_PARENTS && filter == ITEM_PARENTS[ty])
  }

  predicate Generic(id: Option<int>) {
    id.Some? && id.value < 0
  }

  predicate SameName(id: Option<int>, queryId: Option<int>, names: Names) {
    || (queryId == Some(names.arrayOrSlice) && (id == Some(names.slice) || id == Some(names.arrayType)))
    || (queryId == Some(names.tupleOrUnit) && (id == Some(names.tuple) || id == Some(names.unit)))
    || (queryId == Some(names.hof) &&
        (id == Some(names.fn) || id == Some(names.fnMut) || id == Some(names.fnOnce) || id == Some(names.fnPtr)))
    || (id == queryId && queryId.Some?)
  }

  /** The components wanted occur in the path, in order. */
  predicate PathContains(path: seq<string>, wanted: seq<string>) {
    if wanted == [] then true
    else if path == [] then false
    else if path[0] == wanted[0] then PathContains(path[1..], wanted[1..])
    else PathContains(path[1..], wanted)
  }

  predicate IsMatchCandidate(fnType: FnType, queryElem: QueryElem, mgens: Renaming, names: Names) {
    TypePassesFilter(queryElem.typeFilter, fnType.ty) &&
    if Generic(fnType.id) && Generic(queryElem.id) then
      !(queryElem.id.value in mgens && mgens[queryElem.id.value] != fnType.id.value)
    else
      SameName(fnType.id, queryElem.id, names) && PathContains(fnType.path, queryElem.pathWithoutLast)
  }

  // ---------- What a match is ----------

  /** The filter lets the kind pass: any kind, this one, or the one it belongs to. */
  predicate Admits(filter: int, ty: int) {
    || filter < 0 || filter == ty
    || (filter == 18 && ty == 19) || (filter == 7 && (ty == 13 || ty == 12)) || (filter == 8 && (ty == 1 || ty == 17))
    || (filter == 10 && ty == 25) || (filter == 16 && (ty == 23 || ty == 24)) || (filter == 4 && ty == 3)
  }

  /** A name of the query and a name of a signature that it also stands for. */
  predicate Twins(q: int, f: int, names: Names) {
    || (q == names.arrayOrSlice && (f == names.slice || f == names.arrayType))
    || (q == names.tupleOrUnit && (f == names.tuple || f == names.unit))
    || (q == names.hof && (f == names.fn || f == names.fnMut || f == names.fnOnce || f == names.fnPtr))
  }

  /** Ascending places of the path that hold the components wanted. */
  ghost predicate Holds(path: seq<string>, wanted: seq<string>, places: seq<nat>) {
    && |places| == |wanted|
    && (forall k :: 0 <= k < |places| ==> places[k] < |path| && path[places[k]] == wanted[k])
    && (forall j, k :: 0 <= j < k < |places| ==> places[j] < places[k])
  }

  /** The pair could match, leaving aside what the generics already stand for: both are generics, or one names the
    * other and the path goes with it. */
  ghost predicate Fits(fnType: FnType, queryElem: QueryElem, names: Names) {
    && Admits(queryElem.typeFilter, fnType.ty)
    && fnType.id.Some? && queryElem.id.Some?
    && var f, q := fnType.id.value, queryElem.id.value;
       || (f < 0 && q < 0)
       || ((f == q || Twins(q, f, names)) && exists places :: Holds(fnType.path, queryElem.pathWithoutLast, places))
  }

  /** Matching the k-th query element with the type fixes what its id stands for. */
  predicate Binds(k: int, fnType: FnType, queryElem: QueryElem): (binds: bool)
    ensures binds ==> fnType.id.Some? && queryElem.id.Some?
  {
    Generic(fnType.id) && queryElem.id.Some? && (queryElem.id.value < 0 || k > 0)
  }

  predicate BindsTo(k: int, fnType: FnType, queryElem: QueryElem, x: int) {
    Binds(k, fnType, queryElem) && queryElem.id.value == x
  }

  predicate Agrees(k: int, fnType: FnType, queryElem: QueryElem, mgens: Renaming) {
    Binds(k, fnType, queryElem) ==> queryElem.id.value in mgens && mgens[queryElem.id.value] == fnType.id.value
  }

  /** Every query element has a type of its own that it fits. */
  ghost predicate Picks(types: seq<FnType>, query: seq<QueryElem>, pick: seq<nat>, names: Names) {
    && |pick| == |query|
    && (forall k :: 0 <= k < |pick| ==> pick[k] < |types| && Fits(types[pick[k]], query[k], names))
    && (forall j, k :: 0 <= j < k < |pick| ==> pick[j] != pick[k])
  }

  ghost predicate BoundBy(types: seq<FnType>, query: seq<QueryElem>, pick: seq<nat>, x: int)
    requires |pick| == |query| && forall k :: 0 <= k < |pick| ==> pick[k] < |types|
  {
    exists k :: 0 <= k < |pick| && BindsTo(k, types[pick[k]], query[k], x)
  }

  /** after extends before by exactly what the picked pairs fix, without contradiction. */
  ghost predicate Renames(types: seq<FnType>, query: seq<QueryElem>, pick: seq<nat>, before: Renaming, after: Renaming)
    requires |pick| == |query| && forall k :: 0 <= k < |pick| ==> pick[k] < |types|
  {
    && (forall x :: x in before ==> x in after && after[x] == before[x])
    && (forall k :: 0 <= k < |pick| ==> Agrees(k, types[pick[k]], query[k], after))
    && (forall x :: x in after ==> x in before || BoundBy(types, query, pick, x))
  }

  ghost predicate Solution(types: seq<FnType>, query: seq<QueryElem>, pick: seq<nat>, before: Renaming, after: Renaming,
                           names: Names) {
    Picks(types, query, pick, names) && Renames(types, query, pick, before, after)
  }

  /** No two query ids stand for the same generic. */
  ghost predicate OneToOne(mgens: Renaming) {
    forall x, y :: x in mgens && y in mgens && x != y ==> mgens[x] != mgens[y]
  }

  // ---------- Continuations ----------

  /** What is asked of the renaming once every element has its type. */
  datatype Callback =
    | CheckConflict
    | ThenOutputs(outputs: seq<FnType>, queryOutputs: seq<QueryElem>)

  ghost predicate Accepted(callback: Callback, mgens: Renaming, names: Names) {
    match callback
    case CheckConflict => OneToOne(mgens)
    case ThenOutputs(outputs, query) =>
      exists pick, after :: Solution(outputs, query, pick, mgens, after, names) && OneToOne(after)
  }

  ghost predicate Solvable(types: seq<FnType>, query: seq<QueryElem>, mgens: Renaming, callback: Callback,
                           names: Names) {
    exists pick, after :: Solution(types, query, pick, mgens, after, names) && Accepted(callback, after, names)
  }

  // ---------- One element at a time ----------

  /** The renaming after matching the k-th element with the type. */
  function Bound(k: int, fnType: FnType, queryElem: QueryElem, mgens: Renaming): Renaming {
    if Binds(k, fnType, queryElem) then mgens[queryElem.id.value := fnType.id.value] else mgens
  }

  lemma HoldsInPath(path: seq<string>, wanted: seq<string>, places: seq<nat>)
    requires wanted != [] && Holds(path, wanted, places)
    ensures path != []
  {
    assert places[0] < |path|;
  }

  lemma HoldsFirst(path: seq<string>, wanted: seq<string>, places: seq<nat>)
    requires path != [] && wanted != [] && Holds(path[1..], wanted[1..], places) && path[0] == wanted[0]
    ensures Holds(path, wanted, [0] + seq(|places|, k requires 0 <= k < |places| => places[k] + 1))
  {
  }

  lemma HoldsLater(path: seq<string>, wanted: seq<string>, places: seq<nat>)
    requires path != [] && Holds(path[1..], wanted, places)
    ensures Holds(path, wanted, seq(|places|, k requires 0 <= k < |places| => places[k] + 1))
  {
  }

  /** Of any places, those behind the first element hold what is wanted behind it. */
  lemma HoldsBehind(path: seq<string>, wanted: seq<string>, places: seq<nat>)
    requires path != [] && wanted != [] && Holds(path, wanted, places)
    ensures places[0] == 0 ==> path[0] == wanted[0]
    ensures exists inner :: Holds(path[1..], wanted[1..], inner)
    ensures places[0] > 0 ==> exists inner :: Holds(path[1..], wanted, inner)
  {
    var n := |places|;
    assert forall k :: 1 <= k < n ==> places[0] < places[k];
    var inner := seq(n - 1, k requires 0 <= k < n - 1 => places[k + 1] - 1);
    assert Holds(path[1..], wanted[1..], inner);
    if places[0] > 0 {
      var all := seq(n, k requires 0 <= k < n => places[k] - 1);
      assert Holds(path[1..], wanted, all);
    }
  }

  /** The scan that takes the first component equal to the next one wanted finds places if there are any. */
  lemma {:induction false} PathContainsIffHolds(path: seq<string>, wanted: seq<string>)
    ensures PathContains(path, wanted) <==> exists places :: Holds(path, wanted, places)
  {
    if wanted == [] {
      assert Holds(path, wanted, []);
    } else if path == [] {
      if places :| Holds(path, wanted, places) {
        HoldsInPath(path, wanted, places);
      }
    } else {
      PathContainsIffHolds(path[1..], wanted[1..]);
      PathContainsIffHolds(path[1..], wanted);
      if PathContains(path, wanted) {
        if path[0] == wanted[0] {
          var places :| Holds(path[1..], wanted[1..], places);
          HoldsFirst(path, wanted, places);
        } else {
          var places :| Holds(path[1..], wanted, places);
          HoldsLater(path, wanted, places);
        }
      }
      if places :| Holds(path, wanted, places) {
        assert places[0] < |path| && path[places[0]] == wanted[0];
        HoldsBehind(path, wanted, places);
      }
    }
  }

  /** The candidates are the pairs that fit, and do not contradict what the generic stands for. */
  lemma CandidateIffFits(fnType: FnType, queryElem: QueryElem, mgens: Renaming, names: Names)
    ensures IsMatchCandidate(fnType, queryElem, mgens, names) <==>
            && Fits(fnType, queryElem, names)
            && !(Generic(fnType.id) && Generic(queryElem.id) &&
                 queryElem.id.value in mgens && mgens[queryElem.id.value] != fnType.id.value)
  {
    hide PathContains, Holds;
    PathContainsIffHolds(fnType.path, queryElem.pathWithoutLast);
  }

  /** The k-th element may take the type under the renaming so far. */
  ghost predicate Allowed(k: int, fnType: FnType, queryElem: QueryElem, mgens: Renaming, names: Names) {
    && Fits(fnType, queryElem, names)
    && (Binds(k, fnType, queryElem) && queryElem.id.value in mgens ==> mgens[queryElem.id.value] == fnType.id.value)
  }

  function Removed<T>(s: seq<T>, i: nat): seq<T>
    requires i < |s|
  {
    s[i := s[|s| - 1]][..|s| - 1]
  }

  /** Where an index of the array without element i lies in the whole array, and back. */
  function Outward(p: nat, i: nat, last: nat): nat {
    if p == i then last else p
  }

  function Inward(p: nat, i: nat, last: nat): nat {
    if p == last then i else p
  }

  function MapOutward(pick: seq<nat>, i: nat, last: nat): seq<nat> {
    seq(|pick|, k requires 0 <= k < |pick| => Outward(pick[k], i, last))
  }

  function MapInward(pick: seq<nat>, i: nat, last: nat): seq<nat> {
    seq(|pick|, k requires 0 <= k < |pick| => Inward(pick[k], i, last))
  }

  lemma ExtendPicks(types: seq<FnType>, query: seq<QueryElem>, i: nat, pick: seq<nat>, names: Names)
    requires i < |types| && query != [] && Fits(types[i], query[|query| - 1], names)
    requires Picks(Removed(types, i), query[..|query| - 1], pick, names)
    ensures var whole := MapOutward(pick, i, |types| - 1) + [i];
            && Picks(types, query, whole, names)
            && forall k :: 0 <= k < |pick| ==> types[whole[k]] == Removed(types, i)[pick[k]]
  {
  }

  /** Choosing type i for the last element leaves a smaller problem, and its solutions extend. */
  lemma ExtendSolution(types: seq<FnType>, query: seq<QueryElem>, i: nat, pick: seq<nat>, before: Renaming,
                       after: Renaming, names: Names)
    requires i < |types| && query != []
    requires var last := |query| - 1;
             && Allowed(last, types[i], query[last], before, names)
             && Solution(Removed(types, i), query[..last], pick, Bound(last, types[i], query[last], before), after,
                         names)
    ensures Solution(types, query, MapOutward(pick, i, |types| - 1) + [i], before, after, names)
  {
    hide Fits;
    var last := |query| - 1;
    var whole := MapOutward(pick, i, |types| - 1) + [i];
    var rest := Removed(types, i);
    ExtendPicks(types, query, i, pick, names);
    hide MapOutward, Removed;
    forall k | 0 <= k <= last ensures Agrees(k, types[whole[k]], query[k], after) {
      if k < last {
        assert Agrees(k, rest[pick[k]], query[..last][k], after);
        assert types[whole[k]] == rest[pick[k]];
        assert query[..last][k] == query[k];
      } else {
        assert whole[last] == i;
        if Binds(last, types[i], query[last]) {
          var x, bound := query[last].id.value, Bound(last, types[i], query[last], before);
          assert x in bound && bound[x] == types[i].id.value;
          assert Renames(rest, query[..last], pick, bound, after);
        }
      }
    }
    forall x | x in before ensures x in after && after[x] == before[x] {
      assert x in Bound(last, types[i], query[last], before);
    }
    forall x | x in after ensures x in before || BoundBy(types, query, whole, x) {
      if x !in Bound(last, types[i], query[last], before) {
        var k :| 0 <= k < |pick| && BindsTo(k, rest[pick[k]], query[..last][k], x);
        assert BindsTo(k, types[whole[k]], query[k], x);
      } else if x !in before {
        assert BindsTo(last, types[whole[last]], query[last], x);
      }
    }
  }

  lemma ShrinkPicks(types: seq<FnType>, query: seq<QueryElem>, pick: seq<nat>, names: Names)
    requires query != [] && Picks(types, query, pick, names)
    ensures var last := |query| - 1;
            var i := pick[last];
            var inner := MapInward(pick[..last], i, |types| - 1);
            && i < |types| && Fits(types[i], query[last], names)
            && Picks(Removed(types, i), query[..last], inner, names)
            && forall k :: 0 <= k < last ==> Removed(types, i)[inner[k]] == types[pick[k]]
  {
  }

  /** Conversely, a solution allows its choice for the last element and solves what is left. */
  lemma ShrinkSolution(types: seq<FnType>, query: seq<QueryElem>, pick: seq<nat>, before: Renaming, after: Renaming,
                       names: Names)
    requires query != [] && Solution(types, query, pick, before, after, names)
    ensures var last := |query| - 1;
            var i := pick[last];
            && i < |types|
            && Allowed(last, types[i], query[last], before, names)
            && Solution(Removed(types, i), query[..last], MapInward(pick[..last], i, |types| - 1),
                        Bound(last, types[i], query[last], before), after, names)
  {
    hide Fits;
    var last := |query| - 1;
    var i := pick[last];
    var rest, inner := Removed(types, i), MapInward(pick[..last], i, |types| - 1);
    var bound := Bound(last, types[i], query[last], before);
    ShrinkPicks(types, query, pick, names);
    hide MapInward, Removed;
    forall k | 0 <= k < last ensures Agrees(k, rest[inner[k]], query[..last][k], after) {
      assert Agrees(k, types[pick[k]], query[k], after);
    }
    assert Renames(types, query, pick, before, after);
    assert Agrees(last, types[i], query[last], after);
    assert forall x :: x in before ==> x in after && after[x] == before[x];
    forall x | x in bound ensures x in after && after[x] == bound[x] {
      assert x in before || BindsTo(last, types[i], query[last], x);
    }
    forall x | x in after ensures x in bound || BoundBy(rest, query[..last], inner, x) {
      if x !in before {
        var k :| 0 <= k < |pick| && BindsTo(k, types[pick[k]], query[k], x);
        assert k < last ==> BindsTo(k, rest[inner[k]], query[..last][k], x);
      }
    }
  }

  /** The last element can be given type i, and the others can then be given the rest. */
  ghost predicate SolvableWith(types: seq<FnType>, query: seq<QueryElem>, mgens: Renaming, callback: Callback,
                               names: Names, i: nat)
    requires i < |types| && query != []
  {
    var last := |query| - 1;
    && Allowed(last, types[i], query[last], mgens, names)
    && Solvable(Removed(types, i), query[..last], Bound(last, types[i], query[last], mgens), callback, names)
  }

  lemma SolvableByLast(types: seq<FnType>, query: seq<QueryElem>, mgens: Renaming, callback: Callback, names: Names)
    requires query != []
    ensures Solvable(types, query, mgens, callback, names) <==>
            exists i: nat :: i < |types| && SolvableWith(types, query, mgens, callback, names, i)
  {
    if Solvable(types, query, mgens, callback, names) {
      var pick, after :| Solution(types, query, pick, mgens, after, names) && Accepted(callback, after, names);
      ShrinkSolution(types, query, pick, mgens, after, names);
      assert SolvableWith(types, query, mgens, callback, names, pick[|query| - 1]);
    }
    if i: nat :| i < |types| && SolvableWith(types, query, mgens, callback, names, i) {
      var last := |query| - 1;
      var pick, after :| Solution(Removed(types, i), query[..last], pick, Bound(last, types[i], query[last], mgens),
                                  after, names)
                         && Accepted(callback, after, names);
      ExtendSolution(types, query, i, pick, mgens, after, names);
    }
  }

  lemma NothingToMatch(types: seq<FnType>, mgens: Renaming, callback: Callback, names: Names)
    ensures Solution(types, [], [], mgens, mgens, names)
    ensures Solvable(types, [], mgens, callback, names) <==> Accepted(callback, mgens, names)
  {
    assert Solution(types, [], [], mgens, mgens, names);
    if Solvable(types, [], mgens, callback, names) {
      var pick, after :| Solution(types, [], pick, mgens, after, names) && Accepted(callback, after, names);
      forall x | x in after ensures x in mgens {
        assert x in mgens || BoundBy(types, [], pick, x);
      }
      forall x | x in mgens ensures x in after && after[x] == mgens[x] {
      }
      assert after == mgens;
    }
  }

  // ---------- The search ----------

  /** A type of the result, marked if a query element was matched with it. */
  datatype Shown = Shown(fnType: FnType, highlighted: bool)

  /** The result shows every type in its place, and marks the types that were picked. */
  ghost predicate Shows(result: seq<Shown>, types: seq<FnType>, pick: seq<nat>) {
    && |result| == |types|
    && forall p: nat :: p < |types| ==> result[p].fnType == types[p] && (result[p].highlighted <==> p in pick)
  }

  ghost predicate ShowsSolution(result: seq<Shown>, types: seq<FnType>, query: seq<QueryElem>, mgens: Renaming,
                                callback: Callback, names: Names) {
    exists pick, after ::
      Solution(types, query, pick, mgens, after, names) && Accepted(callback, after, names) &&
      Shows(result, types, pick)
  }

  function Rank(callback: Callback): nat {
    if callback.CheckConflict? then 0 else 1
  }

  lemma Member<T>(s: set<T>) returns (x: T)
    requires s != {}
    ensures x in s
  {
    x :| x in s;
  }

  method CheckTypeMgensForConflict(mgens: Renaming) returns (ok: bool)
    ensures ok <==> OneToOne(mgens)
  {
    var fnTypes: set<int> := {};
    var left := mgens.Keys;
    while left != {}
      invariant left <= mgens.Keys
      invariant fnTypes == set x | x in mgens.Keys - left :: mgens[x]
      invariant forall x, y :: x in mgens.Keys - left && y in mgens.Keys - left && x != y ==> mgens[x] != mgens[y]
    {
      ghost var some := Member(left);
      var x :| x in left;
      if mgens[x] in fnTypes {
        return false;
      }
      fnTypes := fnTypes + {mgens[x]};
      left := left - {x};
    }
    return true;
  }

  lemma ShowNothing(types: seq<FnType>, shown: seq<Shown>)
    requires |shown| == |types| && forall p: nat :: p < |types| ==> shown[p] == Shown(types[p], false)
    ensures Shows(shown, types, [])
  {
  }

  lemma SolvableWithMeans(types: seq<FnType>, query: seq<QueryElem>, mgens: Renaming, callback: Callback, names: Names,
                          i: nat)
    requires i < |types| && query != []
    ensures var last := |query| - 1;
            SolvableWith(types, query, mgens, callback, names, i) <==>
            && Allowed(last, types[i], query[last], mgens, names)
            && Solvable(Removed(types, i), query[..last], Bound(last, types[i], query[last], mgens), callback, names)
  {
  }

  lemma CandidateIsAllowed(k: nat, fnType: FnType, queryElem: QueryElem, mgens: Renaming, names: Names)
    requires k > 0
    ensures Allowed(k, fnType, queryElem, mgens, names) <==>
            && IsMatchCandidate(fnType, queryElem, mgens, names)
            && !(Generic(fnType.id) && queryElem.id.Some? && queryElem.id.value in mgens &&
                 mgens[queryElem.id.value] != fnType.id.value)
  {
    hide IsMatchCandidate, Fits;
    CandidateIffFits(fnType, queryElem, mgens, names);
  }

  lemma InnerPlace(types: seq<FnType>, pick: seq<nat>, i: nat, p: nat)
    requires i < |types| && p < |types| && p != i && forall k :: 0 <= k < |pick| ==> pick[k] < |types| - 1
    ensures var q := Inward(p, i, |types| - 1);
            && Removed(types, i)[q] == types[p]
            && (q in pick <==> p in MapOutward(pick, i, |types| - 1) + [i])
  {
    var q, whole := Inward(p, i, |types| - 1), MapOutward(pick, i, |types| - 1) + [i];
    if q in pick {
      var k :| 0 <= k < |pick| && pick[k] == q;
      assert whole[k] == p;
    }
    if p in whole {
      var k :| 0 <= k < |whole| && whole[k] == p;
      assert pick[k] == q;
    }
  }

  /** Undoing the move: what the smaller problem showed, with the last type back in its place. */
  lemma ShowExtended(types: seq<FnType>, query: seq<QueryElem>, i: nat, inner: seq<Shown>, shown: seq<Shown>,
                     mgens: Renaming, callback: Callback, names: Names)
    requires i < |types| && query != []
    requires Allowed(|query| - 1, types[i], query[|query| - 1], mgens, names)
    requires ShowsSolution(inner, Removed(types, i), query[..|query| - 1],
                           Bound(|query| - 1, types[i], query[|query| - 1], mgens), callback, names)
    requires |shown| == |types| && shown[i] == Shown(types[i], true)
    requires i < |types| - 1 ==> shown[|types| - 1] == inner[i]
    requires forall p: nat :: p < |types| - 1 && p != i ==> shown[p] == inner[p]
    ensures ShowsSolution(shown, types, query, mgens, callback, names)
  {
    var last := |query| - 1;
    var pick, after :| Solution(Removed(types, i), query[..last], pick, Bound(last, types[i], query[last], mgens),
                                after, names)
                       && Accepted(callback, after, names) && Shows(inner, Removed(types, i), pick);
    ExtendSolution(types, query, i, pick, mgens, after, names);
    var outer := MapOutward(pick, i, |types| - 1);
    var whole := outer + [i];
    forall p: nat | p < |types| ensures shown[p].fnType == types[p] && (shown[p].highlighted <==> p in whole) {
      if p == i {
        assert whole[last] == i;
      } else {
        InnerPlace(types, pick, i, p);
      }
    }
    assert Shows(shown, types, whole);
  }

  lemma OneLeft(types: seq<FnType>, queryElem: QueryElem, mgens: Renaming, callback: Callback, names: Names, i: nat)
    requires i < |types|
    ensures SolvableWith(types, [queryElem], mgens, callback, names, i) <==>
            Allowed(0, types[i], queryElem, mgens, names) &&
            Accepted(callback, Bound(0, types[i], queryElem, mgens), names)
  {
    assert [queryElem][..0] == [];
    NothingToMatch(Removed(types, i), Bound(0, types[i], queryElem, mgens), callback, names);
  }

  lemma ShowOne(types: seq<FnType>, queryElem: QueryElem, mgens: Renaming, callback: Callback, names: Names, i: nat,
                shown: seq<Shown>)
    requires i < |types| && Allowed(0, types[i], queryElem, mgens, names)
    requires Accepted(callback, Bound(0, types[i], queryElem, mgens), names)
    requires |shown| == |types| && forall p: nat :: p < |types| ==> shown[p] == Shown(types[p], p == i)
    ensures ShowsSolution(shown, types, [queryElem], mgens, callback, names)
  {
    var after := Bound(0, types[i], queryElem, mgens);
    NothingToMatch(Removed(types, i), after, callback, names);
    assert [queryElem][..0] == [];
    ExtendSolution(types, [queryElem], i, [], mgens, after, names);
    assert MapOutward([], i, |types| - 1) + [i] == [i];
    assert Shows(shown, types, [i]);
  }

  method Call(callback: Callback, mgens: Renaming, names: Names) returns (ok: bool)
    ensures ok <==> Accepted(callback, mgens, names)
    decreases Rank(callback), 0, 0
  {
    match callback
    case CheckConflict =>
      ok := CheckTypeMgensForConflict(mgens);
    case ThenOutputs(outputs, queryOutputs) =>
      var r := UnifyFunctionTypes(outputs, queryOutputs, mgens, CheckConflict, names);
      assert Solvable(outputs, queryOutputs, mgens, CheckConflict, names) <==> Accepted(callback, mgens, names);
      ok := r.Some?;
  }

  /** Succeeds exactly if there is a solution, and then shows one, in the original order. */
  method UnifyFunctionTypes(fnTypesIn: seq<FnType>, queryElems: seq<QueryElem>, mgens: Renaming, callback: Callback,
                            names: Names)
    returns (result: Option<seq<Shown>>)
    ensures result.Some? <==> Solvable(fnTypesIn, queryElems, mgens, callback, names)
    ensures result.Some? ==> |result.value| == |fnTypesIn|
    ensures result.Some? ==> ShowsSolution(result.value, fnTypesIn, queryElems, mgens, callback, names)
    decreases Rank(callback), |queryElems|, 1
  {
    hide Solution, Accepted, Shows, Solvable, SolvableWith, Allowed, IsMatchCandidate;
    if |queryElems| == 0 {
      NothingToMatch(fnTypesIn, mgens, callback, names);
      var ok := Call(callback, mgens, names);
      if !ok {
        return None;
      }
      result := Some(seq(|fnTypesIn|, p requires 0 <= p < |fnTypesIn| => Shown(fnTypesIn[p], false)));
      ShowNothing(fnTypesIn, result.value);
      return;
    }
    SolvableByLast(fnTypesIn, queryElems, mgens, callback, names);
    if |fnTypesIn| == 0 {
      return None;
    }
    var ql, fl := |queryElems|, |fnTypesIn|;
    if ql == 1 {
      result := UnifyOne(fnTypesIn, queryElems[0], mgens, callback, names);
      assert queryElems == [queryElems[0]];
      return;
    }
    var fnTypes := fnTypesIn;
    var flast, qlast := fl - 1, ql - 1;
    var queryElem := queryElems[qlast];
    var i := flast;
    while i >= 0
      invariant -1 <= i <= flast && fnTypes == fnTypesIn
      invariant forall p: nat :: i < p < |fnTypesIn| ==> !SolvableWith(fnTypesIn, queryElems, mgens, callback, names, p)
    {
      var fnType := fnTypes[i];
      SolvableWithMeans(fnTypesIn, queryElems, mgens, callback, names, i);
      CandidateIsAllowed(qlast, fnType, queryElem, mgens, names);
      var candidate := IsMatchCandidate(fnType, queryElem, mgens, names);
      if candidate && fnType.id.Some? && queryElem.id.Some? && fnType.id.value < 0
         && queryElem.id.value in mgens && mgens[queryElem.id.value] != fnType.id.value {
        candidate := false;
      }
      if candidate {
        var mgensScratch := mgens;
        if fnType.id.Some? && queryElem.id.Some? && fnType.id.value < 0 {
          mgensScratch := mgens[queryElem.id.value := fnType.id.value];
        }
        fnTypes := fnTypes[i := fnTypes[flast]];
        fnTypes := fnTypes[..flast];
        var passes := UnifyFunctionTypes(fnTypes, queryElems[..qlast], mgensScratch, callback, names);
        if passes.Some? {
          var shown := passes.value;
          shown := shown + [if i < flast then shown[i] else Shown(fnType, true)];
          shown := shown[i := Shown(fnType, true)];
          ShowExtended(fnTypesIn, queryElems, i, passes.value, shown, mgens, callback, names);
          return Some(shown);
        }
        fnTypes := fnTypes + [if i < flast then fnTypes[i] else fnType];
        fnTypes := fnTypes[i := fnType];
      }
      i := i - 1;
    }
    return None;
  }

  /** One element left: try the types from the first to the last. */
  method UnifyOne(fnTypesIn: seq<FnType>, queryElem: QueryElem, mgens: Renaming, callback: Callback, names: Names)
    returns (result: Option<seq<Shown>>)
    requires |fnTypesIn| > 0
    ensures result.Some? <==>
            exists p: nat :: p < |fnTypesIn| && SolvableWith(fnTypesIn, [queryElem], mgens, callback, names, p)
    ensures result.Some? ==> |result.value| == |fnTypesIn|
    ensures result.Some? ==> ShowsSolution(result.value, fnTypesIn, [queryElem], mgens, callback, names)
    decreases Rank(callback), 1, 0
  {
    var i := 0;
    while i < |fnTypesIn|
      invariant 0 <= i <= |fnTypesIn|
      invariant forall p: nat :: p < i ==> !SolvableWith(fnTypesIn, [queryElem], mgens, callback, names, p)
    {
      var fnType := fnTypesIn[i];
      CandidateIffFits(fnType, queryElem, mgens, names);
      if IsMatchCandidate(fnType, queryElem, mgens, names) {
        var mgensScratch := mgens;
        if Generic(fnType.id) && Generic(queryElem.id) {
          mgensScratch := mgens[queryElem.id.value := fnType.id.value];
        }
        OneLeft(fnTypesIn, queryElem, mgens, callback, names, i);
        var ok := Call(callback, mgensScratch, names);
        if ok {
          result := Some(seq(|fnTypesIn|, p requires 0 <= p < |fnTypesIn| => Shown(fnTypesIn[p], p == i)));
          assert SolvableWith(fnTypesIn, [queryElem], mgens, callback, names, i);
          ghost var rest := Removed(fnTypesIn, i);
          NothingToMatch(rest, Bound(0, fnType, queryElem, mgens), callback, names);
          ShowOne(fnTypesIn, queryElem, mgens, callback, names, i, result.value);
          return;
        }
      }
      i := i + 1;
    }
    return None;
  }

  // ---------- Whole signatures ----------

  ghost predicate AllAgree(types: seq<FnType>, query: seq<QueryElem>, pick: seq<nat>, mgens: Renaming)
    requires |pick| == |query| && forall k :: 0 <= k < |pick| ==> pick[k] < |types|
  {
    forall k :: 0 <= k < |pick| ==> Agrees(k, types[pick[k]], query[k], mgens)
  }

  /** Inputs and outputs can both be picked, under one one-to-one renaming of generics. */
  ghost predicate SignatureMatches(inputs: seq<FnType>, query: seq<QueryElem>, outputs: seq<FnType>,
                                   queryOutputs: seq<QueryElem>, names: Names) {
    exists pick, pickOut, mgens ::
      && Picks(inputs, query, pick, names) && Picks(outputs, queryOutputs, pickOut, names)
      && OneToOne(mgens) && AllAgree(inputs, query, pick, mgens) && AllAgree(outputs, queryOutputs, pickOut, mgens)
  }

  /** The part of a renaming that the picks need, on top of what is there. */
  function Needed(types: seq<FnType>, query: seq<QueryElem>, pick: seq<nat>, before: Renaming,
                  mgens: Renaming): Renaming
    requires |pick| == |query| && forall k :: 0 <= k < |pick| ==> pick[k] < |types|
  {
    map x |
      x in mgens && (x in before || exists k :: 0 <= k < |pick| && BindsTo(k, types[pick[k]], query[k], x)) :: mgens[x]
  }

  lemma NeededRenames(types: seq<FnType>, query: seq<QueryElem>, pick: seq<nat>, before: Renaming, mgens: Renaming,
                      names: Names)
    requires Picks(types, query, pick, names) && AllAgree(types, query, pick, mgens)
    requires forall x :: x in before ==> x in mgens && mgens[x] == before[x]
    ensures Solution(types, query, pick, before, Needed(types, query, pick, before, mgens), names)
  {
  }

  /** The nested call, inputs first and outputs in the continuation, decides just that. */
  lemma SolvableIsSignatureMatches(inputs: seq<FnType>, query: seq<QueryElem>, outputs: seq<FnType>,
                                   queryOutputs: seq<QueryElem>, names: Names)
    ensures Solvable(inputs, query, map[], ThenOutputs(outputs, queryOutputs), names) <==>
            SignatureMatches(inputs, query, outputs, queryOutputs, names)
  {
    hide Fits;
    if Solvable(inputs, query, map[], ThenOutputs(outputs, queryOutputs), names) {
      var pick, mid :| Solution(inputs, query, pick, map[], mid, names) &&
                       Accepted(ThenOutputs(outputs, queryOutputs), mid, names);
      var pickOut, after :| Solution(outputs, queryOutputs, pickOut, mid, after, names) && OneToOne(after);
      forall k | 0 <= k < |pick| ensures Agrees(k, inputs[pick[k]], query[k], after) {
        assert Agrees(k, inputs[pick[k]], query[k], mid);
        assert Renames(outputs, queryOutputs, pickOut, mid, after);
        assert forall x :: x in mid ==> x in after && after[x] == mid[x];
      }
      assert AllAgree(inputs, query, pick, after) && AllAgree(outputs, queryOutputs, pickOut, after);
    }
    if SignatureMatches(inputs, query, outputs, queryOutputs, names) {
      var pick, pickOut, mgens :|
        && Picks(inputs, query, pick, names) && Picks(outputs, queryOutputs, pickOut, names)
        && OneToOne(mgens) && AllAgree(inputs, query, pick, mgens) && AllAgree(outputs, queryOutputs, pickOut, mgens);
      NeededRenames(inputs, query, pick, map[], mgens, names);
      var mid := Needed(inputs, query, pick, map[], mgens);
      NeededRenames(outputs, queryOutputs, pickOut, mid, mgens, names);
      var after := Needed(outputs, queryOutputs, pickOut, mid, mgens);
      assert OneToOne(after);
      assert Accepted(ThenOutputs(outputs, queryOutputs), mid, names);
    }
  }

  /** Whether a function's signature answers the query. */
  method MatchesSignature(inputs: seq<FnType>, outputs: seq<FnType>, query: seq<QueryElem>,
                          queryOutputs: seq<QueryElem>, names: Names)
    returns (ok: bool)
    ensures ok <==> SignatureMatches(inputs, query, outputs, queryOutputs, names)
  {
    var result := UnifyFunctionTypes(inputs, query, map[], ThenOutputs(outputs, queryOutputs), names);
    SolvableIsSignatureMatches(inputs, query, outputs, queryOutputs, names);
    return result.Some?;
  }

  /** One type answers a query for one exactly if both are generics, or one names the other and the components wanted
    * occur in the path in order; and in each case the filter lets its kind pass. */
  lemma SingleMatch(fnType: FnType, queryElem: QueryElem, f: int, q: int, names: Names)
    requires fnType.id == Some(f) && queryElem.id == Some(q)
    ensures SignatureMatches([fnType], [queryElem], [], [], names) <==>
            && Admits(queryElem.typeFilter, fnType.ty)
            && (|| (f < 0 && q < 0)
                || ((f == q || Twins(q, f, names)) &&
                    exists places :: Holds(fnType.path, queryElem.pathWithoutLast, places)))
  {
    hide Holds, Admits, Twins;
    if Fits(fnType, queryElem, names) {
      assert Picks([fnType], [queryElem], [0], names) && Picks([], [], [], names);
      var mgens := if Binds(0, fnType, queryElem) then map[q := f] else map[];
      assert OneToOne(mgens) && AllAgree([fnType], [queryElem], [0], mgens) && AllAgree([], [], [], mgens);
    }
    if pick, pickOut, mgens :|
       && Picks([fnType], [queryElem], pick, names) && Picks([], [], pickOut, names)
       && OneToOne(mgens) && AllAgree([fnType], [queryElem], pick, mgens) && AllAgree([], [], pickOut, mgens) {
      assert pick[0] == 0;
    }
  }

  // ---------- When a match is a renaming ----------

  /** Matched pairs agree on being generic, and generics are renamed by mgens. */
  ghost predicate Renamed(types: seq<FnType>, query: seq<QueryElem>, pick: seq<nat>, mgens: Renaming)
    requires |pick| == |query| && forall k :: 0 <= k < |pick| ==> pick[k] < |types|
  {
    forall k :: 0 <= k < |pick| ==>
      (Generic(types[pick[k]].id) <==> Generic(query[k].id)) &&
      (Generic(query[k].id) ==> query[k].id.value in mgens && mgens[query[k].id.value] == types[pick[k]].id.value)
  }

  /** Types can be picked under one injective renaming of the query's generics: no word about positions. */
  ghost predicate InjectiveRenaming(inputs: seq<FnType>, query: seq<QueryElem>, outputs: seq<FnType>,
                                    queryOutputs: seq<QueryElem>,
                                    names: Names) {
    exists pick, pickOut, mgens ::
      && Picks(inputs, query, pick, names) && Picks(outputs, queryOutputs, pickOut, names)
      && OneToOne(mgens) && Renamed(inputs, query, pick, mgens) && Renamed(outputs, queryOutputs, pickOut, mgens)
  }

  predicate SameSign(q: int, f: int) {
    q < 0 <==> f < 0
  }

  /** In each of the three groups, the index has all the names or none. */
  predicate Coherent(names: Names) {
    && SameSign(names.arrayOrSlice, names.slice) && SameSign(names.arrayOrSlice, names.arrayType)
    && SameSign(names.tupleOrUnit, names.tuple) && SameSign(names.tupleOrUnit, names.unit)
    && SameSign(names.hof, names.fn) && SameSign(names.hof, names.fnMut)
    && SameSign(names.hof, names.fnOnce) && SameSign(names.hof, names.fnPtr)
  }

  ghost predicate MatchIsRenaming(names: Names) {
    forall inputs, query, outputs, queryOutputs ::
      SignatureMatches(inputs, query, outputs, queryOutputs, names) <==>
      InjectiveRenaming(inputs, query, outputs, queryOutputs, names)
  }

  /** A name in the index whose twin is not, or the other way round, matches what no renaming explains. */
  lemma TwinsOfOtherSign(q: int, f: int, names: Names)
    requires Twins(q, f, names) && !SameSign(q, f)
    ensures var inputs, query := [FnType(Some(f), 0, [])], [QueryElem(Some(q), NO_TYPE_FILTER, [])];
            SignatureMatches(inputs, query, [], [], names) && !InjectiveRenaming(inputs, query, [], [], names)
  {
    var inputs, query := [FnType(Some(f), 0, [])], [QueryElem(Some(q), NO_TYPE_FILTER, [])];
    assert Holds([], [], []);
    assert Picks(inputs, query, [0], names) && Picks([], [], [], names);
    assert AllAgree(inputs, query, [0], map[]) && AllAgree([], [], [], map[]);
    forall pick, mgens | Picks(inputs, query, pick, names) ensures !Renamed(inputs, query, pick, mgens) {
      assert pick[0] == 0;
    }
  }

  lemma CoherentMatchIsRenaming(inputs: seq<FnType>, query: seq<QueryElem>, outputs: seq<FnType>,
                                queryOutputs: seq<QueryElem>,
                                names: Names)
    requires Coherent(names)
    ensures SignatureMatches(inputs, query, outputs, queryOutputs, names) <==>
            InjectiveRenaming(inputs, query, outputs, queryOutputs, names)
  {
  }

  /** A signature matches exactly if its types can be picked under one injective renaming: this holds of an index
    * exactly if it has all names of a group or none. */
  lemma MatchIsRenamingIff(names: Names)
    ensures MatchIsRenaming(names) <==> Coherent(names)
  {
    if Coherent(names) {
      forall inputs, query, outputs, queryOutputs
        ensures SignatureMatches(inputs, query, outputs, queryOutputs, names) <==>
                InjectiveRenaming(inputs, query, outputs, queryOutputs, names)
      {
        CoherentMatchIsRenaming(inputs, query, outputs, queryOutputs, names);
      }
    } else {
      var q, f :| Twins(q, f, names) && !SameSign(q, f);
      TwinsOfOtherSign(q, f, names);
    }
  }

  // ---------- When the order of the query matters ----------

  ghost predicate OrderIrrelevant(names: Names) {
    forall inputs, query, query', outputs, queryOutputs, queryOutputs' ::
      multiset(query) == multiset(query') && multiset(queryOutputs) == multiset(queryOutputs') ==>
        (SignatureMatches(inputs, query, outputs, queryOutputs, names) <==>
         SignatureMatches(inputs, query', outputs, queryOutputs', names))
  }

  /** A query that is not generic may take a generic of the signature. */
  predicate TakesGeneric(q: int, f: int, names: Names) {
    Twins(q, f, names) && q >= 0 && f < 0
  }

  /** No name of the query is in the index while one it also stands for is not. */
  predicate NoneTakesGeneric(names: Names) {
    && (names.arrayOrSlice >= 0 ==> names.slice >= 0 && names.arrayType >= 0)
    && (names.tupleOrUnit >= 0 ==> names.tuple >= 0 && names.unit >= 0)
    && (names.hof >= 0 ==> names.fn >= 0 && names.fnMut >= 0 && names.fnOnce >= 0 && names.fnPtr >= 0)
  }

  /** How to reorder one list into the other. */
  ghost predicate Reorders(perm: seq<nat>, query: seq<QueryElem>, query': seq<QueryElem>) {
    && |perm| == |query'| == |query|
    && (forall k :: 0 <= k < |perm| ==> perm[k] < |query| && query'[k] == query[perm[k]])
    && (forall j, k :: 0 <= j < k < |perm| ==> perm[j] != perm[k])
  }

  lemma SameLength(query: seq<QueryElem>, query': seq<QueryElem>)
    requires multiset(query) == multiset(query')
    ensures |query| == |query'|
  {
    assert |multiset(query)| == |query| && |multiset(query')| == |query'|;
  }

  /** Where the last element of one list stands in the other, and what is left without it. */
  lemma Without(query: seq<QueryElem>, query': seq<QueryElem>) returns (i: nat)
    requires multiset(query) == multiset(query') && query' != []
    ensures i < |query| && query[i] == query'[|query'| - 1]
    ensures multiset(query[..i] + query[i + 1..]) == multiset(query'[..|query'| - 1])
  {
    var e := query'[|query'| - 1];
    assert e in multiset(query);
    i :| i < |query| && query[i] == e;
    assert query == query[..i] + [e] + query[i + 1..];
    assert query' == query'[..|query'| - 1] + [e];
    assert multiset(query[..i] + query[i + 1..]) == multiset(query) - multiset{e};
  }

  lemma LastBack(query: seq<QueryElem>, query': seq<QueryElem>, i: nat, p: seq<nat>) returns (perm: seq<nat>)
    requires |query'| == |query| > 0 && i < |query| && query[i] == query'[|query'| - 1]
    requires Reorders(p, query[..i] + query[i + 1..], query'[..|query'| - 1])
    ensures Reorders(perm, query, query')
  {
    var places := seq(|p|, k requires 0 <= k < |p| => if p[k] < i then p[k] else p[k] + 1);
    perm := places + [i];
    var rest := query[..i] + query[i + 1..];
    forall k | 0 <= k < |p| ensures perm[k] < |query| && query'[k] == query[perm[k]] {
      assert rest[p[k]] == query[perm[k]] && query'[..|query'| - 1][k] == query'[k];
    }
  }

  lemma {:induction false} SomeReordering(query: seq<QueryElem>, query': seq<QueryElem>) returns (perm: seq<nat>)
    requires multiset(query) == multiset(query')
    ensures Reorders(perm, query, query')
    decreases |query'|
  {
    SameLength(query, query');
    if query' == [] {
      perm := [];
    } else {
      hide Reorders;
      var last := |query'| - 1;
      var i := Without(query, query');
      var p := SomeReordering(query[..i] + query[i + 1..], query'[..last]);
      perm := LastBack(query, query', i, p);
    }
  }

  /** Where none takes a generic, what a pair binds does not depend on its place. */
  lemma ReorderedAgrees(types: seq<FnType>, query: seq<QueryElem>, query': seq<QueryElem>, perm: seq<nat>,
                        pick: seq<nat>,
                        mgens: Renaming, names: Names)
    returns (pick': seq<nat>)
    requires NoneTakesGeneric(names) && Reorders(perm, query, query')
    requires Picks(types, query, pick, names) && AllAgree(types, query, pick, mgens)
    ensures Picks(types, query', pick', names) && AllAgree(types, query', pick', mgens)
  {
    pick' := seq(|perm|, k requires 0 <= k < |perm| => pick[perm[k]]);
    forall k | 0 <= k < |pick'| ensures Agrees(k, types[pick'[k]], query'[k], mgens) {
      var fnType, queryElem := types[pick[perm[k]]], query[perm[k]];
      assert Fits(fnType, queryElem, names) && Agrees(perm[k], fnType, queryElem, mgens);
    }
  }

  lemma ReorderedMatches(inputs: seq<FnType>, query: seq<QueryElem>, query': seq<QueryElem>, outputs: seq<FnType>,
                         queryOutputs: seq<QueryElem>, queryOutputs': seq<QueryElem>, names: Names)
    requires NoneTakesGeneric(names)
    requires multiset(query) == multiset(query') && multiset(queryOutputs) == multiset(queryOutputs')
    ensures SignatureMatches(inputs, query, outputs, queryOutputs, names) ==>
            SignatureMatches(inputs, query', outputs, queryOutputs', names)
  {
    hide Fits, Agrees, Reorders;
    if SignatureMatches(inputs, query, outputs, queryOutputs, names) {
      var pick, pickOut, mgens :|
        && Picks(inputs, query, pick, names) && Picks(outputs, queryOutputs, pickOut, names)
        && OneToOne(mgens) && AllAgree(inputs, query, pick, mgens) && AllAgree(outputs, queryOutputs, pickOut, mgens);
      var perm := SomeReordering(query, query');
      var permOut := SomeReordering(queryOutputs, queryOutputs');
      var pick' := ReorderedAgrees(inputs, query, query', perm, pick, mgens, names);
      var pickOut' := ReorderedAgrees(outputs, queryOutputs, queryOutputs', permOut, pickOut, mgens, names);
    }
  }

  function Larger(x: int, y: int): int {
    if x >= y then x else y
  }

  /** An id that is none of the names. */
  function Other(names: Names): (c: int)
    ensures c >= 0
    ensures c != names.arrayOrSlice && c != names.slice && c != names.arrayType
    ensures c != names.tupleOrUnit && c != names.tuple && c != names.unit
    ensures c != names.hof && c != names.fn && c != names.fnMut && c != names.fnOnce && c != names.fnPtr
  {
    var arrays := Larger(names.arrayOrSlice, Larger(names.slice, names.arrayType));
    var tuples := Larger(names.tupleOrUnit, Larger(names.tuple, names.unit));
    var fns := Larger(names.hof, Larger(Larger(names.fn, names.fnMut), Larger(names.fnOnce, names.fnPtr)));
    1 + Larger(0, Larger(arrays, Larger(tuples, fns)))
  }

  lemma FitCrosswise(q: int, f: int, names: Names)
    requires TakesGeneric(q, f, names)
    ensures var c := Other(names);
            var concrete, generic := FnType(Some(c), 0, []), FnType(Some(f), 0, []);
            var q0, q1 := QueryElem(Some(c), NO_TYPE_FILTER, []), QueryElem(Some(q), NO_TYPE_FILTER, []);
            && !Fits(generic, q0, names) && !Fits(concrete, q1, names)
            && Fits(generic, q1, names) && Fits(concrete, q0, names)
            && Fits(generic, QueryElem(Some(-1), NO_TYPE_FILTER, []), names)
    ensures q >= 0 && f < 0 && Other(names) >= 0
  {
    assert Holds([], [], []);
    hide Holds, Other;
  }

  /** A query name that may take a generic binds it only behind another element: first in the query it leaves the
    * generic free for the outputs, second it does not. */
  lemma TakenGenericNeedsOrder(q: int, f: int, names: Names)
    requires TakesGeneric(q, f, names)
    ensures exists inputs, outputs, q0, q1, queryOutputs ::
              && !SignatureMatches(inputs, [q0, q1], outputs, queryOutputs, names)
              && SignatureMatches(inputs, [q1, q0], outputs, queryOutputs, names)
  {
    var c := Other(names);
    var concrete, generic := FnType(Some(c), 0, []), FnType(Some(f), 0, []);
    var inputs, outputs := [concrete, generic], [generic];
    var q0, q1 := QueryElem(Some(c), NO_TYPE_FILTER, []), QueryElem(Some(q), NO_TYPE_FILTER, []);
    var queryOutputs := [QueryElem(Some(-1), NO_TYPE_FILTER, [])];
    FitCrosswise(q, f, names);
    hide Fits, Other, TakesGeneric;
    forall pick, pickOut, mgens |
      && Picks(inputs, [q0, q1], pick, names) && Picks(outputs, queryOutputs, pickOut, names)
      && AllAgree(inputs, [q0, q1], pick, mgens) && AllAgree(outputs, queryOutputs, pickOut, mgens)
      ensures !OneToOne(mgens)
    {
      assert Agrees(1, inputs[pick[1]], [q0, q1][1], mgens) && Agrees(0, outputs[pickOut[0]], queryOutputs[0], mgens);
      assert mgens[q] == mgens[-1];
    }
    var pick, pickOut, mgens := [1, 0], [0], map[-1 := f];
    assert Picks(inputs, [q1, q0], pick, names) && Picks(outputs, queryOutputs, pickOut, names);
    assert AllAgree(inputs, [q1, q0], pick, mgens) && AllAgree(outputs, queryOutputs, pickOut, mgens);
    assert SignatureMatches(inputs, [q1, q0], outputs, queryOutputs, names);
  }

  lemma SomeTakesGeneric(names: Names) returns (q: int, f: int)
    requires !NoneTakesGeneric(names)
    ensures TakesGeneric(q, f, names)
  {
    if names.arrayOrSlice >= 0 && (names.slice < 0 || names.arrayType < 0) {
      q, f := names.arrayOrSlice, if names.slice < 0 then names.slice else names.arrayType;
    } else if names.tupleOrUnit >= 0 && (names.tuple < 0 || names.unit < 0) {
      q, f := names.tupleOrUnit, if names.tuple < 0 then names.tuple else names.unit;
    } else {
      q := names.hof;
      f := if names.fn < 0 then names.fn else if names.fnMut < 0 then names.fnMut
           else if names.fnOnce < 0 then names.fnOnce else names.fnPtr;
    }
  }

  lemma NoneTakesOrderIrrelevant(names: Names)
    requires NoneTakesGeneric(names)
    ensures OrderIrrelevant(names)
  {
    hide SignatureMatches, NoneTakesGeneric;
    forall inputs, query, query', outputs, queryOutputs, queryOutputs' |
      multiset(query) == multiset(query') && multiset(queryOutputs) == multiset(queryOutputs')
      ensures SignatureMatches(inputs, query, outputs, queryOutputs, names) <==>
              SignatureMatches(inputs, query', outputs, queryOutputs', names)
    {
      ReorderedMatches(inputs, query, query', outputs, queryOutputs, queryOutputs', names);
      ReorderedMatches(inputs, query', query, outputs, queryOutputs', queryOutputs, names);
    }
  }

  lemma OrderMatters(inputs: seq<FnType>, outputs: seq<FnType>, q0: QueryElem, q1: QueryElem,
                     queryOutputs: seq<QueryElem>, names: Names)
    requires !SignatureMatches(inputs, [q0, q1], outputs, queryOutputs, names)
    requires SignatureMatches(inputs, [q1, q0], outputs, queryOutputs, names)
    ensures !OrderIrrelevant(names)
  {
    hide SignatureMatches;
    assert multiset([q0, q1]) == multiset([q1, q0]);
  }

  /** The order of the query is irrelevant for every signature exactly if no name of the query that is in the index
    * stands for one that is not. */
  lemma OrderIrrelevantIff(names: Names)
    ensures OrderIrrelevant(names) <==> NoneTakesGeneric(names)
  {
    hide SignatureMatches, OrderIrrelevant, NoneTakesGeneric, TakesGeneric;
    if NoneTakesGeneric(names) {
      NoneTakesOrderIrrelevant(names);
    } else {
      var q, f := SomeTakesGeneric(names);
      TakenGenericNeedsOrder(q, f, names);
      var inputs, outputs, q0, q1, queryOutputs :|
        && !SignatureMatches(inputs, [q0, q1], outputs, queryOutputs, names)
        && SignatureMatches(inputs, [q1, q0], outputs, queryOutputs, names);
      OrderMatters(inputs, outputs, q0, q1, queryOutputs, names);
    }
  }

  /** An index that knows arrays and the common name of arrays and slices, but no slices, is one for which order
    * matters. */
  lemma MissingSliceMakesOrderMatter()
    ensures !OrderIrrelevant(Names(5, -1, 6, -1, -1, -1, -1, -1, -1, -1, -1))
  {
    OrderIrrelevantIff(Names(5, -1, 6, -1, -1, -1, -1, -1, -1, -1, -1));
  }
}
