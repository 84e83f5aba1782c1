/** The bounded edit distance of the type search: three rows of the dynamic program, kept
  * between calls and rotated, after trimming what both words share at either end.
  */
module EditDistance {
  import opened Alignment
  import opened BitFields

  /** The largest finite double, with which the oldest row is filled. */
  const MAX_VALUE: int := (Pow2(53) - 1) * Pow2(971)

  /** A JavaScript array write: it may extend the array by one. */
  function Put(row: seq<int>, k: nat, v: int): (r: seq<int>)
    requires k <= |row|
    ensures |r| == if k == |row| then |row| + 1 else |row|
    ensures r[k] == v && forall m :: 0 <= m < |row| && m != k ==> r[m] == row[m]
  {
    if k == |row| then row + [v] else row[k := v]
  }

  /** The first n + 1 entries of row are the cells of line i. */
  ghost predicate IsLine(row: seq<int>, a: Word, b: Word, i: nat, n: nat)
    requires i <= |a| && n <= |b|
  {
    n < |row| && forall j :: 0 <= j <= n ==> row[j] == Cell(a, b, i, j)
  }

  class State {
    var current: seq<int>
    var prev: seq<int>
    var prevPrev: seq<int>

    constructor ()
      ensures current == [] && prev == [] && prevPrev == []
    {
      current, prev, prevPrev := [], [], [];
    }

    method InitRows(n: nat)
      modifies this
      ensures n < |current| && n < |prev| && n < |prevPrev|
      ensures forall j :: 0 <= j <= n ==> prev[j] == j
    {
      var i := 0;
      while i <= n
        invariant i <= n + 1 && i <= |current| && i <= |prev| && i <= |prevPrev|
        invariant forall j :: 0 <= j < i ==> prev[j] == j
      {
        current := Put(current, i, 0);
        prev := Put(prev, i, i);
        prevPrev := Put(prevPrev, i, MAX_VALUE);
        i := i + 1;
      }
    }

    method FillLine(a: Word, b: Word, i: nat)
      requires 1 <= i <= |a| && |b| < |current|
      requires IsLine(prev, a, b, i - 1, |b|)
      requires i > 1 ==> IsLine(prevPrev, a, b, i - 2, |b|)
      modifies this`current
      ensures IsLine(current, a, b, i, |b|)
    {
      hide Cell;
      CellBorder(a, b, i);
      current := current[0 := i];
      var aIdx := i - 1;
      var j := 1;
      while j <= |b|
        invariant 1 <= j <= |b| + 1 && |b| < |current|
        invariant IsLine(current, a, b, i, j - 1)
      {
        CellRecurrence(a, b, i, j);
        var bIdx := j - 1;
        var substitutionCost := if a[aIdx] == b[bIdx] then 0 else 1;
        current := current[j := Min(Min(prev[j] + 1, current[j - 1] + 1), prev[j - 1] + substitutionCost)];
        if i > 1 && j > 1 && a[aIdx] == b[bIdx - 1] && a[aIdx - 1] == b[bIdx] {
          current := current[j := Min(current[j], prevPrev[j - 2] + 1)];
        }
        j := j + 1;
      }
    }

    /** The row loops: afterwards prev is the last line of the table. */
    method FillRows(a: Word, b: Word)
      requires |a| >= |b| > 0
      modifies this
      ensures IsLine(prev, a, b, |a|, |b|)
    {
      hide Cell;
      InitRows(|b|);
      forall j | 0 <= j <= |b| ensures Cell(a, b, 0, j) == j {
        CellBorder(a, b, j);
      }
      var i := 1;
      while i <= |a|
        invariant 1 <= i <= |a| + 1
        invariant |b| < |current| && |b| < |prevPrev|
        invariant IsLine(prev, a, b, i - 1, |b|)
        invariant i > 1 ==> IsLine(prevPrev, a, b, i - 2, |b|)
      {
        FillLine(a, b, i);
        prevPrev, prev, current := prev, current, prevPrev;
        i := i + 1;
      }
    }

    /** Whatever earlier calls left in the rows, the result is the distance, cut off above the limit. */
    method Calculate(first: Word, second: Word, limit: int) returns (distance: int)
      modifies this
      ensures distance == Min(Osa(first, second), limit + 1)
    {
      hide Osa;
      var a, b := first, second;
      if |a| < |b| {
        a, b := b, a;
      }
      OsaSymmetric(first, second);
      OsaBounds(a, b);
      var minDist := |a| - |b|;
      if minDist > limit {
        return limit + 1;
      }
      while |b| > 0 && b[0] == a[0]
        invariant |a| - |b| == minDist && Osa(a, b) == Osa(first, second)
        decreases |b|
      {
        OsaTrimFirst(a, b);
        a := a[1..];
        b := b[1..];
      }
      while |b| > 0 && b[|b| - 1] == a[|a| - 1]
        invariant |a| - |b| == minDist && Osa(a, b) == Osa(first, second)
        decreases |b|
      {
        OsaTrimLast(a, b);
        a := a[..|a| - 1];
        b := b[..|b| - 1];
      }
      if |b| == 0 {
        CellBorder(a, b, |a|);
        assert a[..|a|] == a && b[..0] == b;
        return minDist;
      }
      FillRows(a, b);
      assert a[..|a|] == a && b[..|b|] == b;
      distance := prev[|b|];
      return if distance <= limit then distance else limit + 1;
    }
  }
}
