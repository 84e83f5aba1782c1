/** Searching for a byte string in another with a table of skips (Horspool's algorithm). */
module SearchPattern {
  import opened Basics

  /** The needle stands in the haystack at position p. */
  ghost predicate OccursAt(needle: seq<Byte>, haystack: seq<Byte>, p: nat) {
    p + |needle| <= |haystack| && haystack[p..p + |needle|] == needle
  }

  /** Moving on by less than the skip would put a different byte under the last one read. */
  ghost predicate SkipIsSafe(needle: seq<Byte>, c: Byte, skip: nat) {
    forall k :: 0 <= k < |needle| - 1 && |needle| - skip <= k ==> needle[k] != c
  }

  /** Nowhere between a mismatch and the next position tried does the needle occur. */
  lemma NoOccurrence(needle: seq<Byte>, haystack: seq<Byte>, skip: nat, i: nat, p: nat, step: nat)
    requires i < |needle| && skip + |needle| <= |haystack| && haystack[skip + i] != needle[i]
    requires SkipIsSafe(needle, haystack[skip + |needle| - 1], step) && step <= |needle|
    requires skip <= p < skip + step
    ensures !OccursAt(needle, haystack, p)
  {
  }

  class Pattern {
    const needle: seq<Byte>
    var skipTable: seq<nat>

    ghost predicate Valid()
      reads this
    {
      && |skipTable| == 256
      && forall c: Byte ::
           SkipIsSafe(needle, c, skipTable[c]) && skipTable[c] <= |needle| && (|needle| > 0 ==> skipTable[c] > 0)
    }

    constructor (needle: seq<Byte>)
      ensures Valid() && this.needle == needle
    {
      this.needle := needle;
      skipTable := [];
      new;
      var m := |needle|;
      var i := 0;
      while i < 256
        invariant 0 <= i <= 256 && |skipTable| == i
        invariant forall c :: 0 <= c < i ==> skipTable[c] == m
      {
        skipTable := skipTable + [m];
        i := i + 1;
      }
      i := 0;
      while i < m - 1
        invariant 0 <= i && (i == 0 || i <= m - 1) && |skipTable| == 256
        invariant forall c: Byte :: skipTable[c] <= m && (m > 0 ==> skipTable[c] > 0)
        invariant forall c: Byte, k :: 0 <= k < i && needle[k] == c ==> skipTable[c] <= m - 1 - k
      {
        skipTable := skipTable[needle[i] := m - 1 - i];
        i := i + 1;
      }
    }

    /** True exactly if the needle occurs somewhere, the empty needle everywhere. */
    method Matches(haystack: seq<Byte>) returns (found: bool)
      requires Valid()
      ensures found <==> exists p: nat :: OccursAt(needle, haystack, p)
    {
      var m, n := |needle|, |haystack|;
      var skip: nat := 0;
      while n - skip >= m
        invariant forall p: nat :: p < skip ==> !OccursAt(needle, haystack, p)
        decreases n - skip
      {
        var i := m - 1;
        while i >= 0 && haystack[skip + i] == needle[i]
          invariant -1 <= i < m
          invariant forall k :: i < k < m ==> haystack[skip + k] == needle[k]
        {
          i := i - 1;
        }
        if i < 0 {
          assert OccursAt(needle, haystack, skip);
          return true;
        }
        var c := haystack[skip + m - 1];
        forall p: nat | skip <= p < skip + skipTable[c] ensures !OccursAt(needle, haystack, p) {
          NoOccurrence(needle, haystack, skip, i, p, skipTable[c]);
        }
        skip := skip + skipTable[c];
      }
      return false;
    }
  }
}
