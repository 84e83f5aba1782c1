/** The three kinds of container of a compressed bitmap.  Each holds a set of 16-bit numbers: as
  * runs, as a sorted array, or as one bit per number.
  */
module Containers {
  import opened ByteBits

  type U16 = n: int | 0 <= n < 0x1_0000

  /** The numbers from start to start + lenm1. */
  datatype Span = Span(start: U16, lenm1: U16)

  datatype Container =
    | Run(runs: seq<Span>)
    | Array(values: seq<U16>)
    | Bits(bytes: seq<bv8>)

  ghost predicate Ascending(s: seq<nat>) {
    forall i, j :: 0 <= i < j < |s| ==> s[i] < s[j]
  }

  ghost predicate NonDescending(s: seq<nat>) {
    forall i, j :: 0 <= i < j < |s| ==> s[i] <= s[j]
  }

  // ---------- What a container holds, in the order it is read ----------

  function SpanValues(span: Span): seq<nat> {
    seq(span.lenm1 + 1, i requires 0 <= i <= span.lenm1 => span.start + i)
  }

  function RunValues(runs: seq<Span>): seq<nat> {
    if runs == [] then [] else RunValues(runs[..|runs| - 1]) + SpanValues(runs[|runs| - 1])
  }

  /** The bit for a number; bytes past the end of the array read as 0. */
  predicate BitAt(bytes: seq<bv8>, value: nat) {
    value / 8 < |bytes| && Bit(bytes[value / 8], value % 8)
  }

  function BitValues(bytes: seq<bv8>, n: nat): seq<nat> {
    if n == 0 then []
    else if BitAt(bytes, n - 1) then BitValues(bytes, n - 1) + [n - 1]
    else BitValues(bytes, n - 1)
  }

  function Values(c: Container): seq<nat> {
    match c
    case Run(runs) => RunValues(runs)
    case Array(values) => values
    case Bits(bytes) => BitValues(bytes, 8 * |bytes|)
  }

  function End(span: Span): nat {
    span.start + span.lenm1
  }

  ghost predicate Separate(runs: seq<Span>) {
    && (forall i, j :: 0 <= i < j < |runs| ==> End(runs[i]) < runs[j].start)
    && (forall i :: 0 <= i < |runs| ==> End(runs[i]) < 0x1_0000)
  }

  ghost predicate Valid(c: Container) {
    match c
    case Run(runs) => Separate(runs)
    case Array(values) => Ascending(values)
    case Bits(bytes) => |bytes| <= 0x2000
  }

  // ---------- Reading is ascending ----------

  predicate InSpan(span: Span, v: nat) {
    span.start <= v <= End(span)
  }

  lemma SpanMembers(span: Span, v: nat)
    ensures v in SpanValues(span) <==> InSpan(span, v)
  {
    if InSpan(span, v) {
      assert SpanValues(span)[v - span.start] == v;
    }
  }

  lemma {:induction false} RunMembers(runs: seq<Span>, v: nat)
    ensures v in RunValues(runs) <==> exists i :: 0 <= i < |runs| && InSpan(runs[i], v)
  {
    if runs != [] {
      var n := |runs| - 1;
      RunMembers(runs[..n], v);
      SpanMembers(runs[n], v);
      if i :| 0 <= i < |runs| && InSpan(runs[i], v) {
        assert i == n || InSpan(runs[..n][i], v);
      }
    }
  }

  lemma {:induction false} RunAscending(runs: seq<Span>)
    requires Separate(runs)
    ensures Ascending(RunValues(runs)) && forall v :: v in RunValues(runs) ==> v < 0x1_0000
  {
    if runs != [] {
      var n := |runs| - 1;
      var before, last := RunValues(runs[..n]), SpanValues(runs[n]);
      RunAscending(runs[..n]);
      forall v | v in RunValues(runs) ensures v < 0x1_0000 {
        SpanMembers(runs[n], v);
      }
      forall k | 0 <= k < |before| ensures before[k] < runs[n].start {
        RunMembers(runs[..n], before[k]);
        var i :| 0 <= i < |runs[..n]| && InSpan(runs[..n][i], before[k]);
        assert runs[..n][i] == runs[i];
      }
    }
  }

  lemma {:induction false} BitMembers(bytes: seq<bv8>, n: nat)
    ensures Ascending(BitValues(bytes, n))
    ensures forall v: nat :: v in BitValues(bytes, n) <==> v < n && BitAt(bytes, v)
  {
    hide BitAt;
    if n > 0 {
      BitMembers(bytes, n - 1);
      var before := BitValues(bytes, n - 1);
      forall k | 0 <= k < |before| ensures before[k] < n - 1 {
        assert before[k] in before;
      }
    }
  }

  /** Membership, without reading the values one by one. */
  ghost predicate Holds(c: Container, v: nat) {
    match c
    case Run(runs) => exists i :: 0 <= i < |runs| && InSpan(runs[i], v)
    case Array(values) => v in values
    case Bits(bytes) => BitAt(bytes, v)
  }

  /** All three kinds read their values in strictly ascending order, and hold just those. */
  lemma ValuesAscendAndHold(c: Container)
    requires Valid(c)
    ensures Ascending(Values(c))
    ensures forall v: nat :: v in Values(c) <==> Holds(c, v)
    ensures forall v :: v in Values(c) ==> v < 0x1_0000
  {
    match c
    case Run(runs) =>
      RunAscending(runs);
      forall v: nat ensures v in Values(c) <==> Holds(c, v) {
        RunMembers(runs, v);
      }
    case Array(values) =>
    case Bits(bytes) =>
      BitMembers(bytes, 8 * |bytes|);
  }

  // ---------- contains ----------

  method RunContains(runs: seq<Span>, value: nat) returns (found: bool)
    requires Separate(runs)
    ensures found <==> Holds(Run(runs), value)
  {
    var left: int, right: int := 0, |runs| - 1;
    while left <= right
      invariant 0 <= left <= |runs| && -1 <= right < |runs|
      invariant forall i :: 0 <= i < left ==> End(runs[i]) < value
      invariant forall i :: right < i < |runs| ==> runs[i].start > value
    {
      var mid := (left + right) / 2;
      if End(runs[mid]) < value {
        left := mid + 1;
      } else if runs[mid].start > value {
        right := mid - 1;
      } else {
        assert InSpan(runs[mid], value);
        return true;
      }
    }
    return false;
  }

  /** The search needs no more than an order: values may repeat. */
  method ArrayContains(values: seq<U16>, value: nat) returns (found: bool)
    requires NonDescending(values)
    ensures found <==> value in values
  {
    var left: int, right: int := 0, |values| - 1;
    while left <= right
      invariant 0 <= left <= |values| && -1 <= right < |values|
      invariant forall i :: 0 <= i < left ==> values[i] < value
      invariant forall i :: right < i < |values| ==> values[i] > value
    {
      var mid := (left + right) / 2;
      if values[mid] < value {
        left := mid + 1;
      } else if values[mid] > value {
        right := mid - 1;
      } else {
        return true;
      }
    }
    return false;
  }

  /** Search in a container finds exactly the values that reading it gives. */
  method Contains(c: Container, value: nat) returns (found: bool)
    requires Valid(c)
    ensures found <==> value in Values(c)
  {
    ValuesAscendAndHold(c);
    match c
    case Run(runs) => found := RunContains(runs, value);
    case Array(values) => found := ArrayContains(values, value);
    case Bits(bytes) => found := BitAt(bytes, value);
  }

  // ---------- Counting ----------

  lemma {:induction false} AscendingBound(s: seq<nat>, n: nat)
    requires Ascending(s) && forall v :: v in s ==> v < n
    ensures |s| <= n
  {
    if s != [] {
      var last := s[|s| - 1];
      var front := s[..|s| - 1];
      assert last in s;
      assert forall v :: v in front ==> v < last;
      AscendingBound(front, last);
    }
  }

  function BitTotal(bytes: seq<bv8>, n: nat): nat
    requires n <= |bytes|
  {
    if n == 0 then 0 else BitTotal(bytes, n - 1) + BitCount(bytes[n - 1])
  }

  lemma {:induction false} BitValuesInByte(bytes: seq<bv8>, k: nat, n: nat)
    requires k < |bytes| && n <= 8
    ensures |BitValues(bytes, 8 * k + n)| == |BitValues(bytes, 8 * k)| + CountBelow(bytes[k], n)
  {
    if n > 0 {
      BitValuesInByte(bytes, k, n - 1);
      assert (8 * k + n - 1) / 8 == k && (8 * k + n - 1) % 8 == n - 1;
      assert BitAt(bytes, 8 * k + n - 1) <==> Bit(bytes[k], n - 1);
      hide Bit, BitAt;
      assert 8 * k + n - 1 == 8 * k + (n - 1);
    }
  }

  /** The bit counts of the bytes add up to the number of values. */
  lemma {:induction false} BitTotalIsLength(bytes: seq<bv8>, n: nat)
    requires n <= |bytes|
    ensures BitTotal(bytes, n) == |BitValues(bytes, 8 * n)|
  {
    hide BitCount;
    if n > 0 {
      BitTotalIsLength(bytes, n - 1);
      BitValuesInByte(bytes, n - 1, 8);
      BitCountIsCount(bytes[n - 1]);
      assert 8 * (n - 1) + 8 == 8 * n;
    }
  }

  // ---------- Combining two containers ----------

  /** Merging two ascending readings into their union. */
  method MergeUnion(a: seq<nat>, b: seq<nat>) returns (merged: seq<nat>)
    requires Ascending(a) && Ascending(b)
    ensures Ascending(merged)
    ensures forall v :: v in merged <==> v in a || v in b
  {
    merged := [];
    var i, j := 0, 0;
    while j < |b| || i < |a|
      invariant 0 <= i <= |a| && 0 <= j <= |b|
      invariant Ascending(merged)
      invariant forall v :: v in merged <==> v in a[..i] || v in b[..j]
      invariant forall v :: v in merged ==> (i < |a| ==> v < a[i]) && (j < |b| ==> v < b[j])
      decreases |a| - i + |b| - j
    {
      ghost var was := merged;
      if j == |b| || (i < |a| && a[i] < b[j]) {
        merged := merged + [a[i]];
        assert a[..i + 1] == a[..i] + [a[i]];
        i := i + 1;
      } else if i == |a| || b[j] < a[i] {
        merged := merged + [b[j]];
        assert b[..j + 1] == b[..j] + [b[j]];
        j := j + 1;
      } else {
        merged := merged + [a[i]];
        assert a[..i + 1] == a[..i] + [a[i]] && b[..j + 1] == b[..j] + [b[j]];
        i := i + 1;
        j := j + 1;
      }
      forall k | 0 <= k < |was| ensures was[k] < merged[|was|] {
        assert was[k] in was;
      }
    }
    assert a[..i] == a && b[..j] == b;
  }

  method MergeIntersection(a: seq<nat>, b: seq<nat>) returns (merged: seq<nat>)
    requires Ascending(a) && Ascending(b)
    ensures Ascending(merged)
    ensures forall v :: v in merged <==> v in a && v in b
  {
    merged := [];
    var i, j := 0, 0;
    while j < |b| && i < |a|
      invariant 0 <= i <= |a| && 0 <= j <= |b|
      invariant Ascending(merged)
      invariant forall v :: v in merged <==> v in a[..i] && v in b[..j]
      invariant forall v :: v in a[..i] ==> (i < |a| ==> v < a[i]) && (j < |b| ==> v < b[j])
      invariant forall v :: v in b[..j] ==> (i < |a| ==> v < a[i]) && (j < |b| ==> v < b[j])
      decreases |a| - i + |b| - j
    {
      ghost var was := merged;
      if a[i] < b[j] {
        assert a[..i + 1] == a[..i] + [a[i]];
        i := i + 1;
      } else if b[j] < a[i] {
        assert b[..j + 1] == b[..j] + [b[j]];
        j := j + 1;
      } else {
        merged := merged + [a[i]];
        assert a[..i + 1] == a[..i] + [a[i]] && b[..j + 1] == b[..j] + [b[j]];
        i := i + 1;
        j := j + 1;
        forall k | 0 <= k < |was| ensures was[k] < merged[|was|] {
          assert was[k] in was;
        }
      }
    }
    forall v | v in a && v in b ensures v in a[..i] && v in b[..j] {
      var p :| 0 <= p < |a| && a[p] == v;
      var q :| 0 <= q < |b| && b[q] == v;
      assert p < i ==> a[p] in a[..i];
      assert q < j ==> b[q] in b[..j];
    }
  }

  function ByteAt(bytes: seq<bv8>, k: nat): bv8 {
    if k < |bytes| then bytes[k] else 0
  }

  function Longer(a: seq<bv8>, b: seq<bv8>): nat {
    if |a| > |b| then |a| else |b|
  }

  lemma {:induction false} BitTotalPrefix(bytes: seq<bv8>, c: bv8, n: nat)
    requires n <= |bytes|
    ensures BitTotal(bytes + [c], n) == BitTotal(bytes, n)
  {
    hide ByteBits.BitCount;
    if n > 0 {
      BitTotalPrefix(bytes, c, n - 1);
    }
  }

  lemma BitBound(bytes: seq<bv8>)
    ensures forall v: nat :: BitAt(bytes, v) ==> v < 8 * |bytes|
  {
  }

  lemma ZeroByte(k: nat)
    ensures !Bit(0, k)
  {
  }

  lemma OrBytesMembers(bytes: seq<bv8>, a: seq<bv8>, b: seq<bv8>)
    requires |bytes| == Longer(a, b)
    requires forall m :: 0 <= m < |bytes| ==> bytes[m] == ByteAt(a, m) | ByteAt(b, m)
    ensures forall v: nat :: v in Values(Bits(bytes)) <==> v in Values(Bits(a)) || v in Values(Bits(b))
  {
    hide Bit, BitValues;
    BitMembers(bytes, 8 * |bytes|);
    BitMembers(a, 8 * |a|);
    BitMembers(b, 8 * |b|);
    forall v: nat ensures BitAt(bytes, v) <==> BitAt(a, v) || BitAt(b, v) {
      BitsOfOr(ByteAt(a, v / 8), ByteAt(b, v / 8), v % 8);
      ZeroByte(v % 8);
    }
    hide BitAt;
    BitBound(bytes);
    BitBound(a);
    BitBound(b);
  }

  method OrBytes(a: seq<bv8>, b: seq<bv8>) returns (bytes: seq<bv8>, card: nat)
    ensures |bytes| == Longer(a, b) && card == |Values(Bits(bytes))|
    ensures forall v: nat :: v in Values(Bits(bytes)) <==> v in Values(Bits(a)) || v in Values(Bits(b))
  {
    hide ByteBits.BitCount, Bit, BitValues;
    bytes, card := [], 0;
    var k := 0;
    while k < Longer(a, b)
      invariant 0 <= k <= Longer(a, b) && |bytes| == k
      invariant forall m :: 0 <= m < k ==> bytes[m] == ByteAt(a, m) | ByteAt(b, m)
      invariant card == BitTotal(bytes, k)
    {
      var c := ByteAt(a, k) | ByteAt(b, k);
      BitTotalPrefix(bytes, c, k);
      bytes := bytes + [c];
      card := card + BitCount(c);
      k := k + 1;
    }
    BitTotalIsLength(bytes, k);
    OrBytesMembers(bytes, a, b);
  }

  lemma BitOfAnd(bytes: seq<bv8>, a: seq<bv8>, b: seq<bv8>, v: nat)
    requires |bytes| == Longer(a, b)
    requires forall m :: 0 <= m < |bytes| ==> bytes[m] == ByteAt(a, m) & ByteAt(b, m)
    ensures BitAt(bytes, v) <==> BitAt(a, v) && BitAt(b, v)
  {
    hide Bit;
    BitsOfAnd(ByteAt(a, v / 8), ByteAt(b, v / 8), v % 8);
    ZeroByte(v % 8);
  }

  lemma AndBytesMembers(bytes: seq<bv8>, a: seq<bv8>, b: seq<bv8>)
    requires |bytes| == Longer(a, b)
    requires forall m :: 0 <= m < |bytes| ==> bytes[m] == ByteAt(a, m) & ByteAt(b, m)
    ensures forall v: nat :: v in Values(Bits(bytes)) <==> v in Values(Bits(a)) && v in Values(Bits(b))
  {
    hide Bit, BitValues, BitAt, ByteAt;
    BitMembers(bytes, 8 * |bytes|);
    BitMembers(a, 8 * |a|);
    BitMembers(b, 8 * |b|);
    BitBound(bytes);
    BitBound(a);
    BitBound(b);
    forall v: nat ensures BitAt(bytes, v) <==> BitAt(a, v) && BitAt(b, v) {
      BitOfAnd(bytes, a, b, v);
    }
  }

  method AndBytes(a: seq<bv8>, b: seq<bv8>) returns (bytes: seq<bv8>, card: nat)
    ensures |bytes| == Longer(a, b) && card == |Values(Bits(bytes))|
    ensures forall v: nat :: v in Values(Bits(bytes)) <==> v in Values(Bits(a)) && v in Values(Bits(b))
  {
    hide ByteBits.BitCount, Bit, BitValues;
    bytes, card := [], 0;
    var k := 0;
    while k < Longer(a, b)
      invariant 0 <= k <= Longer(a, b) && |bytes| == k
      invariant forall m :: 0 <= m < k ==> bytes[m] == ByteAt(a, m) & ByteAt(b, m)
      invariant card == BitTotal(bytes, k)
    {
      var c := ByteAt(a, k) & ByteAt(b, k);
      BitTotalPrefix(bytes, c, k);
      bytes := bytes + [c];
      card := card + BitCount(c);
      k := k + 1;
    }
    BitTotalIsLength(bytes, k);
    AndBytesMembers(bytes, a, b);
  }

  /** The union of two containers, with its size. */
  method Unite(a: Container, b: Container) returns (c: Container, card: nat)
    requires Valid(a) && Valid(b)
    ensures Valid(c) && card == |Values(c)|
    ensures forall v: nat :: v in Values(c) <==> v in Values(a) || v in Values(b)
  {
    if a.Bits? && b.Bits? {
      var bytes;
      bytes, card := OrBytes(a.bytes, b.bytes);
      c := Bits(bytes);
    } else {
      ValuesAscendAndHold(a);
      ValuesAscendAndHold(b);
      var merged := MergeUnion(Values(a), Values(b));
      assert forall k :: 0 <= k < |merged| ==> merged[k] in merged;
      c := Array(merged);
      card := |merged|;
    }
  }

  method Intersect(a: Container, b: Container) returns (c: Container, card: nat)
    requires Valid(a) && Valid(b)
    ensures Valid(c) && card == |Values(c)|
    ensures forall v: nat :: v in Values(c) <==> v in Values(a) && v in Values(b)
  {
    if a.Bits? && b.Bits? {
      var bytes;
      bytes, card := AndBytes(a.bytes, b.bytes);
      c := Bits(bytes);
    } else {
      ValuesAscendAndHold(a);
      ValuesAscendAndHold(b);
      var merged := MergeIntersection(Values(a), Values(b));
      assert forall k :: 0 <= k < |merged| ==> merged[k] in merged;
      c := Array(merged);
      card := |merged|;
    }
  }
}
