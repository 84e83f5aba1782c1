/** Bitmaps written as a first entry and the differences to the following ones. */
module DeltaForm {
  import opened Basics
  import opened Containers
  import opened Roaring

  function Last(first: nat, deltas: seq<nat>): nat {
    if deltas == [] then first else Last(first, deltas[..|deltas| - 1]) + deltas[|deltas| - 1]
  }

  /** The first entry, and each sum after it. */
  function Sums(first: nat, deltas: seq<nat>): seq<nat> {
    if deltas == [] then [first]
    else
      var before := Sums(first, deltas[..|deltas| - 1]);
      before + [Last(first, deltas)]
  }

  function Word16(bytes: seq<Byte>, i: nat): nat
    requires i + 2 <= |bytes|
  {
    var low: nat, high: nat := bytes[i], bytes[i + 1];
    low + 0x100 * high
  }

  /** The place of the k-th difference. */
  function Position(i: nat, width: nat, k: nat): nat {
    i + width * k
  }

  /** The first n differences, each of one or two bytes. */
  function Deltas(bytes: seq<Byte>, i: nat, width: nat, n: nat): (r: seq<nat>)
    requires width in {1, 2} && Position(i, width, n) <= |bytes|
    ensures |r| == n
  {
    if n == 0 then []
    else
      var k := Position(i, width, n - 1);
      Deltas(bytes, i, width, n - 1) + [if width == 1 then bytes[k] else Word16(bytes, k)]
  }

  lemma {:induction false} LastGrows(first: nat, deltas: seq<nat>, n: nat)
    requires n <= |deltas|
    ensures Last(first, deltas[..n]) <= Last(first, deltas)
  {
    if n == |deltas| {
      assert deltas[..n] == deltas;
    } else {
      assert deltas[..|deltas| - 1][..n] == deltas[..n];
      LastGrows(first, deltas[..|deltas| - 1], n);
    }
  }

  /** The sums ascend strictly if no difference is zero. */
  lemma {:induction false} SumsAscend(first: nat, deltas: seq<nat>)
    requires forall k :: 0 <= k < |deltas| ==> deltas[k] > 0
    ensures Ascending(Sums(first, deltas)) && forall x :: x in Sums(first, deltas) ==> x <= Last(first, deltas)
  {
    if deltas != [] {
      var before := Sums(first, deltas[..|deltas| - 1]);
      SumsAscend(first, deltas[..|deltas| - 1]);
      assert forall k :: 0 <= k < |before| ==> before[k] in before;
    }
  }

  function Width(tag: Byte): nat {
    if tag > 0xf0 then 2 else 1
  }

  /** The tag is one of those for this form, and all the bytes are there. */
  predicate Written(bytes: seq<Byte>, i: nat)
    requires i < |bytes|
  {
    && (0xf0 < bytes[i] || 0xd0 < bytes[i] < 0xe0)
    && Position(i + 5, Width(bytes[i]), bytes[i] % 16 - 1) <= |bytes|
  }

  function First(bytes: seq<Byte>, i: nat): nat
    requires i < |bytes| && Written(bytes, i)
  {
    Word16(bytes, i + 3) * 0x1_0000 + Word16(bytes, i + 1)
  }

  function Rest(bytes: seq<Byte>, i: nat): seq<nat>
    requires i < |bytes| && Written(bytes, i)
  {
    Deltas(bytes, i + 5, Width(bytes[i]), bytes[i] % 16 - 1)
  }

  /** The sums never descend. */
  lemma {:induction false} SumsNonDescending(first: nat, deltas: seq<nat>)
    ensures NonDescending(Sums(first, deltas)) && forall x :: x in Sums(first, deltas) ==> x <= Last(first, deltas)
  {
    if deltas != [] {
      var before := Sums(first, deltas[..|deltas| - 1]);
      SumsNonDescending(first, deltas[..|deltas| - 1]);
      assert forall k :: 0 <= k < |before| ==> before[k] in before;
    }
  }

  // ---------- Writing ----------

  /** A difference as it is written, the lower byte first. */
  function DeltaBytes(d: nat, wide: bool): seq<Byte>
    requires d < if wide then 0x1_0000 else 0x100
  {
    if wide then [d % 256, d / 256] else [d]
  }

  /** Entries that do not descend and lie near enough to each other. */
  ghost predicate Near(es: seq<nat>, wide: bool) {
    |es| <= 1 || (Near(es[..|es| - 1], wide) &&
                  es[|es| - 2] <= es[|es| - 1] < es[|es| - 2] + if wide then 0x1_0000 else 0x100)
  }

  ghost predicate Printable(es: seq<nat>, wide: bool) {
    1 <= |es| <= 15 && es[0] < 0x1_0000_0000 && Near(es, wide)
  }

  ghost function Differences(es: seq<nat>, wide: bool): seq<Byte>
    requires |es| >= 1 && Near(es, wide)
  {
    if |es| == 1 then []
    else Differences(es[..|es| - 1], wide) + DeltaBytes(es[|es| - 1] - es[|es| - 2], wide)
  }

  /** The tag, the first entry in four bytes, the lowest first, and the differences. */
  ghost function Printed(es: seq<nat>, wide: bool): seq<Byte>
    requires Printable(es, wide)
  {
    var e := es[0];
    var tag: Byte := (if wide then 0xf0 else 0xd0) + |es|;
    [tag, e % 256, e / 256 % 256, e / 0x1_0000 % 256, e / 0x100_0000] + Differences(es, wide)
  }

  /** The bytes from i on are how the entries are written. */
  ghost predicate PrintedAt(bytes: seq<Byte>, i: nat, es: seq<nat>, wide: bool) {
    && Printable(es, wide)
    && var n := |Printed(es, wide)|;
       i + n <= |bytes| && bytes[i..i + n] == Printed(es, wide)
  }

  /** Two bytes give the difference back. */
  lemma WordOfBytes(bytes: seq<Byte>, k: nat, d: nat)
    requires k + 2 <= |bytes| && d < 0x1_0000
    ensures bytes[k..k + 2] == DeltaBytes(d, true) <==> Word16(bytes, k) == d
  {
    assert bytes[k..k + 2] == [bytes[k], bytes[k + 1]];
  }

  lemma PositionMonotone(i: nat, width: nat, k: nat)
    ensures i <= Position(i, width, k)
  {
  }

  /** One entry more is one difference more. */
  lemma OneMoreEntry(es: seq<nat>, e: nat, wide: bool)
    requires |es| >= 1 && Near(es, wide) && es[|es| - 1] <= e < es[|es| - 1] + if wide then 0x1_0000 else 0x100
    ensures Near(es + [e], wide)
    ensures Differences(es + [e], wide) == Differences(es, wide) + DeltaBytes(e - es[|es| - 1], wide)
  {
    hide DeltaBytes;
    assert (es + [e])[..|es|] == es;
  }

  lemma OneMoreSum(first: nat, deltas: seq<nat>, d: nat)
    ensures Sums(first, deltas + [d]) == Sums(first, deltas) + [Last(first, deltas) + d]
    ensures Last(first, deltas + [d]) == Last(first, deltas) + d
  {
    assert (deltas + [d])[..|deltas|] == deltas;
  }

  /** The sums, written, are the bytes from p to q. */
  ghost predicate WrittenFrom(bytes: seq<Byte>, p: nat, q: nat, first: nat, deltas: seq<nat>, wide: bool) {
    var es := Sums(first, deltas);
    && |es| == |deltas| + 1 && es[0] == first && es[|deltas|] == Last(first, deltas) && Near(es, wide)
    && p <= q <= |bytes| && Differences(es, wide) == bytes[p..q]
  }

  lemma NothingWritten(bytes: seq<Byte>, p: nat, first: nat, width: nat)
    requires p <= |bytes| && width in {1, 2} && Position(p, width, 0) <= |bytes|
    ensures WrittenFrom(bytes, p, Position(p, width, 0), first, Deltas(bytes, p, width, 0), width == 2)
  {
  }

  lemma DeltasStep(bytes: seq<Byte>, i: nat, width: nat, n: nat)
    requires width in {1, 2} && Position(i, width, n + 1) <= |bytes|
    ensures var k := Position(i, width, n);
            i <= k && k + width == Position(i, width, n + 1) &&
            Deltas(bytes, i, width, n + 1) ==
            Deltas(bytes, i, width, n) + [if width == 1 then bytes[k] else Word16(bytes, k)]
  {
  }

  lemma DeltaIsBytes(bytes: seq<Byte>, k: nat, wide: bool, d: nat)
    requires k + (if wide then 2 else 1) <= |bytes|
    requires d == if wide then Word16(bytes, k) else bytes[k]
    ensures d < if wide then 0x1_0000 else 0x100
    ensures DeltaBytes(d, wide) == bytes[k..k + if wide then 2 else 1]
  {
    if wide {
      WordOfBytes(bytes, k, d);
    } else {
      assert bytes[k..k + 1] == [bytes[k]];
    }
  }

  lemma OneMoreWritten(bytes: seq<Byte>, p: nat, q: nat, first: nat, deltas: seq<nat>, d: nat, wide: bool)
    requires WrittenFrom(bytes, p, q, first, deltas, wide)
    requires q + (if wide then 2 else 1) <= |bytes| && d == if wide then Word16(bytes, q) else bytes[q]
    ensures WrittenFrom(bytes, p, q + if wide then 2 else 1, first, deltas + [d], wide)
  {
    hide Word16, Near, Differences, DeltaBytes, Sums, Last;
    DeltaIsBytes(bytes, q, wide, d);
    OneMoreSum(first, deltas, d);
    var es, w := Sums(first, deltas), if wide then 2 else 1;
    OneMoreEntry(es, es[|es| - 1] + d, wide);
    assert bytes[p..q] + bytes[q..q + w] == bytes[p..q + w];
  }

  /** What reading differences gives, written again. */
  lemma {:induction false} DeltasAreWritten(bytes: seq<Byte>, p: nat, first: nat, width: nat, n: nat)
    requires width in {1, 2} && p <= |bytes| && Position(p, width, n) <= |bytes|
    ensures WrittenFrom(bytes, p, Position(p, width, n), first, Deltas(bytes, p, width, n), width == 2)
  {
    hide *;
    if n == 0 {
      NothingWritten(bytes, p, first, width);
    } else {
      DeltasStep(bytes, p, width, n - 1);
      DeltasAreWritten(bytes, p, first, width, n - 1);
      var q := Position(p, width, n - 1);
      OneMoreWritten(bytes, p, q, first, Deltas(bytes, p, width, n - 1),
                     if width == 1 then bytes[q] else Word16(bytes, q), width == 2);
    }
  }

  lemma TagOf(tag: Byte)
    requires 0xf0 < tag || 0xd0 < tag < 0xe0
    ensures 1 <= tag % 16 <= 15 && tag == (if tag > 0xf0 then 0xf0 else 0xd0) + tag % 16
  {
  }

  lemma JoinsUp(bytes: seq<Byte>, i: nat, end: nat, es: seq<nat>, wide: bool)
    requires i + 5 <= end <= |bytes| && 1 <= |es| <= 15 && es[0] < 0x1_0000_0000 && Near(es, wide)
    requires bytes[i] == (if wide then 0xf0 else 0xd0) + |es| && Differences(es, wide) == bytes[i + 5..end]
    requires bytes[i..i + 5] ==
             [bytes[i], es[0] % 256, es[0] / 256 % 256, es[0] / 0x1_0000 % 256, es[0] / 0x100_0000]
    ensures PrintedAt(bytes, i, es, wide) && i + |Printed(es, wide)| == end
  {
    hide Near, Differences;
    assert bytes[i..end] == bytes[i..i + 5] + bytes[i + 5..end];
    assert Printed(es, wide) == bytes[i..end];
  }

  lemma ByteOf(q: nat, r: Byte)
    ensures (256 * q + r) / 256 == q && (256 * q + r) % 256 == r
  {
  }

  lemma DivTwice(e: nat)
    ensures e / 256 / 256 == e / 0x1_0000
  {
  }

  lemma DivThrice(e: nat)
    ensures e / 0x1_0000 / 256 == e / 0x100_0000
  {
  }

  /** Four bytes are those of a number exactly if they are its digits to the base 256. */
  lemma FourBytes(e: nat, a: Byte, b: Byte, c: Byte, d: nat)
    ensures e == a + 0x100 * b + 0x1_0000 * c + 0x100_0000 * d <==>
            e % 256 == a && e / 256 % 256 == b && e / 0x1_0000 % 256 == c && e / 0x100_0000 == d
  {
    DivTwice(e);
    DivThrice(e);
    var x, y := b + 256 * (c + 256 * d), c + 256 * d;
    ByteOf(x, a);
    ByteOf(y, b);
    ByteOf(d, c);
  }

  lemma FirstBytes(bytes: seq<Byte>, i: nat)
    requires i < |bytes| && Written(bytes, i)
    ensures var e := First(bytes, i);
            && e < 0x1_0000_0000 && i + 5 <= |bytes|
            && bytes[i..i + 5] == [bytes[i], e % 256, e / 256 % 256, e / 0x1_0000 % 256, e / 0x100_0000]
  {
    PositionMonotone(i + 5, Width(bytes[i]), bytes[i] % 16 - 1);
    FourBytes(First(bytes, i), bytes[i + 1], bytes[i + 2], bytes[i + 3], bytes[i + 4]);
    assert bytes[i..i + 5] == [bytes[i], bytes[i + 1], bytes[i + 2], bytes[i + 3], bytes[i + 4]];
  }

  /** The entries read are the ones written there. */
  lemma WrittenIsPrinted(bytes: seq<Byte>, i: nat)
    requires i < |bytes| && Written(bytes, i)
    ensures var es := Sums(First(bytes, i), Rest(bytes, i));
            var wide := bytes[i] > 0xf0;
            && PrintedAt(bytes, i, es, wide)
            && i + |Printed(es, wide)| == Position(i + 5, Width(bytes[i]), |Rest(bytes, i)|)
            && es[|es| - 1] == Last(First(bytes, i), Rest(bytes, i))
  {
    var n, wide := bytes[i] % 16, bytes[i] > 0xf0;
    var e := First(bytes, i);
    TagOf(bytes[i]);
    PositionMonotone(i + 5, Width(bytes[i]), n - 1);
    DeltasAreWritten(bytes, i + 5, e, Width(bytes[i]), n - 1);
    var es := Sums(e, Rest(bytes, i));
    var end := Position(i + 5, Width(bytes[i]), n - 1);
    FirstBytes(bytes, i);
    hide *;
    JoinsUp(bytes, i, end, es, wide);
  }

  lemma {:induction false} DifferencesLength(es: seq<nat>, wide: bool)
    requires |es| >= 1 && Near(es, wide)
    ensures |Differences(es, wide)| == if wide then 2 * (|es| - 1) else |es| - 1
  {
    if |es| > 1 {
      DifferencesLength(es[..|es| - 1], wide);
    }
  }

  lemma DeltaBytesOnce(d: nat, d': nat, wide: bool)
    requires d < (if wide then 0x1_0000 else 0x100) && d' < if wide then 0x1_0000 else 0x100
    requires DeltaBytes(d, wide) == DeltaBytes(d', wide)
    ensures d == d'
  {
    assert DeltaBytes(d, wide)[0] == DeltaBytes(d', wide)[0];
    assert wide ==> DeltaBytes(d, wide)[1] == DeltaBytes(d', wide)[1];
  }

  lemma SameEnds(a: seq<Byte>, b: seq<Byte>, a': seq<Byte>, b': seq<Byte>)
    requires a + b == a' + b' && |a| == |a'|
    ensures a == a' && b == b'
  {
    assert a == (a + b)[..|a|] && a' == (a' + b')[..|a|];
    assert b == (a + b)[|a|..] && b' == (a' + b')[|a|..];
  }

  /** Differences and first entry determine the entries. */
  lemma {:induction false} DifferencesOnce(es: seq<nat>, es': seq<nat>, wide: bool)
    requires 1 <= |es| == |es'| && es[0] == es'[0] && Near(es, wide) && Near(es', wide)
    requires Differences(es, wide) == Differences(es', wide)
    ensures es == es'
  {
    hide DeltaBytes;
    var n := |es| - 1;
    if n > 0 {
      DifferencesLength(es[..n], wide);
      DifferencesLength(es'[..n], wide);
      var d, d' := es[n] - es[n - 1], es'[n] - es'[n - 1];
      SameEnds(Differences(es[..n], wide), DeltaBytes(d, wide), Differences(es'[..n], wide), DeltaBytes(d', wide));
      hide Differences;
      DifferencesOnce(es[..n], es'[..n], wide);
      DeltaBytesOnce(d, d', wide);
      assert es == es[..n] + [es[n]] && es' == es'[..n] + [es'[n]];
      assert es[n - 1] == es[..n][n - 1] && es'[n - 1] == es'[..n][n - 1];
    }
  }

  lemma TagBytes(tag: Byte, n: nat, wide: bool)
    requires 1 <= n <= 15 && tag == (if wide then 0xf0 else 0xd0) + n
    ensures tag % 16 == n && Width(tag) == (if wide then 2 else 1) && (0xf0 < tag || 0xd0 < tag < 0xe0)
  {
  }

  lemma PrintedHead(bytes: seq<Byte>, i: nat, es: seq<nat>, wide: bool)
    requires PrintedAt(bytes, i, es, wide)
    ensures i + 5 <= i + |Printed(es, wide)| == i + 5 + |Differences(es, wide)| <= |bytes|
    ensures bytes[i] == (if wide then 0xf0 else 0xd0) + |es|
    ensures var e := es[0];
            && bytes[i + 1] == e % 256 && bytes[i + 2] == e / 256 % 256 && bytes[i + 3] == e / 0x1_0000 % 256
            && bytes[i + 4] == e / 0x100_0000
  {
    hide Differences, Near;
    var printed := Printed(es, wide);
    assert forall k :: 0 <= k < 5 ==> bytes[i + k] == bytes[i..i + |printed|][k] == printed[k];
    assert bytes[i + 0] == bytes[i];
  }

  lemma PrintedStart(bytes: seq<Byte>, i: nat, es: seq<nat>, wide: bool)
    requires PrintedAt(bytes, i, es, wide)
    ensures i + 5 <= |bytes| && Written(bytes, i) && |Rest(bytes, i)| == |es| - 1
    ensures bytes[i] == (if wide then 0xf0 else 0xd0) + |es|
    ensures var e := es[0];
            && bytes[i + 1] == e % 256 && bytes[i + 2] == e / 256 % 256 && bytes[i + 3] == e / 0x1_0000 % 256
            && bytes[i + 4] == e / 0x100_0000
    ensures i + |Printed(es, wide)| == Position(i + 5, Width(bytes[i]), |es| - 1)
  {
    PrintedHead(bytes, i, es, wide);
    TagBytes(bytes[i], |es|, wide);
    DifferencesLength(es, wide);
    hide Differences, Near, Width, Printed, Deltas;
  }

  /** No bytes are the writing of two lists. */
  lemma PrintedOnce(bytes: seq<Byte>, i: nat, es: seq<nat>, wide: bool, es': seq<nat>, wide': bool)
    requires PrintedAt(bytes, i, es, wide) && PrintedAt(bytes, i, es', wide')
    ensures es == es' && wide == wide'
  {
    PrintedStart(bytes, i, es, wide);
    PrintedStart(bytes, i, es', wide');
    var printed := Printed(es, wide);
    assert Printed(es', wide') == printed;
    hide Written, Width;
    assert printed[5..] == Differences(es, wide) == Differences(es', wide');
    FourBytes(es[0], es[0] % 256, es[0] / 256 % 256, es[0] / 0x1_0000 % 256, es[0] / 0x100_0000);
    FourBytes(es'[0], es[0] % 256, es[0] / 256 % 256, es[0] / 0x1_0000 % 256, es[0] / 0x100_0000);
    DifferencesOnce(es, es', wide);
  }

  /** A list that is written can be read, and reading gives it back. */
  lemma ReadsPrinted(bytes: seq<Byte>, i: nat, es: seq<nat>, wide: bool)
    requires PrintedAt(bytes, i, es, wide)
    ensures i < |bytes| && Written(bytes, i) && Sums(First(bytes, i), Rest(bytes, i)) == es
    ensures Last(First(bytes, i), Rest(bytes, i)) == es[|es| - 1]
  {
    PrintedStart(bytes, i, es, wide);
    WrittenIsPrinted(bytes, i);
    hide Sums, PrintedAt;
    PrintedOnce(bytes, i, es, wide, Sums(First(bytes, i), Rest(bytes, i)), bytes[i] > 0xf0);
  }

  // ---------- Containers that grow ----------

  /** An array container: a buffer of fixed length, of which the first entries are in use. */
  class Growing {
    var cardinality: nat
    var slots: seq<U16>

    constructor (cardinality: nat, length: nat)
      ensures this.cardinality == cardinality && slots == seq(length, _ => 0)
    {
      this.cardinality, slots := cardinality, seq(length, _ => 0);
    }

    /** The entries move to a buffer with room for twice as many. */
    method Grow(cardinalityOld: nat)
      requires cardinality == cardinalityOld <= |slots|
      modifies this
      ensures cardinality == old(cardinality) && |slots| == (cardinalityOld + 1) * 2
      ensures slots[..cardinality] == old(slots[..cardinality])
    {
      var newBuf: seq<U16> := seq((cardinalityOld + 1) * 2, _ => 0);
      var idx := 0;
      while idx < cardinality
        invariant 0 <= idx <= cardinality <= |newBuf| == (cardinalityOld + 1) * 2
        invariant newBuf[..idx] == slots[..idx]
      {
        newBuf := newBuf[idx := slots[idx]];
        idx := idx + 1;
      }
      cardinality := cardinalityOld;
      slots := newBuf;
    }
  }

  datatype Buffer = Buffer(cardinality: nat, slots: seq<U16>) {
    function Values(): seq<U16> {
      if cardinality <= |slots| then slots[..cardinality] else []
    }
  }

  /** Keys ascend, every container has an entry, and its header has its true cardinality. */
  ghost predicate Counted(headers: seq<Header>, buffers: seq<Buffer>) {
    && |buffers| <= |headers|
    && (forall i, j :: 0 <= i < j < |buffers| ==> headers[i].key < headers[j].key)
    && (forall i :: 0 <= i < |buffers| ==>
          buffers[i].cardinality <= |buffers[i].slots| && buffers[i].cardinality == headers[i].cardm1 + 1)
    && (forall i :: |buffers| <= i < |headers| ==> headers[i] == ZERO)
  }

  /** The containers as values. */
  function Arrays(buffers: seq<Buffer>): (r: seq<Container>)
    ensures |r| == |buffers|
    ensures forall i :: 0 <= i < |r| ==> r[i] == Array(buffers[i].Values())
  {
    seq(|buffers|, i requires 0 <= i < |buffers| => Array(buffers[i].Values()))
  }

  /** What reading the bitmap gives. */
  function Read(headers: seq<Header>, buffers: seq<Buffer>): seq<nat>
    requires |buffers| <= |headers|
  {
    EntriesBelow(headers, Arrays(buffers), |buffers|)
  }

  lemma ShiftedHas(key: U16, values: seq<U16>, x: nat)
    ensures x in Shifted(key, values) <==> key == x / 0x1_0000 && x % 0x1_0000 in values
  {
    var shifted := Shifted(key, values);
    forall k | 0 <= k < |values| ensures shifted[k] == x <==> key == x / 0x1_0000 && x % 0x1_0000 == values[k] {
      KeyAndValue(key, values[k], x);
    }
  }

  /** A value is in a bitmap of arrays if the array of its key has it. */
  lemma {:induction false} ReadMembers(h: seq<Header>, c: seq<Container>, n: nat, x: nat)
    requires n <= |c| <= |h| && forall i :: 0 <= i < |c| ==> c[i].Array?
    ensures x in EntriesBelow(h, c, n) <==>
            exists i :: 0 <= i < n && h[i].key == x / 0x1_0000 && x % 0x1_0000 in c[i].values
  {
    if n > 0 {
      ReadMembers(h, c, n - 1, x);
      ShiftedHas(h[n - 1].key, c[n - 1].values, x);
    }
  }

  lemma ConcatNonDescending(a: seq<nat>, b: seq<nat>)
    requires NonDescending(a + b)
    ensures NonDescending(a) && NonDescending(b)
  {
    var all := a + b;
    assert forall k :: 0 <= k < |a| ==> a[k] == all[k];
    assert forall k :: 0 <= k < |b| ==> b[k] == all[|a| + k];
  }

  lemma ShiftedNonDescending(key: U16, values: seq<U16>)
    requires NonDescending(Shifted(key, values))
    ensures NonDescending(values)
  {
    var shifted := Shifted(key, values);
    forall k, l | 0 <= k < l < |values| ensures values[k] <= values[l] {
      assert shifted[k] <= shifted[l];
    }
  }

  /** Entries that do not descend come from arrays that do not. */
  lemma {:induction false} PartsNonDescending(h: seq<Header>, c: seq<Container>, n: nat)
    requires n <= |c| <= |h| && NonDescending(EntriesBelow(h, c, n)) && forall i :: 0 <= i < |c| ==> c[i].Array?
    ensures forall i :: 0 <= i < n ==> NonDescending(c[i].values)
  {
    hide NonDescending, Shifted, EntriesBelow;
    if n > 0 {
      EntriesStep(h, c, n - 1);
      ConcatNonDescending(EntriesBelow(h, c, n - 1), Shifted(h[n - 1].key, c[n - 1].values));
      PartsNonDescending(h, c, n - 1);
      ShiftedNonDescending(h[n - 1].key, c[n - 1].values);
    }
  }

  /** What the search for the key finds out about a value. */
  lemma SearchedPlace(headers: seq<Header>, buffers: seq<Buffer>, mid: int, x: nat)
    requires Counted(headers, buffers) && NonDescending(Read(headers, buffers)) && -1 <= mid < |buffers|
    requires mid >= 0 ==> headers[mid].key == x / 0x1_0000
    requires mid == -1 ==> forall i :: 0 <= i < |buffers| ==> headers[i].key != x / 0x1_0000
    ensures mid == -1 ==> x !in Read(headers, buffers)
    ensures mid >= 0 ==> NonDescending(buffers[mid].Values())
    ensures mid >= 0 ==> (x in Read(headers, buffers) <==> x % 0x1_0000 in buffers[mid].Values())
  {
    hide EntriesBelow, NonDescending, Buffer.Values;
    ReadMembers(headers, Arrays(buffers), |buffers|, x);
    PartsNonDescending(headers, Arrays(buffers), |buffers|);
  }

  /** Where the container for a key that is not smaller than the others belongs. */
  function PlaceOf(headers: seq<Header>, n: nat, key: nat): nat {
    if 0 < n <= |headers| && headers[n - 1].key == key then n - 1 else n
  }

  /** A buffer in the place of the one there, or after all. */
  function Put(buffers: seq<Buffer>, at: nat, b: Buffer): seq<Buffer> {
    if at < |buffers| then buffers[at := b] else buffers + [b]
  }

  /** There is room for one more entry, and those there are kept. */
  ghost predicate Prepared(buffers: seq<Buffer>, at: nat, b: Buffer) {
    && b.cardinality < |b.slots| && b.cardinality < 0x1_0000
    && b.cardinality == (if at < |buffers| then buffers[at].cardinality else 0)
    && b.Values() == (if at < |buffers| then buffers[at].Values() else [])
  }

  lemma CountedHeaders(headers: seq<Header>, buffers: seq<Buffer>)
    requires Counted(headers, buffers)
    ensures |buffers| <= |headers| && forall i :: 0 <= i < |buffers| ==> buffers[i].cardinality == headers[i].cardm1 + 1
  {
  }

  lemma OneMoreValue(b: Buffer, value: U16)
    requires b.cardinality < |b.slots|
    ensures Buffer(b.cardinality + 1, b.slots[b.cardinality := value]).Values() == b.Values() + [value]
  {
  }

  lemma PositionBeyond(i: nat, width: nat, k: nat)
    ensures i <= Position(i + 5, width, k)
  {
  }

  lemma SumsStart(first: nat, deltas: seq<nat>)
    ensures Last(first, deltas[..0]) == first <= Last(first, deltas) && Sums(first, deltas[..0]) == [first]
  {
    LastGrows(first, deltas, 0);
  }

  lemma SumsStep(first: nat, deltas: seq<nat>, k: nat)
    requires k < |deltas|
    ensures Last(first, deltas[..k + 1]) == Last(first, deltas[..k]) + deltas[k] <= Last(first, deltas)
    ensures Sums(first, deltas[..k + 1]) == Sums(first, deltas[..k]) + [Last(first, deltas[..k + 1])]
  {
    assert deltas[..k + 1][..k] == deltas[..k];
    LastGrows(first, deltas, k + 1);
  }

  lemma {:induction false} EntriesOfSame(h: seq<Header>, c: seq<Container>, h': seq<Header>, c': seq<Container>, n: nat)
    requires n <= |c| <= |h| && n <= |c'| <= |h'|
    requires forall i :: 0 <= i < n ==> h[i].key == h'[i].key && c[i] == c'[i]
    ensures EntriesBelow(h, c, n) == EntriesBelow(h', c', n)
  {
    if n > 0 {
      EntriesOfSame(h, c, h', c', n - 1);
    }
  }

  /** A new container with one value. */
  lemma EntriesOfNew(h: seq<Header>, c: seq<Container>, h': seq<Header>, c': seq<Container>, n: nat, value: U16)
    requires |c| == n <= |h| && |c'| == n + 1 <= |h'|
    requires forall i :: 0 <= i < n ==> h[i].key == h'[i].key && c[i] == c'[i]
    requires c'[n] == Array([value])
    ensures EntriesBelow(h', c', n + 1) == EntriesBelow(h, c, n) + [h'[n].key * 0x1_0000 + value]
  {
    hide EntriesBelow;
    EntriesOfSame(h, c, h', c', n);
    EntriesStep(h', c', n);
    assert Shifted(h'[n].key, [value]) == [h'[n].key * 0x1_0000 + value];
  }

  lemma ShiftedAppend(key: U16, values: seq<U16>, value: U16)
    ensures Shifted(key, values + [value]) == Shifted(key, values) + [key * 0x1_0000 + value]
  {
  }

  /** A value more in the last container. */
  lemma EntriesOfKnown(h: seq<Header>, c: seq<Container>, h': seq<Header>, c': seq<Container>, n: nat, values: seq<U16>,
                       value: U16)
    requires |c| == |c'| == n + 1 <= |h| && n + 1 <= |h'|
    requires forall i :: 0 <= i < n ==> h[i].key == h'[i].key && c[i] == c'[i]
    requires h[n].key == h'[n].key && c[n] == Array(values) && c'[n] == Array(values + [value])
    ensures EntriesBelow(h', c', n + 1) == EntriesBelow(h, c, n + 1) + [h[n].key * 0x1_0000 + value]
  {
    hide EntriesBelow, Shifted;
    EntriesOfSame(h, c, h', c', n);
    EntriesStep(h, c, n);
    EntriesStep(h', c', n);
    ShiftedAppend(h[n].key, values, value);
  }

  lemma ReadAppended(headers: seq<Header>, buffers: seq<Buffer>, at: nat, key: U16, b: Buffer, b': Buffer, value: U16)
    requires |buffers| < |headers| && at == PlaceOf(headers, |buffers|, key) && Prepared(buffers, at, b)
    requires b'.Values() == b.Values() + [value]
    ensures var headers', buffers' := headers[at := Header(key, b.cardinality)], Put(buffers, at, b');
            |buffers'| <= |headers'| && Read(headers', buffers') == Read(headers, buffers) + [key * 0x1_0000 + value]
  {
    hide EntriesBelow, Buffer.Values;
    var headers', buffers' := headers[at := Header(key, b.cardinality)], Put(buffers, at, b');
    if at < |buffers| {
      EntriesOfKnown(headers, Arrays(buffers), headers', Arrays(buffers'), at, b.Values(), value);
    } else {
      assert b.Values() + [value] == [value];
      EntriesOfNew(headers, Arrays(buffers), headers', Arrays(buffers'), at, value);
    }
  }

  /** Writing the entry into the room made for it. */
  lemma Appended(headers: seq<Header>, buffers: seq<Buffer>, at: nat, key: U16, b: Buffer, value: U16)
    requires Counted(headers, buffers) && |buffers| < |headers| && at == PlaceOf(headers, |buffers|, key)
    requires |buffers| > 0 ==> headers[|buffers| - 1].key <= key
    requires Prepared(buffers, at, b)
    ensures var headers', buffers' := headers[at := Header(key, b.cardinality)],
                                      Put(buffers, at, Buffer(b.cardinality + 1, b.slots[b.cardinality := value]));
            Counted(headers', buffers') && Read(headers', buffers') == Read(headers, buffers) + [key * 0x1_0000 + value]
  {
    hide EntriesBelow, Arrays, Buffer.Values;
    var b' := Buffer(b.cardinality + 1, b.slots[b.cardinality := value]);
    assert b'.Values() == b.Values() + [value] by { OneMoreValue(b, value); }
    ReadAppended(headers, buffers, at, key, b, b', value);
  }

  lemma FirstEntry(h: seq<Header>, c: seq<Buffer>, entry: nat)
    requires |c| == 1 <= |h| && entry < 0x1_0000_0000
    requires h[0] == Header(entry / 0x1_0000, 0) && c[0].cardinality == 1 <= |c[0].slots|
    requires c[0].slots[0] == entry % 0x1_0000
    requires forall i :: 1 <= i < |h| ==> h[i] == ZERO
    ensures Counted(h, c) && Read(h, c) == [entry]
  {
    assert c[0].Values() == [entry % 0x1_0000];
    EntriesStep(h, Arrays(c), 0);
  }

  lemma {:induction false} DeltaAt(bytes: seq<Byte>, i: nat, width: nat, n: nat, k: nat)
    requires width in {1, 2} && Position(i, width, n) <= |bytes| && k < n
    ensures Position(i, width, k + 1) == Position(i, width, k) + width <= |bytes|
    ensures Deltas(bytes, i, width, n)[k] ==
            if width == 1 then bytes[Position(i, width, k)] else Word16(bytes, Position(i, width, k))
  {
    if k < n - 1 {
      DeltaAt(bytes, i, width, n - 1, k);
    }
  }

  class Decoder {
    var headers: seq<Header>
    var containers: seq<Growing>
    var consumedLenBytes: nat

    ghost function Buffers(): (r: seq<Buffer>)
      reads this, containers
      ensures |r| == |containers|
      ensures forall i :: 0 <= i < |r| ==> r[i] == Buffer(containers[i].cardinality, containers[i].slots)
    {
      seq(|containers|, i requires 0 <= i < |containers| reads this, containers =>
            Buffer(containers[i].cardinality, containers[i].slots))
    }

    ghost predicate Distinct()
      reads this
    {
      forall i, j :: 0 <= i < j < |containers| ==> containers[i] != containers[j]
    }

    ghost predicate Valid()
      reads this, containers
    {
      Distinct() && Counted(headers, Buffers())
    }

    ghost function Entries(): seq<nat>
      reads this, containers
      requires Valid()
    {
      Read(headers, Buffers())
    }

    /** The bytes from i on, with a tag that says how many entries there are and how long the differences are. */
    constructor (u8array: seq<Byte>, i: nat)
      requires i < |u8array| && Written(u8array, i) && Last(First(u8array, i), Rest(u8array, i)) < 0x8000_0000
      ensures Valid() && fresh(containers)
      ensures Entries() == Sums(First(u8array, i), Rest(u8array, i)) && NonDescending(Entries())
      ensures PrintedAt(u8array, i, Entries(), u8array[i] > 0xf0)
      ensures consumedLenBytes == |Printed(Entries(), u8array[i] > 0xf0)|
      ensures forall es, wide :: PrintedAt(u8array, i, es, wide) ==>
                Entries() == es && consumedLenBytes == |Printed(es, wide)|
    {
      hide Sums, Last, Deltas, Read, Counted, Word16, PrintedAt;
      headers := seq(u8array[i] % 16, _ => ZERO);
      containers := [];
      consumedLenBytes := 0;
      new;
      var entry := First(u8array, i);
      SumsStart(entry, Rest(u8array, i));
      var container := new Growing(1, 2);
      container.slots := container.slots[0 := entry % 0x1_0000];
      containers := containers + [container];
      headers := headers[0 := Header(entry / 0x1_0000, 0)];
      FirstEntry(headers, Buffers(), entry);
      ReadDeltas(u8array, i, entry);
      SumsNonDescending(entry, Rest(u8array, i));
      WrittenIsPrinted(u8array, i);
      forall es, wide | PrintedAt(u8array, i, es, wide)
        ensures es == Entries() && wide == (u8array[i] > 0xf0)
      {
        PrintedOnce(u8array, i, es, wide, Entries(), u8array[i] > 0xf0);
      }
    }

    method Consumed(n: nat)
      requires Valid()
      modifies this`consumedLenBytes
      ensures Valid() && Entries() == old(Entries()) && consumedLenBytes == n
    {
      ghost var was := Buffers();
      consumedLenBytes := n;
      assert Buffers() == was;
    }

    /** The two binary searches find exactly the entries, with repeated ones too. */
    method Contains(keyvalue: nat) returns (found: bool)
      requires Valid() && NonDescending(Entries())
      ensures found <==> keyvalue in Entries()
    {
      hide Read, NonDescending;
      var key, value := keyvalue / 0x1_0000, keyvalue % 0x1_0000;
      var mid := FindKey(headers, |containers|, key);
      SearchedPlace(headers, Buffers(), mid, keyvalue);
      if mid == -1 {
        return false;
      }
      var container := containers[mid];
      assert Buffers()[mid].Values() == container.slots[..container.cardinality];
      found := ArrayContains(container.slots[..container.cardinality], value);
    }

    /** The container for a key, new or not, with its header counting the entry to come and room for it. */
    method AddToArrayAt(key: U16) returns (container: Growing, ghost at: nat)
      requires Valid() && |containers| < |headers|
      requires |containers| > 0 ==> headers[|containers| - 1].key <= key
      requires forall i :: 0 <= i < |containers| ==> headers[i].cardm1 < 0xffff
      modifies this, containers
      ensures consumedLenBytes == old(consumedLenBytes) && Distinct()
      ensures at == PlaceOf(old(headers), old(|containers|), key)
      ensures |containers| == (if at < old(|containers|) then old(|containers|) else at + 1)
      ensures container == containers[at]
      ensures forall k :: 0 <= k < |containers| ==>
                if k < old(|containers|) then containers[k] == old(containers[k]) else fresh(containers[k])
      ensures |Buffers()| > at && Prepared(old(Buffers()), at, Buffers()[at])
      ensures Buffers() == Put(old(Buffers()), at, Buffers()[at])
      ensures headers == old(headers)[at := Header(key, Buffers()[at].cardinality)]
    {
      var n := |containers|;
      ghost var was := Buffers();
      var mid := FindKey(headers, n, key);
      if mid == -1 {
        container := new Growing(0, 1);
        mid := n;
        containers := containers + [container];
        headers := headers[mid := Header(key, headers[mid].cardm1)];
      } else {
        container := containers[mid];
        headers := headers[mid := Header(headers[mid].key, headers[mid].cardm1 + 1)];
      }
      at := mid;
      var cardinalityOld: nat := headers[mid].cardm1;
      if |container.slots| < cardinalityOld + 1 {
        container.Grow(cardinalityOld);
      }
      assert Buffers() == Put(was, at, Buffers()[at]);
    }

    /** One more entry, not smaller than those before, goes to the end. */
    method AppendEntry(entry: nat)
      requires Valid() && 0 < |containers| < |headers| && entry < 0x1_0000_0000
      requires headers[|containers| - 1].key <= entry / 0x1_0000
      requires forall i :: 0 <= i < |containers| ==> headers[i].cardm1 < 0xffff
      modifies this, containers
      ensures consumedLenBytes == old(consumedLenBytes)
      ensures Valid() && forall k :: 0 <= k < |containers| ==> containers[k] in old(containers) || fresh(containers[k])
      ensures |headers| == old(|headers|) && old(|containers|) <= |containers| <= old(|containers|) + 1
      ensures headers[|containers| - 1].key == entry / 0x1_0000
      ensures Entries() == old(Entries()) + [entry]
      ensures forall i :: 0 <= i < |containers| ==>
                headers[i].cardm1 <= (if i < old(|containers|) then old(headers[i].cardm1) else 0) + 1
    {
      hide Read, Counted;
      var key, value := entry / 0x1_0000, entry % 0x1_0000;
      ghost var wasHeaders, was := headers, Buffers();
      ghost var at: nat;
      var container;
      container, at := AddToArrayAt(key);
      ghost var b := Buffers()[at];
      container.slots := container.slots[container.cardinality := value];
      container.cardinality := container.cardinality + 1;
      assert Buffers() == Put(was, at, Buffer(b.cardinality + 1, b.slots[b.cardinality := value]));
      Appended(wasHeaders, was, at, key, b, value);
      CountedHeaders(wasHeaders, was);
    }

    /** The entries after the first. */
    method ReadDeltas(u8array: seq<Byte>, i: nat, first: nat)
      requires i < |u8array| && Written(u8array, i) && first == First(u8array, i)
      requires Last(first, Rest(u8array, i)) < 0x8000_0000
      requires Valid() && |containers| == 1 && |headers| == u8array[i] % 16
      requires headers[0] == Header(first / 0x1_0000, 0) && Entries() == [first]
      modifies this, containers
      ensures Valid() && forall k :: 0 <= k < |containers| ==> containers[k] in old(containers) || fresh(containers[k])
      ensures Entries() == Sums(first, Rest(u8array, i))
      ensures i + consumedLenBytes == Position(i + 5, Width(u8array[i]), |Rest(u8array, i)|)
    {
      hide Sums, Last, Deltas, Word16, First, Decoder.Valid, Decoder.Entries, Decoder.Buffers;
      ghost var deltas := Rest(u8array, i);
      var lspecial, width := u8array[i] % 16, Width(u8array[i]);
      var pspecial := i + 5;
      var entry := first;
      var ispecial := 1;
      SumsStart(first, deltas);
      assert Position(i + 5, width, 0) == pspecial;
      hide Position;
      while ispecial < lspecial
        invariant 1 <= ispecial <= lspecial == |headers| && 0 < |containers| <= ispecial
        invariant forall k :: 0 <= k < |containers| ==> containers[k] in old(containers) || fresh(containers[k])
        invariant pspecial == Position(i + 5, width, ispecial - 1)
        invariant Valid() && headers[|containers| - 1].key == entry / 0x1_0000
        invariant entry == Last(first, deltas[..ispecial - 1]) && Entries() == Sums(first, deltas[..ispecial - 1])
        invariant forall k :: 0 <= k < |containers| ==> headers[k].cardm1 < ispecial
      {
        DeltaAt(u8array, i + 5, width, lspecial - 1, ispecial - 1);
        SumsStep(first, deltas, ispecial - 1);
        entry := entry + if width == 1 then u8array[pspecial] else Word16(u8array, pspecial);
        AppendEntry(entry);
        pspecial := pspecial + width;
        ispecial := ispecial + 1;
      }
      assert deltas[..lspecial - 1] == deltas;
      PositionBeyond(i, width, lspecial - 1);
      Consumed(pspecial - i);
    }
  }

  lemma PartsAscend(a: seq<nat>, b: seq<nat>)
    requires Ascending(a + b)
    ensures Ascending(a) && Ascending(b)
  {
    var all := a + b;
    assert forall k :: 0 <= k < |a| ==> a[k] == all[k];
    assert forall k :: 0 <= k < |b| ==> b[k] == all[|a| + k];
  }

  lemma ShiftedAscends(key: U16, values: seq<U16>)
    requires Ascending(Shifted(key, values))
    ensures Ascending(values)
  {
    var shifted := Shifted(key, values);
    forall k, l | 0 <= k < l < |values| ensures values[k] < values[l] {
      assert shifted[k] < shifted[l];
    }
  }

  /** Entries that ascend make a well-formed bitmap: ascending arrays, no empty container, headers with the true
    * cardinalities. */
  lemma {:induction false} AscendingIsShaped(h: seq<Header>, c: seq<Container>, n: nat)
    requires n <= |c| <= |h| && Ascending(EntriesBelow(h, c, n))
    requires forall i :: 0 <= i < |c| ==> c[i].Array? && |c[i].values| == h[i].cardm1 + 1
    ensures forall i :: 0 <= i < n ==> ContainerOk(h[i], c[i])
  {
    hide Ascending, Shifted, EntriesBelow;
    if n > 0 {
      EntriesStep(h, c, n - 1);
      PartsAscend(EntriesBelow(h, c, n - 1), Shifted(h[n - 1].key, c[n - 1].values));
      AscendingIsShaped(h, c, n - 1);
      ShiftedAscends(h[n - 1].key, c[n - 1].values);
    }
  }

  lemma {:induction false} AscendingSums(first: nat, deltas: seq<nat>)
    requires Ascending(Sums(first, deltas))
    ensures |Sums(first, deltas)| == |deltas| + 1 && Sums(first, deltas)[|deltas|] == Last(first, deltas)
    ensures forall k :: 0 <= k < |deltas| ==> deltas[k] > 0
  {
    if deltas != [] {
      var n := |deltas| - 1;
      var before := Sums(first, deltas[..n]);
      assert forall k :: 0 <= k < |before| ==> before[k] == Sums(first, deltas)[k];
      AscendingSums(first, deltas[..n]);
      assert before[n] < Sums(first, deltas)[n + 1];
      assert forall k :: 0 <= k < n ==> deltas[k] == deltas[..n][k];
    }
  }

  /** The decoded bitmap is well formed exactly if no difference is zero. */
  lemma ShapedIffPositive(d: Decoder, first: nat, deltas: seq<nat>)
    requires d.Valid() && d.Entries() == Sums(first, deltas)
    ensures Shaped(d.headers, Arrays(d.Buffers())) <==> forall k :: 0 <= k < |deltas| ==> deltas[k] > 0
  {
    if Shaped(d.headers, Arrays(d.Buffers())) {
      EntriesAscend(d.headers, Arrays(d.Buffers()), |d.containers|);
      AscendingSums(first, deltas);
    }
    if forall k :: 0 <= k < |deltas| ==> deltas[k] > 0 {
      SumsAscend(first, deltas);
      AscendingIsShaped(d.headers, Arrays(d.Buffers()), |d.containers|);
    }
  }
}
