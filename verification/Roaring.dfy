/** Compressed bitmaps: one container per 16-bit key, with a header of key and cardinality. */
module Roaring {
  import opened Containers

  /** The key, and the number of values less one. */
  datatype Header = Header(key: U16, cardm1: U16)

  const ZERO := Header(0, 0)

  // ---------- Headers and containers as sequences ----------

  /** x lies in a container with that header. */
  predicate HasIn(header: Header, c: Container, x: nat) {
    header.key == x / 0x1_0000 && x % 0x1_0000 in Values(c)
  }

  /** The i-th container holds x. */
  predicate HasAt(headers: seq<Header>, containers: seq<Container>, i: nat, x: nat) {
    i < |headers| && i < |containers| && HasIn(headers[i], containers[i], x)
  }

  ghost predicate HasBelow(headers: seq<Header>, containers: seq<Container>, n: nat, x: nat) {
    exists i: nat :: i < n && HasAt(headers, containers, i, x)
  }

  ghost predicate ContainerOk(header: Header, c: Container) {
    Containers.Valid(c) && |Values(c)| == header.cardm1 + 1
  }

  /** Keys ascend, no container is empty, and every header has the true cardinality. */
  ghost predicate Shaped(headers: seq<Header>, containers: seq<Container>) {
    && |containers| <= |headers|
    && (forall i, j :: 0 <= i < j < |containers| ==> headers[i].key < headers[j].key)
    && (forall i :: 0 <= i < |containers| ==> ContainerOk(headers[i], containers[i]))
  }

  lemma HasBelowStep(headers: seq<Header>, containers: seq<Container>, n: nat, x: nat)
    ensures HasBelow(headers, containers, n + 1, x) <==>
            HasBelow(headers, containers, n, x) || HasAt(headers, containers, n, x)
  {
  }

  /** All keys before n are smaller. */
  ghost predicate KeysBelow(headers: seq<Header>, n: nat, key: nat)
    requires n <= |headers|
  {
    forall i :: 0 <= i < n ==> headers[i].key < key
  }

  lemma AppendContainer(headers: seq<Header>, containers: seq<Container>, header: Header, c: Container)
    requires Shaped(headers, containers) && |containers| < |headers|
    requires KeysBelow(headers, |containers|, header.key) && ContainerOk(header, c)
    ensures var headers', containers' := headers[|containers| := header], containers + [c];
            && Shaped(headers', containers')
            && (forall key :: key > header.key ==> KeysBelow(headers', |containers'|, key))
            && (forall x: nat :: HasBelow(headers', containers', |containers'|, x) <==>
                  HasBelow(headers, containers, |containers|, x) || HasIn(header, c, x))
  {
    hide ContainerOk;
    var n := |containers|;
    var headers', containers' := headers[n := header], containers + [c];
    forall x: nat
      ensures HasBelow(headers', containers', n + 1, x) <==> HasBelow(headers, containers, n, x) || HasIn(header, c, x)
    {
      HasBelowStep(headers', containers', n, x);
      if HasBelow(headers, containers, n, x) {
        var i: nat :| i < n && HasAt(headers, containers, i, x);
        assert HasAt(headers', containers', i, x);
      }
      if HasBelow(headers', containers', n, x) {
        var i: nat :| i < n && HasAt(headers', containers', i, x);
        assert HasAt(headers, containers, i, x);
      }
    }
  }

  /** x is in the part of a bitmap below n, whose keys are all smaller than key. */
  lemma BelowMeansSmaller(headers: seq<Header>, containers: seq<Container>, n: nat, key: nat, x: nat)
    requires n <= |headers| && KeysBelow(headers, n, key) && HasBelow(headers, containers, n, x)
    ensures x / 0x1_0000 < key
  {
  }

  /** The index of a key among the first n headers, or -1. */
  method FindKey(headers: seq<Header>, n: nat, key: nat) returns (id: int)
    requires n <= |headers| && forall i, j :: 0 <= i < j < n ==> headers[i].key < headers[j].key
    ensures -1 <= id < n
    ensures id >= 0 ==> headers[id].key == key
    ensures id == -1 ==> forall i :: 0 <= i < n ==> headers[i].key != key
  {
    var left: int, right: int := 0, n - 1;
    while left <= right
      invariant 0 <= left <= n && -1 <= right < n
      invariant forall i :: 0 <= i < left ==> headers[i].key < key
      invariant forall i :: right < i < n ==> headers[i].key > key
    {
      var mid := (left + right) / 2;
      var x := headers[mid].key;
      if x < key {
        left := mid + 1;
      } else if x > key {
        right := mid - 1;
      } else {
        return mid;
      }
    }
    return -1;
  }

  /** All the values a container can hold, as one run. */
  const FULL_RUN := Run([Span(0, 0xffff)])

  lemma FullRunHolds(v: nat)
    ensures Containers.Valid(FULL_RUN) && |Values(FULL_RUN)| == 0x1_0000
    ensures v in Values(FULL_RUN) <==> v < 0x1_0000
  {
    var span := Span(0, 0xffff);
    var runs := [span];
    assert runs[..0] == [];
    assert RunValues(runs) == SpanValues(span);
    SpanMembers(span, v);
  }

  /** A full run for every key holds every number of 32 bits. */
  lemma AllKeysFull(headers: seq<Header>, containers: seq<Container>)
    requires |headers| == |containers| == 0x1_0000
    requires forall k :: 0 <= k < 0x1_0000 ==> headers[k] == Header(k, 0xffff) && containers[k] == FULL_RUN
    ensures Shaped(headers, containers)
    ensures forall x: nat :: HasBelow(headers, containers, |containers|, x) <==> x < 0x1_0000_0000
  {
    hide Values;
    FullRunHolds(0);
    forall x: nat ensures HasBelow(headers, containers, |containers|, x) <==> x < 0x1_0000_0000 {
      FullRunHolds(x % 0x1_0000);
      if x < 0x1_0000_0000 {
        assert HasAt(headers, containers, x / 0x1_0000, x);
      }
    }
  }

  // ---------- The steps of the union ----------

  lemma NothingBelow(headers: seq<Header>, containers: seq<Container>)
    ensures |containers| == 0 ==> forall x: nat :: !HasBelow(headers, containers, |containers|, x)
  {
  }

  lemma HasIsBounded(headers: seq<Header>, containers: seq<Container>)
    ensures forall x: nat :: HasBelow(headers, containers, |containers|, x) ==> x < 0x1_0000_0000
  {
  }

  lemma ShapeBounds(headers: seq<Header>, containers: seq<Container>)
    requires Shaped(headers, containers)
    ensures |containers| <= |headers|
  {
  }

  lemma ContainersOk(headers: seq<Header>, containers: seq<Container>, i: nat)
    requires Shaped(headers, containers) && i < |containers|
    ensures i < |headers| && ContainerOk(headers[i], containers[i]) && Containers.Valid(containers[i])
    ensures Values(containers[i]) != []
  {
  }

  /** A union with a container that is not empty has at least one value, and at most 2^16. */
  lemma UnitedSize(a: Container, b: Container, c: Container, key: U16)
    requires Containers.Valid(c) && Values(a) != []
    requires forall v: nat :: v in Values(c) <==> v in Values(a) || v in Values(b)
    ensures 0 < |Values(c)| <= 0x1_0000
    ensures ContainerOk(Header(key, |Values(c)| - 1), c)
  {
    assert Values(a)[0] in Values(a);
    ValuesAscendAndHold(c);
    AscendingBound(Values(c), 0x1_0000);
  }

  /** What the result holds after i containers of the first and j of the second bitmap. */
  ghost predicate UnionSoFar(h1: seq<Header>, c1: seq<Container>, i: nat, h2: seq<Header>, c2: seq<Container>, j: nat,
                             h: seq<Header>, c: seq<Container>)
  {
    && Shaped(h1, c1) && Shaped(h2, c2) && Shaped(h, c) && i <= |c1| && j <= |c2|
    && (i < |c1| ==> KeysBelow(h, |c|, h1[i].key))
    && (j < |c2| ==> KeysBelow(h, |c|, h2[j].key))
    && (forall x: nat :: HasBelow(h, c, |c|, x) <==> HasBelow(h1, c1, i, x) || HasBelow(h2, c2, j, x))
  }

  lemma MergeStart(h1: seq<Header>, c1: seq<Container>, h2: seq<Header>, c2: seq<Container>, h: seq<Header>)
    requires Shaped(h1, c1) && Shaped(h2, c2)
    ensures UnionSoFar(h1, c1, 0, h2, c2, 0, h, [])
  {
  }

  lemma UnionDone(h1: seq<Header>, c1: seq<Container>, h2: seq<Header>, c2: seq<Container>, h: seq<Header>,
                  c: seq<Container>)
    requires UnionSoFar(h1, c1, |c1|, h2, c2, |c2|, h, c)
    ensures Shaped(h, c)
    ensures forall x: nat :: HasBelow(h, c, |c|, x) <==> HasBelow(h1, c1, |c1|, x) || HasBelow(h2, c2, |c2|, x)
  {
  }

  lemma TakeFirst(h1: seq<Header>, c1: seq<Container>, i: nat, h2: seq<Header>, c2: seq<Container>, j: nat,
                  h: seq<Header>, c: seq<Container>)
    requires UnionSoFar(h1, c1, i, h2, c2, j, h, c) && |c| < |h|
    requires i < |c1| && (j < |c2| ==> h1[i].key < h2[j].key)
    ensures UnionSoFar(h1, c1, i + 1, h2, c2, j, h[|c| := h1[i]], c + [c1[i]])
  {
    hide HasBelow, ContainerOk, HasIn, KeysBelow;
    assert ContainerOk(h1[i], c1[i]);
    AppendContainer(h, c, h1[i], c1[i]);
    forall x: nat ensures HasBelow(h1, c1, i + 1, x) <==> HasBelow(h1, c1, i, x) || HasIn(h1[i], c1[i], x) {
      HasBelowStep(h1, c1, i, x);
    }
  }

  lemma TakeSecond(h1: seq<Header>, c1: seq<Container>, i: nat, h2: seq<Header>, c2: seq<Container>, j: nat,
                   h: seq<Header>, c: seq<Container>)
    requires UnionSoFar(h1, c1, i, h2, c2, j, h, c) && |c| < |h|
    requires j < |c2| && (i < |c1| ==> h2[j].key < h1[i].key)
    ensures UnionSoFar(h1, c1, i, h2, c2, j + 1, h[|c| := h2[j]], c + [c2[j]])
  {
    hide HasBelow, ContainerOk, HasIn, KeysBelow;
    assert ContainerOk(h2[j], c2[j]);
    AppendContainer(h, c, h2[j], c2[j]);
    forall x: nat ensures HasBelow(h2, c2, j + 1, x) <==> HasBelow(h2, c2, j, x) || HasIn(h2[j], c2[j], x) {
      HasBelowStep(h2, c2, j, x);
    }
  }

  lemma TakeBoth(h1: seq<Header>, c1: seq<Container>, i: nat, h2: seq<Header>, c2: seq<Container>, j: nat,
                 h: seq<Header>, c: seq<Container>,
                 header: Header, united: Container)
    requires UnionSoFar(h1, c1, i, h2, c2, j, h, c) && |c| < |h|
    requires i < |c1| && j < |c2| && i < |h1| && j < |h2| && h1[i].key == h2[j].key == header.key
    requires ContainerOk(header, united)
    requires forall v: nat :: v in Values(united) <==> v in Values(c1[i]) || v in Values(c2[j])
    ensures UnionSoFar(h1, c1, i + 1, h2, c2, j + 1, h[|c| := header], c + [united])
  {
    assert forall x: nat :: HasIn(header, united, x) <==> HasIn(h1[i], c1[i], x) || HasIn(h2[j], c2[j], x);
    hide HasBelow, ContainerOk, HasIn;
    assert KeysBelow(h, |c|, header.key);
    hide KeysBelow;
    AppendContainer(h, c, header, united);
    forall x: nat ensures HasBelow(h1, c1, i + 1, x) <==> HasBelow(h1, c1, i, x) || HasIn(h1[i], c1[i], x) {
      HasBelowStep(h1, c1, i, x);
    }
    forall x: nat ensures HasBelow(h2, c2, j + 1, x) <==> HasBelow(h2, c2, j, x) || HasIn(h2[j], c2[j], x) {
      HasBelowStep(h2, c2, j, x);
    }
  }

  // ---------- The steps of the intersection ----------

  lemma EmptyShaped()
    ensures Shaped([], [])
  {
  }

  lemma CommonSize(c: Container, key: U16)
    requires Containers.Valid(c) && |Values(c)| > 0
    ensures |Values(c)| <= 0x1_0000
    ensures ContainerOk(Header(key, |Values(c)| - 1), c)
  {
    ValuesAscendAndHold(c);
    AscendingBound(Values(c), 0x1_0000);
  }

  /** What the result holds after passing i containers of the first and j of the second bitmap. */
  ghost predicate CommonSoFar(h1: seq<Header>, c1: seq<Container>, i: nat, h2: seq<Header>, c2: seq<Container>, j: nat,
                              h: seq<Header>, c: seq<Container>)
  {
    && Shaped(h1, c1) && Shaped(h2, c2) && Shaped(h, c) && i <= |c1| && j <= |c2|
    && (i < |c1| ==> KeysBelow(h, |c|, h1[i].key) && KeysBelow(h2, j, h1[i].key))
    && (j < |c2| ==> KeysBelow(h, |c|, h2[j].key) && KeysBelow(h1, i, h2[j].key))
    && (forall x: nat :: HasBelow(h, c, |c|, x) <==> HasBelow(h1, c1, i, x) && HasBelow(h2, c2, j, x))
  }

  lemma CommonStart(h1: seq<Header>, c1: seq<Container>, h2: seq<Header>, c2: seq<Container>, h: seq<Header>)
    requires Shaped(h1, c1) && Shaped(h2, c2)
    ensures CommonSoFar(h1, c1, 0, h2, c2, 0, h, [])
  {
  }

  /** A container whose key the other bitmap has not reached and will not meet adds nothing. */
  lemma SkipFirst(h1: seq<Header>, c1: seq<Container>, i: nat, h2: seq<Header>, c2: seq<Container>, j: nat,
                  h: seq<Header>, c: seq<Container>)
    requires CommonSoFar(h1, c1, i, h2, c2, j, h, c)
    requires i < |c1| && j < |c2| && h1[i].key < h2[j].key
    ensures CommonSoFar(h1, c1, i + 1, h2, c2, j, h, c)
  {
    hide HasBelow, ContainerOk;
    forall x: nat
      ensures HasBelow(h1, c1, i + 1, x) && HasBelow(h2, c2, j, x) <==> HasBelow(h1, c1, i, x) && HasBelow(h2, c2, j, x)
    {
      HasBelowStep(h1, c1, i, x);
      if HasBelow(h2, c2, j, x) {
        BelowMeansSmaller(h2, c2, j, h1[i].key, x);
      }
    }
  }

  lemma SkipSecond(h1: seq<Header>, c1: seq<Container>, i: nat, h2: seq<Header>, c2: seq<Container>, j: nat,
                   h: seq<Header>, c: seq<Container>)
    requires CommonSoFar(h1, c1, i, h2, c2, j, h, c)
    requires i < |c1| && j < |c2| && h2[j].key < h1[i].key
    ensures CommonSoFar(h1, c1, i, h2, c2, j + 1, h, c)
  {
    hide HasBelow, ContainerOk;
    forall x: nat
      ensures HasBelow(h1, c1, i, x) && HasBelow(h2, c2, j + 1, x) <==> HasBelow(h1, c1, i, x) && HasBelow(h2, c2, j, x)
    {
      HasBelowStep(h2, c2, j, x);
      if HasBelow(h1, c1, i, x) {
        BelowMeansSmaller(h1, c1, i, h2[j].key, x);
      }
    }
  }

  /** What two containers with the same key add. */
  lemma CommonStep(h1: seq<Header>, c1: seq<Container>, i: nat, h2: seq<Header>, c2: seq<Container>, j: nat, x: nat,
                   common: Container)
    requires i < |c1| && j < |c2| && i < |h1| && j < |h2| && h1[i].key == h2[j].key
    requires KeysBelow(h1, i, h2[j].key) && KeysBelow(h2, j, h1[i].key)
    requires forall v: nat :: v in Values(common) <==> v in Values(c1[i]) && v in Values(c2[j])
    ensures HasBelow(h1, c1, i + 1, x) && HasBelow(h2, c2, j + 1, x) <==>
            (HasBelow(h1, c1, i, x) && HasBelow(h2, c2, j, x)) || HasIn(h1[i], common, x)
  {
    hide HasBelow;
    HasBelowStep(h1, c1, i, x);
    HasBelowStep(h2, c2, j, x);
    if HasBelow(h1, c1, i, x) {
      BelowMeansSmaller(h1, c1, i, h2[j].key, x);
    }
    if HasBelow(h2, c2, j, x) {
      BelowMeansSmaller(h2, c2, j, h1[i].key, x);
    }
  }

  lemma KeepCommon(h1: seq<Header>, c1: seq<Container>, i: nat, h2: seq<Header>, c2: seq<Container>, j: nat,
                   h: seq<Header>, c: seq<Container>,
                   header: Header, common: Container)
    requires CommonSoFar(h1, c1, i, h2, c2, j, h, c) && |c| < |h|
    requires i < |c1| && j < |c2| && i < |h1| && j < |h2| && h1[i].key == h2[j].key == header.key
    requires ContainerOk(header, common)
    requires forall v: nat :: v in Values(common) <==> v in Values(c1[i]) && v in Values(c2[j])
    ensures CommonSoFar(h1, c1, i + 1, h2, c2, j + 1, h[|c| := header], c + [common])
  {
    hide HasBelow, ContainerOk, Values;
    forall x: nat
      ensures HasBelow(h1, c1, i + 1, x) && HasBelow(h2, c2, j + 1, x) <==>
              (HasBelow(h1, c1, i, x) && HasBelow(h2, c2, j, x)) || HasIn(header, common, x)
    {
      CommonStep(h1, c1, i, h2, c2, j, x, common);
    }
    AppendContainer(h, c, header, common);
  }

  lemma DropBoth(h1: seq<Header>, c1: seq<Container>, i: nat, h2: seq<Header>, c2: seq<Container>, j: nat,
                 h: seq<Header>, c: seq<Container>,
                 common: Container)
    requires CommonSoFar(h1, c1, i, h2, c2, j, h, c)
    requires i < |c1| && j < |c2| && i < |h1| && j < |h2| && h1[i].key == h2[j].key && |Values(common)| == 0
    requires forall v: nat :: v in Values(common) <==> v in Values(c1[i]) && v in Values(c2[j])
    ensures CommonSoFar(h1, c1, i + 1, h2, c2, j + 1, h, c)
  {
    hide HasBelow, ContainerOk, Values;
    forall x: nat
      ensures HasBelow(h1, c1, i + 1, x) && HasBelow(h2, c2, j + 1, x) <==>
              HasBelow(h1, c1, i, x) && HasBelow(h2, c2, j, x)
    {
      CommonStep(h1, c1, i, h2, c2, j, x, common);
    }
  }

  /** Once one bitmap is used up, the rest of the other shares nothing with it. */
  lemma CommonDone(h1: seq<Header>, c1: seq<Container>, i: nat, h2: seq<Header>, c2: seq<Container>, j: nat,
                   h: seq<Header>, c: seq<Container>)
    requires CommonSoFar(h1, c1, i, h2, c2, j, h, c) && (i == |c1| || j == |c2|)
    ensures Shaped(h, c)
    ensures forall x: nat :: HasBelow(h, c, |c|, x) <==> HasBelow(h1, c1, |c1|, x) && HasBelow(h2, c2, |c2|, x)
  {
  }

  // ---------- Reading ----------

  function Shifted(key: U16, values: seq<nat>): seq<nat> {
    seq(|values|, k requires 0 <= k < |values| => key * 0x1_0000 + values[k])
  }

  function EntriesBelow(headers: seq<Header>, containers: seq<Container>, n: nat): seq<nat>
    requires n <= |containers| && |containers| <= |headers|
  {
    if n == 0 then []
    else EntriesBelow(headers, containers, n - 1) + Shifted(headers[n - 1].key, Values(containers[n - 1]))
  }

  lemma ShiftedAt(header: Header, c: Container)
    requires Containers.Valid(c)
    ensures Ascending(Shifted(header.key, Values(c)))
    ensures forall k :: 0 <= k < |Shifted(header.key, Values(c))| ==>
              header.key * 0x1_0000 <= Shifted(header.key, Values(c))[k]
  {
    ValuesAscendAndHold(c);
    assert forall k :: 0 <= k < |Values(c)| ==> Values(c)[k] in Values(c);
  }

  lemma KeyAndValue(key: U16, value: nat, x: nat)
    requires value < 0x1_0000
    ensures key * 0x1_0000 + value == x <==> key == x / 0x1_0000 && x % 0x1_0000 == value
  {
  }

  lemma ShiftedMembers(header: Header, c: Container, x: nat)
    requires Containers.Valid(c)
    ensures x in Shifted(header.key, Values(c)) <==> HasIn(header, c, x)
  {
    ValuesAscendAndHold(c);
    hide Values;
    var values, shifted := Values(c), Shifted(header.key, Values(c));
    forall k | 0 <= k < |values| ensures shifted[k] == x <==> header.key == x / 0x1_0000 && x % 0x1_0000 == values[k] {
      assert values[k] in values;
      KeyAndValue(header.key, values[k], x);
    }
  }

  lemma EntriesStep(headers: seq<Header>, containers: seq<Container>, n: nat)
    requires n < |containers| <= |headers|
    ensures EntriesBelow(headers, containers, n + 1) ==
            EntriesBelow(headers, containers, n) + Shifted(headers[n].key, Values(containers[n]))
  {
  }

  lemma NoMembers(headers: seq<Header>, containers: seq<Container>)
    requires |containers| <= |headers|
    ensures forall x: nat :: x !in EntriesBelow(headers, containers, 0) && !HasBelow(headers, containers, 0, x)
  {
  }

  lemma EntriesMemberStep(headers: seq<Header>, containers: seq<Container>, n: nat, x: nat)
    requires Shaped(headers, containers) && n < |containers|
    requires x in EntriesBelow(headers, containers, n) <==> HasBelow(headers, containers, n, x)
    ensures x in EntriesBelow(headers, containers, n + 1) <==> HasBelow(headers, containers, n + 1, x)
  {
    hide Shifted, Values, HasBelow, ContainerOk, HasIn, Shaped, EntriesBelow;
    ShapeBounds(headers, containers);
    ContainersOk(headers, containers, n);
    EntriesStep(headers, containers, n);
    ShiftedMembers(headers[n], containers[n], x);
    HasBelowStep(headers, containers, n, x);
  }

  lemma {:induction false} EntriesMembers(headers: seq<Header>, containers: seq<Container>, n: nat)
    requires Shaped(headers, containers) && n <= |containers|
    ensures forall x: nat :: x in EntriesBelow(headers, containers, n) <==> HasBelow(headers, containers, n, x)
  {
    hide Shifted, Values, HasBelow, Shaped, EntriesBelow;
    ShapeBounds(headers, containers);
    if n == 0 {
      NoMembers(headers, containers);
    } else {
      EntriesMembers(headers, containers, n - 1);
      forall x: nat ensures x in EntriesBelow(headers, containers, n) <==> HasBelow(headers, containers, n, x) {
        EntriesMemberStep(headers, containers, n - 1, x);
      }
    }
  }

  lemma ConcatAscends(a: seq<nat>, b: seq<nat>, bound: nat)
    requires Ascending(a) && Ascending(b)
    requires forall x :: x in a ==> x < bound
    requires forall k :: 0 <= k < |b| ==> bound <= b[k]
    ensures Ascending(a + b)
  {
    assert forall k :: 0 <= k < |a| ==> a[k] in a;
  }

  /** The entries of the containers before one are below all of its own. */
  lemma EntriesBefore(headers: seq<Header>, containers: seq<Container>, n: nat)
    requires Shaped(headers, containers) && n < |containers|
    ensures forall x :: x in EntriesBelow(headers, containers, n) ==> x < headers[n].key * 0x1_0000
  {
    var key: nat := headers[n].key;
    assert KeysBelow(headers, n, key);
    EntriesMembers(headers, containers, n);
    hide Shaped, EntriesBelow, HasBelow, KeysBelow;
    forall x | x in EntriesBelow(headers, containers, n) ensures x < key * 0x1_0000 {
      BelowMeansSmaller(headers, containers, n, key, x);
    }
  }

  lemma NoEntries(headers: seq<Header>, containers: seq<Container>)
    requires |containers| <= |headers|
    ensures EntriesBelow(headers, containers, 0) == [] && Ascending(EntriesBelow(headers, containers, 0))
  {
  }

  lemma EntriesAscendStep(headers: seq<Header>, containers: seq<Container>, n: nat)
    requires Shaped(headers, containers) && n < |containers| && Ascending(EntriesBelow(headers, containers, n))
    ensures Ascending(EntriesBelow(headers, containers, n + 1))
  {
    var before, key: nat := EntriesBelow(headers, containers, n), headers[n].key;
    var last := Shifted(headers[n].key, Values(containers[n]));
    EntriesBefore(headers, containers, n);
    EntriesStep(headers, containers, n);
    ContainersOk(headers, containers, n);
    ShiftedAt(headers[n], containers[n]);
    hide Shifted, Values, EntriesBelow, Ascending, Shaped;
    ConcatAscends(before, last, key * 0x1_0000);
  }

  lemma {:induction false} EntriesAscend(headers: seq<Header>, containers: seq<Container>, n: nat)
    requires Shaped(headers, containers) && n <= |containers|
    ensures Ascending(EntriesBelow(headers, containers, n))
  {
    hide Shifted, Values, ContainerOk, EntriesBelow, Ascending, Shaped;
    ShapeBounds(headers, containers);
    if n == 0 {
      NoEntries(headers, containers);
    } else {
      EntriesAscend(headers, containers, n - 1);
      EntriesAscendStep(headers, containers, n - 1);
    }
  }

  // ---------- The bitmap ----------

  class Bitmap {
    var headers: seq<Header>
    var containers: seq<Container>

    constructor ()
      ensures headers == [] && containers == []
    {
      headers, containers := [], [];
    }

    ghost predicate Valid()
      reads this
    {
      Shaped(headers, containers)
    }

    ghost predicate Has(x: nat)
      reads this
    {
      HasBelow(headers, containers, |containers|, x)
    }

    ghost predicate IsEverything()
      reads this
    {
      forall x: nat :: Has(x) <==> x < 0x1_0000_0000
    }

    predicate IsEmpty()
      reads this
    {
      |containers| == 0
    }

    /** The shared bitmap of everything is filled the first time it is asked for: one run per key. */
    method Everything()
      requires Valid() && (IsEmpty() || IsEverything())
      modifies this
      ensures Valid() && IsEverything()
      ensures old(IsEverything()) ==> headers == old(headers) && containers == old(containers)
    {
      if IsEmpty() {
        NothingBelow(headers, containers);
        assert !Has(0);
        headers, containers := [], [];
        var i := 0;
        while i < 0x1_0000
          invariant 0 <= i <= 0x1_0000 && |headers| == |containers| == i
          invariant forall k :: 0 <= k < i ==> headers[k] == Header(k, 0xffff) && containers[k] == FULL_RUN
        {
          containers := containers + [FULL_RUN];
          headers := headers + [Header(i, 0xffff)];
          i := i + 1;
        }
        AllKeysFull(headers, containers);
      }
    }

    method Union(that: Bitmap, everything: Bitmap) returns (result: Bitmap)
      requires Valid() && that.Valid() && everything.Valid() && everything.IsEverything()
      ensures result.Valid()
      ensures forall x: nat :: result.Has(x) <==> Has(x) || that.Has(x)
    {
      hide HasBelow, Shaped, ContainerOk, Values, Containers.Valid, UnionSoFar;
      if IsEmpty() {
        NothingBelow(headers, containers);
        return that;
      }
      if that.IsEmpty() {
        NothingBelow(that.headers, that.containers);
        return this;
      }
      if this == everything || that == everything {
        HasIsBounded(headers, containers);
        HasIsBounded(that.headers, that.containers);
        return everything;
      }
      var i, il := 0, |containers|;
      var j, jl := 0, |that.containers|;
      result := new Bitmap();
      result.headers := seq(il + jl, _ => ZERO);
      MergeStart(headers, containers, that.headers, that.containers, result.headers);
      while i < il || j < jl
        invariant 0 <= i <= il && 0 <= j <= jl && fresh(result)
        invariant |result.headers| == il + jl && |result.containers| <= i + j
        invariant UnionSoFar(headers, containers, i, that.headers, that.containers, j, result.headers,
                             result.containers)
        decreases il - i + jl - j
      {
        var k := |result.containers|;
        ShapeBounds(headers, containers);
        ShapeBounds(that.headers, that.containers);
        if j >= jl || (i < il && headers[i].key < that.headers[j].key) {
          TakeFirst(headers, containers, i, that.headers, that.containers, j, result.headers, result.containers);
          result.headers := result.headers[k := headers[i]];
          result.containers := result.containers + [containers[i]];
          i := i + 1;
        } else if i >= il || (j < jl && that.headers[j].key < headers[i].key) {
          TakeSecond(headers, containers, i, that.headers, that.containers, j, result.headers, result.containers);
          result.headers := result.headers[k := that.headers[j]];
          result.containers := result.containers + [that.containers[j]];
          j := j + 1;
        } else {
          ContainersOk(headers, containers, i);
          ContainersOk(that.headers, that.containers, j);
          var c, card := Unite(containers[i], that.containers[j]);
          UnitedSize(containers[i], that.containers[j], c, headers[i].key);
          var header := Header(headers[i].key, card - 1);
          TakeBoth(headers, containers, i, that.headers, that.containers, j, result.headers, result.containers, header,
                   c);
          result.headers := result.headers[k := header];
          result.containers := result.containers + [c];
          i := i + 1;
          j := j + 1;
        }
      }
      UnionDone(headers, containers, that.headers, that.containers, result.headers, result.containers);
    }

    method Intersection(that: Bitmap, everything: Bitmap) returns (result: Bitmap)
      requires Valid() && that.Valid() && everything.Valid() && everything.IsEverything()
      ensures result.Valid()
      ensures forall x: nat :: result.Has(x) <==> Has(x) && that.Has(x)
    {
      hide HasBelow, Shaped, ContainerOk, Values, Containers.Valid, CommonSoFar;
      if IsEmpty() || that.IsEmpty() {
        NothingBelow(headers, containers);
        NothingBelow(that.headers, that.containers);
        result := new Bitmap();
        NothingBelow(result.headers, result.containers);
        EmptyShaped();
        return;
      }
      HasIsBounded(headers, containers);
      HasIsBounded(that.headers, that.containers);
      if this == everything {
        return that;
      }
      if that == everything {
        return this;
      }
      var i, il := 0, |containers|;
      var j, jl := 0, |that.containers|;
      result := new Bitmap();
      result.headers := seq(if il > jl then il else jl, _ => ZERO);
      CommonStart(headers, containers, that.headers, that.containers, result.headers);
      while i < il && j < jl
        invariant 0 <= i <= il && 0 <= j <= jl && fresh(result)
        invariant |result.headers| == (if il > jl then il else jl) && |result.containers| <= i
        invariant |result.containers| <= j
        invariant CommonSoFar(headers, containers, i, that.headers, that.containers, j, result.headers,
                              result.containers)
        decreases il - i + jl - j
      {
        var k := |result.containers|;
        ShapeBounds(headers, containers);
        ShapeBounds(that.headers, that.containers);
        if headers[i].key < that.headers[j].key {
          SkipFirst(headers, containers, i, that.headers, that.containers, j, result.headers, result.containers);
          i := i + 1;
        } else if that.headers[j].key < headers[i].key {
          SkipSecond(headers, containers, i, that.headers, that.containers, j, result.headers, result.containers);
          j := j + 1;
        } else {
          ContainersOk(headers, containers, i);
          ContainersOk(that.headers, that.containers, j);
          var c, card := Intersect(containers[i], that.containers[j]);
          if card != 0 {
            CommonSize(c, headers[i].key);
            var header := Header(headers[i].key, card - 1);
            KeepCommon(headers, containers, i, that.headers, that.containers, j, result.headers, result.containers,
                       header, c);
            result.headers := result.headers[k := header];
            result.containers := result.containers + [c];
          } else {
            DropBoth(headers, containers, i, that.headers, that.containers, j, result.headers, result.containers, c);
          }
          i := i + 1;
          j := j + 1;
        }
      }
      CommonDone(headers, containers, i, that.headers, that.containers, j, result.headers, result.containers);
    }

    method GetContainerId(key: nat) returns (id: int)
      requires Valid()
      ensures -1 <= id < |containers|
      ensures id >= 0 ==> headers[id].key == key
      ensures id == -1 ==> forall i :: 0 <= i < |containers| ==> headers[i].key != key
    {
      hide ContainerOk;
      id := FindKey(headers, |containers|, key);
    }

    /** Two binary searches, one for the key and one in the container, decide membership. */
    method Contains(keyvalue: nat) returns (found: bool)
      requires Valid()
      ensures found <==> Has(keyvalue)
    {
      var key, value := keyvalue / 0x1_0000, keyvalue % 0x1_0000;
      var mid := GetContainerId(key);
      if mid == -1 {
        return false;
      }
      assert ContainerOk(headers[mid], containers[mid]);
      found := Containers.Contains(containers[mid], value);
      if found {
        assert HasAt(headers, containers, mid, keyvalue);
      }
    }

    /** Reading the whole bitmap gives its members in ascending order. */
    method Entries() returns (entries: seq<nat>)
      requires Valid()
      ensures Ascending(entries)
      ensures forall x :: x in entries <==> Has(x)
    {
      entries := [];
      var i := 0;
      while i < |containers|
        invariant 0 <= i <= |containers|
        invariant entries == EntriesBelow(headers, containers, i)
      {
        entries := entries + Shifted(headers[i].key, Values(containers[i]));
        i := i + 1;
      }
      EntriesAscend(headers, containers, i);
      EntriesMembers(headers, containers, i);
    }

    /** The sum of the headers is the number of members. */
    method Cardinality() returns (result: nat)
      requires Valid()
      ensures result == |EntriesBelow(headers, containers, |containers|)|
    {
      result := 0;
      var i := 0;
      while i < |containers|
        invariant 0 <= i <= |containers|
        invariant result == |EntriesBelow(headers, containers, i)|
      {
        assert ContainerOk(headers[i], containers[i]);
        result := result + headers[i].cardm1 + 1;
        i := i + 1;
      }
    }
  }
}
