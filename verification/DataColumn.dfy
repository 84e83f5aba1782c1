/** Columns of data: stored without the empty rows, which are put back when a bucket is read. */
module DataColumn {
  import opened Basics
  import Roaring

  type Item = seq<bv8>

  const EMPTY_UINT8: Item := []

  // ---------- What a column means ----------

  /** How many ids below n are not empty. */
  ghost function Rank(empties: iset<nat>, n: nat): nat {
    if n == 0 then 0 else Rank(empties, n - 1) + if n - 1 in empties then 0 else 1
  }

  /** What a row reads as, when the rows that are not empty hold the items in order. */
  ghost function Select(empties: iset<nat>, items: seq<Item>, id: nat): Option<Item> {
    if id in empties then Some([])
    else if Rank(empties, id) < |items| then Some(items[Rank(empties, id)])
    else None
  }

  lemma {:induction false} RankGrows(empties: iset<nat>, a: nat, b: nat)
    requires a <= b
    ensures Rank(empties, a) <= Rank(empties, b) <= Rank(empties, a) + b - a
    ensures a < b && a !in empties ==> Rank(empties, a) < Rank(empties, b)
  {
    if a < b {
      RankGrows(empties, a, b - 1);
    }
  }

  lemma {:induction false} RankOfFull(empties: iset<nat>, a: nat, b: nat)
    requires a <= b && forall p: nat :: a <= p < b ==> p !in empties
    ensures Rank(empties, b) == Rank(empties, a) + b - a
  {
    if a < b {
      RankOfFull(empties, a, b - 1);
    }
  }

  lemma {:induction false} RowOfRank(empties: iset<nat>, j: nat, n: nat) returns (id: nat)
    requires j < Rank(empties, n)
    ensures id < n && id !in empties && Rank(empties, id) == j
  {
    if j < Rank(empties, n - 1) {
      id := RowOfRank(empties, j, n - 1);
    } else {
      id := n - 1;
    }
  }

  /** Every item is read at exactly one row that is not empty. */
  lemma {:induction false} EveryItemHasItsRow(empties: iset<nat>, j: nat, bound: nat)
    requires forall x: nat :: x in empties ==> x < bound
    ensures exists id: nat :: id !in empties && Rank(empties, id) == j
    ensures forall a: nat, b: nat :: a !in empties && b !in empties && Rank(empties, a) == Rank(empties, b) ==> a == b
  {
    forall a: nat, b: nat | a !in empties && b !in empties && Rank(empties, a) == Rank(empties, b)
      ensures a == b
    {
      if a < b {
        RankGrows(empties, a, b);
      } else {
        RankGrows(empties, b, a);
      }
    }
    var far := bound + j + 1;
    RankOfFull(empties, bound, far);
    var id := RowOfRank(empties, j, far);
  }

  /** What stands at a position of a bucket that starts at start. */
  ghost function Placed(empties: iset<nat>, start: nat, items: seq<Item>, pos: nat): Item {
    var r := Rank(empties, pos) - Rank(empties, start);
    if pos in empties || !(0 <= r < |items|) then EMPTY_UINT8 else items[r]
  }

  /** The rows of a bucket up to end. */
  ghost function Filled(empties: iset<nat>, start: nat, end: nat, items: seq<Item>): (rows: seq<Item>)
    requires start <= end
    ensures |rows| == end - start
    ensures forall k :: 0 <= k < |rows| ==> rows[k] == Placed(empties, start, items, start + k)
  {
    seq(end - start, k requires 0 <= k => Placed(empties, start, items, start + k))
  }

  /** The items of the first n buckets, one after another. */
  ghost function FirstItems(stored: seq<seq<Item>>, n: nat): seq<Item>
    requires n <= |stored|
  {
    if n == 0 then [] else FirstItems(stored, n - 1) + stored[n - 1]
  }

  lemma FirstItemsStep(stored: seq<seq<Item>>)
    requires |stored| > 0
    ensures FirstItems(stored, |stored|) == FirstItems(stored, |stored| - 1) + stored[|stored| - 1]
  {
  }

  lemma {:induction false} ItemOfBucket(stored: seq<seq<Item>>, i: nat, k: nat, n: nat)
    requires i < n <= |stored| && k < |stored[i]|
    ensures |FirstItems(stored, i)| + k < |FirstItems(stored, n)|
    ensures FirstItems(stored, n)[|FirstItems(stored, i)| + k] == stored[i][k]
  {
    if i < n - 1 {
      ItemOfBucket(stored, i, k, n - 1);
    }
  }

  ghost predicate LaidAt(empties: iset<nat>, stored: seq<seq<Item>>, keys: seq<nat>, ends: seq<nat>, i: nat)
    requires i < |keys| && i < |ends| && i < |stored|
  {
    && keys[i] == (if i == 0 then 0 else ends[i - 1])
    && keys[i] <= ends[i]
    && Rank(empties, keys[i]) == |FirstItems(stored, i)|
    && Rank(empties, ends[i]) == |FirstItems(stored, i)| + |stored[i]|
    && (if |stored[i]| == 0 then ends[i] == keys[i] else ends[i] > 0 && ends[i] - 1 !in empties)
  }

  /** The first n buckets follow one another; each spans its items and the empty rows before and between them. */
  ghost predicate Laid(empties: iset<nat>, stored: seq<seq<Item>>, keys: seq<nat>, ends: seq<nat>, n: nat)
    requires n <= |keys| && n <= |ends| && n <= |stored|
  {
    forall i :: 0 <= i < n ==> LaidAt(empties, stored, keys, ends, i)
  }

  lemma NoneBelow(empties: iset<nat>, stored: seq<seq<Item>>)
    ensures Rank(empties, 0) == 0 && FirstItems(stored, 0) == []
    ensures Laid(empties, stored, [], [], 0)
  {
  }

  /** The bucket found for a row that is not empty has the row's item, or the row is beyond all items. */
  lemma FoundBucketHasRow(empties: iset<nat>, stored: seq<seq<Item>>, keys: seq<nat>, ends: seq<nat>, idx: nat, id: nat)
    requires |keys| == |ends| == |stored| && Laid(empties, stored, keys, ends, |stored|)
    requires idx < |keys| && keys[idx] <= id && (idx + 1 < |keys| ==> keys[idx + 1] > id) && id !in empties
    ensures Select(empties, FirstItems(stored, |stored|), id) ==
            if id < ends[idx] then Some(Filled(empties, keys[idx], ends[idx], stored[idx])[id - keys[idx]]) else None
  {
    hide Rank, FirstItems;
    assert LaidAt(empties, stored, keys, ends, idx);
    RankGrows(empties, keys[idx], id);
    if id < ends[idx] {
      RankGrows(empties, id, ends[idx]);
      ItemOfBucket(stored, idx, Rank(empties, id) - Rank(empties, keys[idx]), |stored|);
    } else {
      assert idx + 1 < |keys| ==> LaidAt(empties, stored, keys, ends, idx + 1);
      assert FirstItems(stored, |stored|) == FirstItems(stored, idx) + stored[idx] by { FirstItemsStep(stored); }
      RankGrows(empties, ends[idx], id);
    }
  }

  lemma NoBuckets(empties: iset<nat>, stored: seq<seq<Item>>, keys: seq<nat>, ends: seq<nat>, id: nat)
    requires |keys| == |ends| == |stored| && Laid(empties, stored, keys, ends, |stored|)
    ensures |keys| > 0 ==> keys[0] == 0
    ensures |keys| == 0 && id !in empties ==> Select(empties, FirstItems(stored, |stored|), id) == None
  {
    assert |keys| > 0 ==> LaidAt(empties, stored, keys, ends, 0);
  }

  lemma SpanOfBucket(empties: iset<nat>, stored: seq<seq<Item>>, keys: seq<nat>, ends: seq<nat>, i: nat)
    requires |keys| == |ends| == |stored| && Laid(empties, stored, keys, ends, |stored|) && i < |stored|
    ensures keys[i] <= ends[i] && Rank(empties, ends[i]) - Rank(empties, keys[i]) == |stored[i]|
  {
    assert LaidAt(empties, stored, keys, ends, i);
  }

  /** One more bucket, from where the last one ended. */
  lemma LayNext(empties: iset<nat>, stored: seq<seq<Item>>, keys: seq<nat>, ends: seq<nat>, start: nat, end: nat)
    requires |keys| == |ends| < |stored| && Laid(empties, stored, keys, ends, |keys|)
    requires start == (if |keys| == 0 then 0 else ends[|keys| - 1]) && start <= end
    requires Rank(empties, start) == |FirstItems(stored, |keys|)|
    requires Rank(empties, end) == Rank(empties, start) + |stored[|keys|]|
    requires if |stored[|keys|]| == 0 then end == start else end > 0 && end - 1 !in empties
    ensures Laid(empties, stored, keys + [start], ends + [end], |keys| + 1)
    ensures Rank(empties, end) == |FirstItems(stored, |keys| + 1)|
  {
    hide Rank;
    var keys', ends' := keys + [start], ends + [end];
    forall i | 0 <= i < |keys'| ensures LaidAt(empties, stored, keys', ends', i) {
      if i < |keys| {
        hide FirstItems;
        assert LaidAt(empties, stored, keys, ends, i);
      }
    }
  }

  // ---------- The column ----------

  class Bucket {
    var data: Option<seq<Item>>
    const end: nat
    const count: nat

    constructor (end: nat, count: nat)
      ensures data == None && this.end == end && this.count == count
    {
      data, this.end, this.count := None, end, count;
    }
  }

  /** Rows up to the last run of items are out, and the items of that run come first among the rest. */
  ghost predicate PutBack(empties: iset<nat>, start: nat, items: seq<Item>, pos: nat, run: nat, out: seq<Item>,
                          rest: seq<Item>) {
    && start + run <= pos
    && out == Filled(empties, start, pos - run, items)
    && (forall p: nat :: pos - run <= p < pos ==> p !in empties)
    && var r := Rank(empties, pos) - Rank(empties, start);
       run <= r <= |items| && rest == items[r - run..]
  }

  lemma PutBackStart(empties: iset<nat>, start: nat, items: seq<Item>)
    ensures PutBack(empties, start, items, start, 0, [], items)
  {
  }

  lemma PutBackItem(empties: iset<nat>, start: nat, end: nat, items: seq<Item>, pos: nat, run: nat, out: seq<Item>,
                    rest: seq<Item>)
    requires PutBack(empties, start, items, pos, run, out, rest)
    requires pos < end && pos !in empties && Rank(empties, end) - Rank(empties, start) == |items|
    ensures PutBack(empties, start, items, pos + 1, run + 1, out, rest)
  {
    RankGrows(empties, pos + 1, end);
  }

  lemma PutBackEmpty(empties: iset<nat>, start: nat, items: seq<Item>, pos: nat, out: seq<Item>, rest: seq<Item>)
    requires PutBack(empties, start, items, pos, 0, out, rest) && pos in empties
    ensures PutBack(empties, start, items, pos + 1, 0, out + [EMPTY_UINT8], rest)
  {
  }

  lemma MoveFull(empties: iset<nat>, start: nat, items: seq<Item>, pos: nat, run: nat, out: seq<Item>, rest: seq<Item>)
    requires PutBack(empties, start, items, pos, run, out, rest)
    ensures run <= |rest| && out + rest[..run] == Filled(empties, start, pos, items)
    ensures PutBack(empties, start, items, pos, 0, out + rest[..run], rest[run..])
  {
    RankOfFull(empties, pos - run, pos);
    var all := out + rest[..run];
    forall k | 0 <= k < |all| ensures all[k] == Placed(empties, start, items, start + k) {
      if k >= |out| {
        RankOfFull(empties, pos - run, start + k);
      }
    }
  }

  lemma PutBackAll(empties: iset<nat>, start: nat, items: seq<Item>, end: nat, run: nat, out: seq<Item>,
                   rest: seq<Item>)
    requires PutBack(empties, start, items, end, run, out, rest)
    requires Rank(empties, end) - Rank(empties, start) == |items|
    ensures out + rest == Filled(empties, start, end, items)
  {
    MoveFull(empties, start, items, end, run, out, rest);
    assert rest[..run] == rest;
  }

  lemma MembersBounded(emptyset: Roaring.Bitmap, x: nat)
    requires emptyset.Has(x)
    ensures x < 0x1_0000_0000
  {
  }

  class Column {
    const emptyset: Roaring.Bitmap
    /** What loading the data of each bucket gives. */
    const stored: seq<seq<Item>>
    var buckets: seq<Bucket>
    var bucketKeys: seq<nat>
    var length: nat

    ghost function Empties(): iset<nat>
      reads emptyset
    {
      iset x: nat | emptyset.Has(x)
    }

    ghost function Ends(): (ends: seq<nat>)
      reads this
      ensures |ends| == |buckets|
    {
      seq(|buckets|, i requires 0 <= i < |buckets| reads this => buckets[i].end)
    }

    ghost predicate BucketOk(i: nat)
      reads this, emptyset, buckets
      requires i < |buckets| && |buckets| == |bucketKeys| && |buckets| <= |stored|
    {
      var b := buckets[i];
      && bucketKeys[i] <= b.end
      && b.count == |stored[i]|
      && (b.data == None || b.data == Some(Filled(Empties(), bucketKeys[i], b.end, stored[i])))
    }

    ghost predicate Valid()
      reads this, emptyset, buckets
    {
      && emptyset.Valid()
      && |buckets| == |bucketKeys| == |stored|
      && Laid(Empties(), stored, bucketKeys, Ends(), |stored|)
      && (forall i, j :: 0 <= i < j < |buckets| ==> buckets[i] != buckets[j])
      && forall i :: 0 <= i < |buckets| ==> BucketOk(i)
    }

    /** All the items, in the order of their rows. */
    ghost function Items(): seq<Item> {
      FirstItems(stored, |stored|)
    }

    constructor (counts: seq<nat>, emptyset: Roaring.Bitmap, stored: seq<seq<Item>>)
      requires emptyset.Valid()
      requires |counts| == |stored| && forall i :: 0 <= i < |counts| ==> |stored[i]| == counts[i]
      ensures Valid() && fresh(buckets)
      ensures this.emptyset == emptyset && this.stored == stored
      ensures length == |Items()|
    {
      hide Roaring.HasBelow, Roaring.Shaped, Roaring.Bitmap.Has, Rank, FirstItems, Laid, Filled;
      this.emptyset, this.stored := emptyset, stored;
      buckets, bucketKeys := [], [];
      length := 0;
      new;
      ghost var empties, ends := Empties(), Ends();
      NoneBelow(empties, stored);
      assert ends == [];
      var l := |counts|;
      var k := 0;
      var i := 0;
      while i < l
        invariant 0 <= i <= l && |buckets| == |bucketKeys| == i
        invariant fresh(buckets) && this.emptyset == emptyset && this.stored == stored && emptyset.Valid()
        invariant Empties() == empties && Ends() == ends
        invariant k == if i == 0 then 0 else ends[i - 1]
        invariant Rank(empties, k) == length == |FirstItems(stored, i)|
        invariant Laid(empties, stored, bucketKeys, ends, i)
        invariant forall a, b :: 0 <= a < b < i ==> buckets[a] != buckets[b]
        invariant forall a :: 0 <= a < i ==> buckets[a].data == None && buckets[a].count == |stored[a]|
      {
        var count := counts[i];
        length := length + count;
        var start := k;
        k := ScanRows(start, count);
        LayNext(empties, stored, bucketKeys, ends, start, k);
        var bucket := new Bucket(k, count);
        ends := ends + [k];
        buckets := buckets + [bucket];
        bucketKeys := bucketKeys + [start];
        assert Ends() == ends;
        i := i + 1;
      }
      forall a | 0 <= a < |buckets| ensures BucketOk(a) {
        SpanOfBucket(empties, stored, bucketKeys, ends, a);
      }
    }

    /** The end of a bucket: behind its last item. */
    method ScanRows(start: nat, count: nat) returns (k: nat)
      requires emptyset.Valid()
      ensures start <= k && Rank(Empties(), k) == Rank(Empties(), start) + count
      ensures if count == 0 then k == start else k > 0 && k - 1 !in Empties()
    {
      k := start;
      var j := 0;
      while j < count
        invariant 0 <= j <= count && start <= k
        invariant Rank(Empties(), k) == Rank(Empties(), start) + j
        invariant j == count ==> if count == 0 then k == start else k > 0 && k - 1 !in Empties()
        decreases count - j, 0x1_0000_0000 - k
      {
        var skip := emptyset.Contains(k);
        if skip {
          MembersBounded(emptyset, k);
          j := j - 1;
        }
        k := k + 1;
        j := j + 1;
      }
    }

    method IsEmpty(id: nat) returns (empty: bool)
      requires emptyset.Valid()
      ensures empty <==> id in Empties()
    {
      empty := emptyset.Contains(id);
    }

    method PutBackEmpties(idx: nat) returns (data: seq<Item>)
      requires Valid() && idx < |buckets|
      ensures bucketKeys[idx] <= buckets[idx].end
      ensures data == Filled(Empties(), bucketKeys[idx], buckets[idx].end, stored[idx])
    {
      hide Roaring.HasBelow, Roaring.Shaped, Roaring.Bitmap.Has, Rank, FirstItems, Filled, PutBack;
      var start, end, items := bucketKeys[idx], buckets[idx].end, stored[idx];
      SpanOfBucket(Empties(), stored, bucketKeys, Ends(), idx);
      var dataSansEmptyset, dataWithEmptyset: Option<seq<Item>> := items, None;
      var pos := start;
      var insertCount: nat := 0;
      PutBackStart(Empties(), start, items);
      while pos < end
        invariant start <= pos <= end && insertCount <= pos - start
        invariant dataWithEmptyset == None ==> insertCount == pos - start && dataSansEmptyset == items
        invariant PutBack(Empties(), start, items, pos, insertCount,
                          if dataWithEmptyset == None then [] else dataWithEmptyset.value, dataSansEmptyset)
      {
        var empty := emptyset.Contains(pos);
        if empty {
          MoveFull(Empties(), start, items, pos, insertCount,
                   if dataWithEmptyset == None then [] else dataWithEmptyset.value, dataSansEmptyset);
          if dataWithEmptyset == None {
            dataWithEmptyset := Some(dataSansEmptyset[..insertCount]);
            dataSansEmptyset := dataSansEmptyset[insertCount..];
          } else if insertCount != 0 {
            dataWithEmptyset := Some(dataWithEmptyset.value + dataSansEmptyset[..insertCount]);
            dataSansEmptyset := dataSansEmptyset[insertCount..];
          }
          insertCount := 0;
          PutBackEmpty(Empties(), start, items, pos, dataWithEmptyset.value, dataSansEmptyset);
          dataWithEmptyset := Some(dataWithEmptyset.value + [EMPTY_UINT8]);
        } else {
          PutBackItem(Empties(), start, end, items, pos, insertCount,
                      if dataWithEmptyset == None then [] else dataWithEmptyset.value, dataSansEmptyset);
          insertCount := insertCount + 1;
        }
        pos := pos + 1;
      }
      PutBackAll(Empties(), start, items, end, insertCount,
                 if dataWithEmptyset == None then [] else dataWithEmptyset.value, dataSansEmptyset);
      data := if dataWithEmptyset == None then dataSansEmptyset else dataWithEmptyset.value + dataSansEmptyset;
    }

    /** Load a bucket, unless another call has loaded it by now, and put the empty rows back. */
    method AtAsyncFetch(id: nat, idx: nat) returns (item: Option<Item>)
      requires Valid() && idx < |buckets| && bucketKeys[idx] <= id
      modifies buckets[idx]
      ensures Valid()
      ensures item == if id < buckets[idx].end
                      then Some(Filled(Empties(), bucketKeys[idx], buckets[idx].end, stored[idx])[id - bucketKeys[idx]])
                      else None
      ensures buckets[idx].data != None
      ensures old(buckets[idx].data) != None ==> buckets[idx].data == old(buckets[idx].data)
    {
      hide Roaring.HasBelow, Roaring.Shaped, Roaring.Bitmap.Has, Rank, FirstItems, Filled, Laid;
      assert BucketOk(idx);
      var bucket, start := buckets[idx], bucketKeys[idx];
      if bucket.data == None {
        var data := PutBackEmpties(idx);
        ghost var empties, ends := Empties(), Ends();
        bucket.data := Some(data);
        assert Empties() == empties && Ends() == ends;
        forall i | 0 <= i < |buckets| ensures BucketOk(i) {
          assert i != idx ==> buckets[i] != bucket && old(BucketOk(i));
        }
      }
      item := if id - start < |bucket.data.value| then Some(bucket.data.value[id - start]) else None;
    }

    /** Row id: nothing if it is empty, otherwise the item with as many items before it as there are rows before
      * it that are not empty. */
    method At(id: nat) returns (item: Option<Item>)
      requires Valid()
      modifies buckets
      ensures Valid() && item == Select(Empties(), Items(), id)
    {
      hide Roaring.HasBelow, Roaring.Shaped, Roaring.Bitmap.Has, Rank, FirstItems, Filled, Laid;
      var empty := emptyset.Contains(id);
      if empty {
        return Some(EMPTY_UINT8);
      }
      var idx := -1;
      while idx + 1 < |bucketKeys| && bucketKeys[idx + 1] <= id
        invariant -1 <= idx < |bucketKeys|
        invariant idx >= 0 ==> bucketKeys[idx] <= id
        decreases |bucketKeys| - idx
      {
        idx := idx + 1;
      }
      if idx == -1 || idx >= |bucketKeys| {
        NoBuckets(Empties(), stored, bucketKeys, Ends(), id);
        return None;
      }
      FoundBucketHasRow(Empties(), stored, bucketKeys, Ends(), idx, id);
      assert BucketOk(idx);
      var start, bucket := bucketKeys[idx], buckets[idx];
      if bucket.data == None {
        item := AtAsyncFetch(id, idx);
      } else {
        item := if id - start < |bucket.data.value| then Some(bucket.data.value[id - start]) else None;
      }
    }
  }
}
