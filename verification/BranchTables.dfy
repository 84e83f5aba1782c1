/** Tables from bytes to branches: a sorted array of keys, or one bit per character of an alphabet. */
module BranchTables {
  import opened ByteBits
  import opened Containers

  /** The characters of an alphabet, in ascending order; a table has one bit for each. */
  type Alphabet = seq<nat>

  const RAWBYTE_ALPHABET: Alphabet := seq(256, i => i)

  datatype Table<Id> =
    | Sorted(keys: seq<nat>, nodeids: seq<Id>)
    | AlphaBitmap(chars: Alphabet, bitmap: seq<bv8>, nodeids: seq<Id>)

  function CharAt(chars: Alphabet, place: nat): nat {
    if place < |chars| then chars[place] else 0
  }

  /** The characters at the given places. */
  function Spelled(chars: Alphabet, places: seq<nat>): (r: seq<nat>)
    ensures |r| == |places|
    ensures forall i :: 0 <= i < |r| ==> r[i] == CharAt(chars, places[i])
  {
    seq(|places|, i requires 0 <= i < |places| => CharAt(chars, places[i]))
  }

  /** The characters whose bits are set. */
  function BitKeys(chars: Alphabet, bitmap: seq<bv8>): seq<nat> {
    Spelled(chars, BitValues(bitmap, |chars|))
  }

  function Keys<Id>(t: Table<Id>): seq<nat> {
    match t
    case Sorted(keys, _) => keys
    case AlphaBitmap(chars, bitmap, _) => BitKeys(chars, bitmap)
  }

  /** Keys ascend, and each has its branch. */
  ghost predicate Valid<Id>(t: Table<Id>) {
    && |t.nodeids| == |Keys(t)|
    && match t
       case Sorted(keys, _) => Ascending(keys)
       case AlphaBitmap(chars, bitmap, _) => Ascending(chars) && |chars| <= 8 * |bitmap|
  }

  lemma PlacesAscend(chars: Alphabet, bitmap: seq<bv8>)
    requires Ascending(chars)
    ensures Ascending(BitKeys(chars, bitmap))
  {
    hide BitAt, BitValues;
    BitMembers(bitmap, |chars|);
    var places, keys := BitValues(bitmap, |chars|), BitKeys(chars, bitmap);
    forall i, j | 0 <= i < j < |keys| ensures keys[i] < keys[j] {
      assert places[i] in places && places[j] in places;
    }
  }

  /** A character is a key exactly if its bit is set. */
  lemma KeyByPlace(chars: Alphabet, bitmap: seq<bv8>, k: nat)
    requires Ascending(chars) && k < |chars|
    ensures chars[k] in BitKeys(chars, bitmap) <==> BitAt(bitmap, k)
  {
    hide BitAt, BitValues;
    BitMembers(bitmap, |chars|);
    var places, keys := BitValues(bitmap, |chars|), BitKeys(chars, bitmap);
    forall i | 0 <= i < |keys| ensures keys[i] == chars[k] <==> places[i] == k {
      assert places[i] in places;
    }
  }

  lemma KeysAreCharacters(chars: Alphabet, bitmap: seq<bv8>, c: nat)
    ensures c in BitKeys(chars, bitmap) ==> c in chars
  {
    hide BitAt, BitValues;
    BitMembers(bitmap, |chars|);
    var places := BitValues(bitmap, |chars|);
    forall i | 0 <= i < |places| ensures BitKeys(chars, bitmap)[i] in chars {
      assert places[i] in places;
    }
  }

  lemma KeysAscend<Id>(t: Table<Id>)
    requires Valid(t)
    ensures Ascending(Keys(t))
  {
    if t.AlphaBitmap? {
      PlacesAscend(t.chars, t.bitmap);
    }
  }

  /** The key stands in the list, with that id at the same place. */
  ghost predicate Maps<Id(!new)>(keys: seq<nat>, nodeids: seq<Id>, key: nat, id: Id) {
    exists i :: 0 <= i < |keys| && i < |nodeids| && keys[i] == key && nodeids[i] == id
  }

  // ---------- Looking up ----------

  /** The place of a character in an alphabet, or -1. */
  method Index(chars: Alphabet, c: nat) returns (r: int)
    ensures -1 <= r < |chars|
    ensures r >= 0 ==> chars[r] == c
    ensures r == -1 <==> c !in chars
  {
    var i := 0;
    while i < |chars|
      invariant 0 <= i <= |chars| && c !in chars[..i]
    {
      if chars[i] == c {
        return i;
      }
      i := i + 1;
    }
    return -1;
  }

  /** The lowest j bits. */
  function LowMask(j: nat): bv8 {
    match j
    case 0 => !(0xff << 0)
    case 1 => !(0xff << 1)
    case 2 => !(0xff << 2)
    case 3 => !(0xff << 3)
    case 4 => !(0xff << 4)
    case 5 => !(0xff << 5)
    case 6 => !(0xff << 6)
    case _ => !(0xff << 7)
  }

  lemma LowMaskBit(j: nat, k: nat)
    requires j < 8 && k < 8
    ensures Bit(LowMask(j), k) <==> k < j
  {
  }

  /** A byte that has just the bits of another below j. */
  lemma {:induction false} CountCut(cut: bv8, b: bv8, j: nat, n: nat)
    requires j < 8 && n <= 8 && forall k: nat :: k < 8 ==> (Bit(cut, k) <==> k < j && Bit(b, k))
    ensures CountBelow(cut, n) == CountBelow(b, if n <= j then n else j)
  {
    hide Bit;
    if n > 0 {
      CountCut(cut, b, j, n - 1);
    }
  }

  lemma CountLow(b: bv8, j: nat)
    requires j < 8
    ensures CountBelow(LowMask(j) & b, 8) == CountBelow(b, j)
  {
    hide Bit, LowMask, CountBelow;
    var cut := LowMask(j) & b;
    forall k: nat | k < 8 ensures Bit(cut, k) <==> k < j && Bit(b, k) {
      BitsOfAnd(LowMask(j), b, k);
      LowMaskBit(j, k);
    }
    CountCut(cut, b, j, 8);
  }

  /** The set bits below a place, counted byte by byte. */
  lemma RankIsCount(bitmap: seq<bv8>, k: nat)
    requires k / 8 < |bitmap|
    ensures BitCount(LowMask(k % 8) & bitmap[k / 8]) + BitTotal(bitmap, k / 8) == |BitValues(bitmap, k)|
  {
    hide BitCount, LowMask, Bit, BitValues, BitTotal, CountBelow;
    var b, j := bitmap[k / 8], k % 8;
    assert BitCount(LowMask(j) & b) == CountBelow(b, j) by {
      BitCountIsCount(LowMask(j) & b);
      CountLow(b, j);
    }
    BitTotalIsLength(bitmap, k / 8);
    BitValuesInByte(bitmap, k / 8, j);
    assert 8 * (k / 8) + j == k;
  }

  /** A place whose bit is set comes after as many values as there are set bits below it. */
  lemma {:induction false} ValueAtRank(bitmap: seq<bv8>, k: nat, n: nat)
    requires k < n && BitAt(bitmap, k)
    ensures |BitValues(bitmap, k)| < |BitValues(bitmap, n)| && BitValues(bitmap, n)[|BitValues(bitmap, k)|] == k
  {
    if k < n - 1 {
      ValueAtRank(bitmap, k, n - 1);
    }
  }

  method SearchSorted(keys: seq<nat>, k: nat) returns (r: int)
    requires Ascending(keys)
    ensures -1 <= r < |keys|
    ensures r >= 0 ==> keys[r] == k
    ensures r == -1 <==> k !in keys
  {
    var left, right := 0, |keys| - 1;
    while left <= right
      invariant 0 <= left <= |keys| && -1 <= right < |keys|
      invariant forall i :: 0 <= i < left ==> keys[i] < k
      invariant forall i :: right < i < |keys| ==> keys[i] > k
      decreases right - left + 1
    {
      var mid := (left + right) / 2;
      if keys[mid] < k {
        left := mid + 1;
      } else if keys[mid] > k {
        right := mid - 1;
      } else {
        return mid;
      }
    }
    return -1;
  }

  lemma BitAtByte(bitmap: seq<bv8>, k: nat)
    requires k / 8 < |bitmap|
    ensures BitAt(bitmap, k) <==> Bit(bitmap[k / 8], k % 8)
  {
  }

  method SearchBitmap(chars: Alphabet, bitmap: seq<bv8>, c: nat) returns (r: int)
    requires Ascending(chars) && |chars| <= 8 * |bitmap|
    ensures var keys := BitKeys(chars, bitmap);
            && -1 <= r < |keys| && (r >= 0 ==> keys[r] == c) && (r == -1 <==> c !in keys)
  {
    hide BitAt, BitValues, BitCount, LowMask, Bit;
    var k := Index(chars, c);
    KeysAreCharacters(chars, bitmap, c);
    if k == -1 {
      return -1;
    }
    KeyByPlace(chars, bitmap, k);
    if Bit(bitmap[k / 8], k % 8) {
      assert BitAt(bitmap, k) by { BitAtByte(bitmap, k); }
      var result := BitCount(LowMask(k % 8) & bitmap[k / 8]);
      var ix := 0;
      while ix < k / 8
        invariant 0 <= ix <= k / 8
        invariant result == BitCount(LowMask(k % 8) & bitmap[k / 8]) + BitTotal(bitmap, ix)
      {
        result := result + BitCount(bitmap[ix]);
        ix := ix + 1;
      }
      RankIsCount(bitmap, k);
      ValueAtRank(bitmap, k, |chars|);
      return result;
    }
    assert !BitAt(bitmap, k) by { BitAtByte(bitmap, k); }
    return -1;
  }

  /** The place of a key in the table, found by halving or by counting bits; -1 exactly for absent keys. */
  method GetIndex<Id>(t: Table<Id>, c: nat) returns (r: int)
    requires Valid(t)
    ensures -1 <= r < |t.nodeids| && |t.nodeids| == |Keys(t)|
    ensures r >= 0 ==> Keys(t)[r] == c
    ensures r == -1 <==> c !in Keys(t)
  {
    match t {
      case Sorted(keys, _) =>
        r := SearchSorted(keys, c);
      case AlphaBitmap(chars, bitmap, _) =>
        r := SearchBitmap(chars, bitmap, c);
    }
  }

  lemma InBitmap(chars: Alphabet, bitmap: seq<bv8>, ix: nat)
    requires ix < |chars| <= 8 * |bitmap|
    ensures ix / 8 < |bitmap|
  {
  }

  lemma BitValuesStep(bitmap: seq<bv8>, n: nat)
    ensures BitValues(bitmap, 0) == []
    ensures BitValues(bitmap, n + 1) == if BitAt(bitmap, n) then BitValues(bitmap, n) + [n] else BitValues(bitmap, n)
  {
  }

  method GetKeys<Id>(t: Table<Id>) returns (keys: seq<nat>)
    requires Valid(t)
    ensures keys == Keys(t)
  {
    hide BitAt, Bit, BitValues;
    match t {
      case Sorted(ks, _) =>
        return ks;
      case AlphaBitmap(chars, bitmap, _) =>
        keys := [];
        var ix := 0;
        BitValuesStep(bitmap, 0);
        while ix < |chars|
          invariant 0 <= ix <= |chars|
          invariant keys == Spelled(chars, BitValues(bitmap, ix))
        {
          InBitmap(chars, bitmap, ix);
          BitAtByte(bitmap, ix);
          BitValuesStep(bitmap, ix);
          if Bit(bitmap[ix / 8], ix % 8) {
            keys := keys + [chars[ix]];
          }
          ix := ix + 1;
        }
    }
  }

  /** Two tables with the same keys have each key at the same place, whatever their kind. */
  lemma SamePlace<Id>(t: Table<Id>, u: Table<Id>, i: nat, j: nat)
    requires Valid(t) && Valid(u) && Keys(t) == Keys(u)
    requires i < |Keys(t)| && j < |Keys(u)| && Keys(t)[i] == Keys(u)[j]
    ensures i == j
  {
    KeysAscend(t);
  }

  // ---------- Merging the branches of a node ----------

  /** The first i and j keys of both lists have been merged, each with its id. */
  ghost predicate Merged<Id(!new)>(a: Table<Id>, b: Table<Id>, i: nat, j: nat, keys: seq<nat>, ids: seq<Id>)
    requires Valid(a) && Valid(b)
  {
    && i <= |Keys(a)| && j <= |Keys(b)|
    && |keys| == |ids| == i + j
    && Ascending(keys)
    && (forall m :: 0 <= m < |keys| ==>
          (i < |Keys(a)| ==> keys[m] < Keys(a)[i]) && (j < |Keys(b)| ==> keys[m] < Keys(b)[j]))
    && (forall m :: 0 <= m < i ==> Maps(keys, ids, Keys(a)[m], a.nodeids[m]))
    && (forall m :: 0 <= m < j ==> Maps(keys, ids, Keys(b)[m], b.nodeids[m]))
    && (forall m :: 0 <= m < |keys| ==> keys[m] in Keys(a) || keys[m] in Keys(b))
  }

  lemma MapsAppend<Id(!new)>(keys: seq<nat>, ids: seq<Id>, key: nat, id: Id)
    requires |keys| == |ids|
    ensures Maps(keys + [key], ids + [id], key, id)
    ensures forall k, x :: Maps(keys, ids, k, x) ==> Maps(keys + [key], ids + [id], k, x)
  {
    assert (keys + [key])[|keys|] == key && (ids + [id])[|keys|] == id;
    forall k, x | Maps(keys, ids, k, x) ensures Maps(keys + [key], ids + [id], k, x) {
      var i :| 0 <= i < |keys| && i < |ids| && keys[i] == k && ids[i] == x;
      assert (keys + [key])[i] == k && (ids + [id])[i] == x;
    }
  }

  ghost predicate Disjoint(a: seq<nat>, b: seq<nat>) {
    forall i, j :: 0 <= i < |a| && 0 <= j < |b| ==> a[i] != b[j]
  }

  /** The smaller of the next two keys goes to the end. */
  lemma MergeFirst<Id(!new)>(a: Table<Id>, b: Table<Id>, i: nat, j: nat, keys: seq<nat>, ids: seq<Id>)
    requires Valid(a) && Valid(b) && Disjoint(Keys(a), Keys(b)) && Merged(a, b, i, j, keys, ids)
    requires i < |Keys(a)| && (j < |Keys(b)| ==> Keys(a)[i] < Keys(b)[j])
    ensures Merged(a, b, i + 1, j, keys + [Keys(a)[i]], ids + [a.nodeids[i]])
  {
    hide Keys, Maps;
    KeysAscend(a);
    MapsAppend(keys, ids, Keys(a)[i], a.nodeids[i]);
  }

  lemma MergeSecond<Id(!new)>(a: Table<Id>, b: Table<Id>, i: nat, j: nat, keys: seq<nat>, ids: seq<Id>)
    requires Valid(a) && Valid(b) && Disjoint(Keys(a), Keys(b)) && Merged(a, b, i, j, keys, ids)
    requires j < |Keys(b)| && (i < |Keys(a)| ==> Keys(a)[i] >= Keys(b)[j])
    ensures Merged(a, b, i, j + 1, keys + [Keys(b)[j]], ids + [b.nodeids[j]])
  {
    hide Keys, Maps;
    KeysAscend(b);
    MapsAppend(keys, ids, Keys(b)[j], b.nodeids[j]);
  }

  /** The table has the branches of both, and no others. */
  ghost predicate Unites<Id(!new)>(t: Table<Id>, a: Table<Id>, b: Table<Id>)
    requires Valid(a) && Valid(b)
  {
    && Valid(t)
    && (forall m :: 0 <= m < |Keys(a)| ==> Maps(Keys(t), t.nodeids, Keys(a)[m], a.nodeids[m]))
    && (forall m :: 0 <= m < |Keys(b)| ==> Maps(Keys(t), t.nodeids, Keys(b)[m], b.nodeids[m]))
    && (forall m :: 0 <= m < |Keys(t)| ==> Keys(t)[m] in Keys(a) || Keys(t)[m] in Keys(b))
  }

  lemma MergeStart<Id(!new)>(a: Table<Id>, b: Table<Id>)
    requires Valid(a) && Valid(b)
    ensures Merged(a, b, 0, 0, [], [])
  {
  }

  lemma NodePerKey<Id>(a: Table<Id>)
    requires Valid(a)
    ensures |a.nodeids| == |Keys(a)|
  {
  }

  lemma MergeEnd<Id(!new)>(a: Table<Id>, b: Table<Id>, keys: seq<nat>, ids: seq<Id>, t: Table<Id>)
    requires Valid(a) && Valid(b) && Merged(a, b, |Keys(a)|, |Keys(b)|, keys, ids)
    requires t == Sorted(keys, ids) || (t.AlphaBitmap? && Valid(t) && Keys(t) == keys && t.nodeids == ids)
    ensures Unites(t, a, b)
  {
  }

  method MergeSorted<Id(!new)>(a: Table<Id>, b: Table<Id>) returns (t: Table<Id>)
    requires Valid(a) && Valid(b) && Disjoint(Keys(a), Keys(b))
    ensures Unites(t, a, b)
  {
    hide Maps, Ascending;
    var mhpKeys := GetKeys(a);
    var soKeys := GetKeys(b);
    var mergedKeys: seq<nat>, hashes: seq<Id> := [], [];
    var mhpI, soI := 0, 0;
    MergeStart(a, b);
    hide Keys, Merged, Valid;
    while mhpI < |mhpKeys| || soI < |soKeys|
      invariant 0 <= mhpI <= |mhpKeys| && 0 <= soI <= |soKeys|
      invariant Merged(a, b, mhpI, soI, mergedKeys, hashes)
      decreases |mhpKeys| - mhpI + |soKeys| - soI
    {
      NodePerKey(a);
      NodePerKey(b);
      if soI == |soKeys| || (mhpI < |mhpKeys| && mhpKeys[mhpI] < soKeys[soI]) {
        MergeFirst(a, b, mhpI, soI, mergedKeys, hashes);
        hashes := hashes + [a.nodeids[mhpI]];
        mergedKeys := mergedKeys + [mhpKeys[mhpI]];
        mhpI := mhpI + 1;
      } else {
        MergeSecond(a, b, mhpI, soI, mergedKeys, hashes);
        hashes := hashes + [b.nodeids[soI]];
        mergedKeys := mergedKeys + [soKeys[soI]];
        soI := soI + 1;
      }
    }
    t := Sorted(mergedKeys, hashes);
    MergeEnd(a, b, mergedKeys, hashes, t);
  }

  /** Setting one bit of a bitmap. */
  lemma SetBit(bitmap: seq<bv8>, ix: nat)
    requires ix / 8 < |bitmap|
    ensures var bitmap' := bitmap[ix / 8 := bitmap[ix / 8] | Mask(ix % 8)];
            forall v: nat :: BitAt(bitmap', v) <==> BitAt(bitmap, v) || v == ix
  {
  }

  lemma HasMember(s: seq<nat>)
    ensures s != [] ==> exists v :: v in s
  {
    assert s != [] ==> s[0] in s;
  }

  lemma WithoutSame(s: seq<nat>, s': seq<nat>, t: seq<nat>, t': seq<nat>, m: nat)
    requires forall v :: v in s <==> v in t
    requires forall v :: v in s' <==> v in s && v != m
    requires forall v :: v in t' <==> v in t && v != m
    ensures forall v :: v in s' <==> v in t'
  {
  }

  lemma LastIsGreatest(s: seq<nat>)
    requires Ascending(s) && s != []
    ensures s == s[..|s| - 1] + [s[|s| - 1]] && Ascending(s[..|s| - 1])
    ensures forall v :: v in s ==> v <= s[|s| - 1]
    ensures forall v :: v in s[..|s| - 1] <==> v in s && v != s[|s| - 1]
  {
  }

  /** Ascending lists with the same members are the same. */
  lemma {:induction false} AscendingUnique(s: seq<nat>, t: seq<nat>)
    requires Ascending(s) && Ascending(t) && forall v :: v in s <==> v in t
    ensures s == t
  {
    HasMember(s);
    HasMember(t);
    if s != [] && t != [] {
      var s', t' := s[..|s| - 1], t[..|t| - 1];
      var m, n := s[|s| - 1], t[|t| - 1];
      LastIsGreatest(s);
      LastIsGreatest(t);
      hide Ascending;
      assert m in s && n in t;
      assert m == n;
      WithoutSame(s, s', t, t', m);
      AscendingUnique(s', t');
    }
  }

  lemma NoBits(bits: seq<bv8>)
    requires forall i :: 0 <= i < |bits| ==> bits[i] == 0
    ensures forall v: nat :: !BitAt(bits, v)
  {
  }

  lemma SpelledRaw(places: seq<nat>)
    requires forall p :: p in places ==> p < 256
    ensures Spelled(RAWBYTE_ALPHABET, places) == places
  {
    forall i | 0 <= i < |places| ensures CharAt(RAWBYTE_ALPHABET, places[i]) == places[i] {
      assert places[i] in places;
    }
  }

  lemma BitmapHasKeys<Id(!new)>(a: Table<Id>, b: Table<Id>, keys: seq<nat>, ids: seq<Id>, bits: seq<bv8>)
    requires Valid(a) && Valid(b) && Merged(a, b, |Keys(a)|, |Keys(b)|, keys, ids)
    requires forall k :: k in Keys(a) || k in Keys(b) ==> k < 256
    requires |bits| == 32 && forall v: nat :: BitAt(bits, v) <==> v in keys
    ensures Keys(AlphaBitmap(RAWBYTE_ALPHABET, bits, ids)) == keys && Valid(AlphaBitmap(RAWBYTE_ALPHABET, bits, ids))
  {
    hide BitAt, Maps, BitValues;
    BitMembers(bits, 256);
    AscendingUnique(BitValues(bits, 256), keys);
    SpelledRaw(keys);
  }

  method MergeBitmap<Id(!new)>(a: Table<Id>, b: Table<Id>) returns (t: Table<Id>)
    requires Valid(a) && Valid(b) && Disjoint(Keys(a), Keys(b))
    requires forall k :: k in Keys(a) || k in Keys(b) ==> k < 256
    ensures Unites(t, a, b)
  {
    hide Maps, Ascending, Bit, BitAt, BitValues, Mask;
    var mhpKeys := GetKeys(a);
    var soKeys := GetKeys(b);
    var bits: seq<bv8> := seq(32, _ => 0);
    var hashes: seq<Id> := [];
    ghost var mergedKeys: seq<nat> := [];
    var mhpI, soI := 0, 0;
    MergeStart(a, b);
    NoBits(bits);
    hide Keys, Merged, Valid;
    while mhpI < |mhpKeys| || soI < |soKeys|
      invariant 0 <= mhpI <= |mhpKeys| && 0 <= soI <= |soKeys| && |bits| == 32
      invariant Merged(a, b, mhpI, soI, mergedKeys, hashes)
      invariant forall v: nat :: BitAt(bits, v) <==> v in mergedKeys
      decreases |mhpKeys| - mhpI + |soKeys| - soI
    {
      NodePerKey(a);
      NodePerKey(b);
      if soI == |soKeys| || (mhpI < |mhpKeys| && mhpKeys[mhpI] < soKeys[soI]) {
        MergeFirst(a, b, mhpI, soI, mergedKeys, hashes);
        hashes := hashes + [a.nodeids[mhpI]];
        var ix := mhpKeys[mhpI];
        assert ix in mhpKeys || ix in soKeys;
        SetBit(bits, ix);
        bits := bits[ix / 8 := bits[ix / 8] | Mask(ix % 8)];
        mergedKeys := mergedKeys + [ix];
        mhpI := mhpI + 1;
      } else {
        MergeSecond(a, b, mhpI, soI, mergedKeys, hashes);
        hashes := hashes + [b.nodeids[soI]];
        var ix := soKeys[soI];
        assert ix in mhpKeys || ix in soKeys;
        SetBit(bits, ix);
        bits := bits[ix / 8 := bits[ix / 8] | Mask(ix % 8)];
        mergedKeys := mergedKeys + [ix];
        soI := soI + 1;
      }
    }
    t := AlphaBitmap(RAWBYTE_ALPHABET, bits, hashes);
    BitmapHasKeys(a, b, mergedKeys, hashes, bits);
    MergeEnd(a, b, mergedKeys, hashes, t);
  }

  lemma SelfMaps<Id(!new)>(a: Table<Id>)
    requires Valid(a)
    ensures forall m :: 0 <= m < |Keys(a)| ==> Maps(Keys(a), a.nodeids, Keys(a)[m], a.nodeids[m])
  {
  }

  /** All branches of a node: those that may lead to whole entries, and those for suffixes only. */
  method MergeBranches<Id(!new)>(a: Table<Id>, b: Table<Id>) returns (t: Table<Id>)
    requires Valid(a) && Valid(b) && Disjoint(Keys(a), Keys(b))
    requires forall k :: k in Keys(a) || k in Keys(b) ==> k < 256
    ensures Unites(t, a, b)
  {
    if |b.nodeids| == 0 {
      SelfMaps(a);
      return a;
    }
    if |a.nodeids| == 0 {
      SelfMaps(b);
      return b;
    }
    if |a.nodeids| + |b.nodeids| > 32 {
      t := MergeBitmap(a, b);
    } else {
      t := MergeSorted(a, b);
    }
  }
}
