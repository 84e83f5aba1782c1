/** The best-first walk over a trie: layers are expanded one at a time, and what they hold is
  * reported in order of key length, as soon as no later layer can hold anything shorter.
  */
module PrefixWalk {
  import opened Basics
  import opened Backlog
  import H = HashTable

  /** A trie node: the bytes on its edge, the leaves whose key ends here, and the branches that
    * may lead to more of them.  Nodes that only serve suffix search end the walk.
    */
  datatype Node =
    | Prefix(dataLength: nat, leaves: set<nat>, children: seq<Child>)
    | Suffix

  /** A branch, with the id under which its subtree can be loaded. */
  datatype Child = Child(id: H.Key, subtree: Node)

  /** Loading a branch by its id gives its subtree. */
  ghost predicate Consistent(node: Node, load: H.Key -> Node) {
    node.Prefix? ==>
      forall i :: 0 <= i < |node.children| ==>
        load(node.children[i].id) == node.children[i].subtree && Consistent(node.children[i].subtree, load)
  }

  function Height(node: Node): nat
    decreases node, if node.Prefix? then |node.children| + 1 else 0
  {
    if node.Suffix? then 1 else 1 + HeightFrom(node, 0)
  }

  /** The greatest height of a branch, from the i-th on. */
  function HeightFrom(node: Node, i: nat): nat
    requires node.Prefix? && i <= |node.children|
    decreases node, |node.children| - i
  {
    if i == |node.children| then 0
    else
      var h, rest := Height(node.children[i].subtree), HeightFrom(node, i + 1);
      if h >= rest then h else rest
  }

  lemma {:induction false} BranchIsLower(node: Node, i: nat, k: nat)
    requires node.Prefix? && i <= k < |node.children|
    ensures Height(node.children[k].subtree) <= HeightFrom(node, i)
    decreases k - i
  {
    if i < k {
      BranchIsLower(node, i + 1, k);
    }
  }

  /** The key grows by d bytes on some way from one node to another. */
  ghost predicate Reaches(from: Node, to: Node, d: nat)
    decreases from
  {
    (from == to && d == 0) ||
    (from.Prefix? && d > from.dataLength &&
     exists i :: 0 <= i < |from.children| && Reaches(from.children[i].subtree, to, d - from.dataLength - 1))
  }

  /** A node of a layer, with the length of the key before it. */
  datatype Visit = Visit(node: Node, len: nat)

  function KeyLength(visit: Visit): nat
    requires visit.node.Prefix?
  {
    visit.len + visit.node.dataLength
  }

  function ChildVisit(visit: Visit, i: nat): Visit
    requires visit.node.Prefix? && i < |visit.node.children|
  {
    Visit(visit.node.children[i].subtree, KeyLength(visit) + 1)
  }

  lemma {:induction false} ReachesChild(from: Node, to: Node, d: nat, i: nat)
    requires Reaches(from, to, d) && to.Prefix? && i < |to.children|
    ensures Reaches(from, to.children[i].subtree, d + to.dataLength + 1)
    decreases from
  {
    if from == to && d == 0 {
      assert Reaches(from.children[i].subtree, to.children[i].subtree, 0);
    } else {
      var j :| 0 <= j < |from.children| && Reaches(from.children[j].subtree, to, d - from.dataLength - 1);
      ReachesChild(from.children[j].subtree, to, d - from.dataLength - 1, i);
    }
  }

  // ---------- The next layer ----------

  /** n is a branch of a node of the layer. */
  ghost predicate IsBranch(layer: seq<Visit>, n: Visit) {
    exists p, i ::
      0 <= p < |layer| && layer[p].node.Prefix? && 0 <= i < |layer[p].node.children| && n == ChildVisit(layer[p], i)
  }

  /** Some visit has the node of n, with no longer a key. */
  ghost predicate Covers(visits: seq<Visit>, n: Visit) {
    exists v :: v in visits && v.node == n.node && v.len <= n.len
  }

  /** The node of n is to be loaded, and the length of its key is on the list. */
  ghost predicate Listed(subnodes: map<H.Key, seq<nat>>, load: H.Key -> Node, n: Visit) {
    exists id :: id in subnodes && load(id) == n.node && n.len in subnodes[id]
  }

  ghost predicate ListsBranches(subnodes: map<H.Key, seq<nat>>, load: H.Key -> Node, layer: seq<Visit>) {
    forall id :: id in subnodes ==>
      subnodes[id] != [] && forall len :: len in subnodes[id] ==> IsBranch(layer, Visit(load(id), len))
  }

  /** Every branch of the layer is in the next one or waits to be loaded. */
  ghost predicate Handled(next: seq<Visit>, subnodes: map<H.Key, seq<nat>>, load: H.Key -> Node, n: Visit) {
    Covers(next, n) || Listed(subnodes, load, n)
  }

  /** The ids loaded are distinct, and each has one visit, after those of the branches loaded before. */
  ghost predicate LoadedOnce(next: seq<Visit>, loaded: seq<H.Key>, load: H.Key -> Node) {
    && (forall i, j :: 0 <= i < j < |loaded| ==> loaded[i] != loaded[j])
    && |loaded| <= |next|
    && forall k :: 0 <= k < |loaded| ==> next[|next| - |loaded| + k].node == load(loaded[k])
  }

  lemma NothingListed(load: H.Key -> Node, layer: seq<Visit>)
    ensures ListsBranches(map[], load, layer)
  {
  }

  ghost predicate IsBranchAt(layer: seq<Visit>, p: int, i: int) {
    0 <= p < |layer| && layer[p].node.Prefix? && 0 <= i < |layer[p].node.children|
  }

  lemma AllHandled(layer: seq<Visit>, load: H.Key -> Node, next: seq<Visit>, subnodes: map<H.Key, seq<nat>>)
    requires forall q, i :: IsBranchAt(layer, q, i) ==> Handled(next, subnodes, load, ChildVisit(layer[q], i))
    ensures forall n :: IsBranch(layer, n) ==> Handled(next, subnodes, load, n)
  {
  }

  lemma AddedIsHandled(next: seq<Visit>, subnodes: map<H.Key, seq<nat>>, load: H.Key -> Node, n: Visit)
    ensures Handled(next + [n], subnodes, load, n)
    ensures forall m :: Handled(next, subnodes, load, m) ==> Handled(next + [n], subnodes, load, m)
  {
  }

  lemma ListedIsHandled(next: seq<Visit>, subnodes: map<H.Key, seq<nat>>, load: H.Key -> Node, n: Visit, id: H.Key,
                        list: seq<nat>)
    requires load(id) == n.node && list == if id in subnodes then subnodes[id] else []
    ensures var subnodes' := subnodes[id := list + [n.len]];
            Handled(next, subnodes', load, n) && forall m :: Handled(next, subnodes, load, m) ==>
              Handled(next, subnodes', load, m)
  {
  }

  method AddBranches(layer: seq<Visit>, p: nat, load: H.Key -> Node, before: seq<Visit>, subnodes: H.Map<seq<nat>>)
    returns (next: seq<Visit>)
    requires p < |layer| && layer[p].node.Prefix? && Consistent(layer[p].node, load)
    requires subnodes.Valid() && ListsBranches(subnodes.Contents, load, layer)
    requires forall n :: n in before ==> IsBranch(layer, n)
    modifies subnodes, subnodes.keys
    ensures subnodes.Valid() && (subnodes.keys == old(subnodes.keys) || fresh(subnodes.keys))
    ensures ListsBranches(subnodes.Contents, load, layer)
    ensures forall n :: n in next ==> IsBranch(layer, n)
    ensures forall n :: Handled(before, old(subnodes.Contents), load, n) ==> Handled(next, subnodes.Contents, load, n)
    ensures forall i :: IsBranchAt(layer, p, i) ==> Handled(next, subnodes.Contents, load, ChildVisit(layer[p], i))
  {
    hide H.Map.Valid, Covers, Listed;
    next := before;
    var children := layer[p].node.children;
    var len := KeyLength(layer[p]) + 1;
    var i := 0;
    while i < |children|
      invariant 0 <= i <= |children|
      invariant subnodes.Valid() && (subnodes.keys == old(subnodes.keys) || fresh(subnodes.keys))
      invariant ListsBranches(subnodes.Contents, load, layer)
      invariant forall n :: n in next ==> IsBranch(layer, n)
      invariant forall n :: Handled(before, old(subnodes.Contents), load, n) ==>
                  Handled(next, subnodes.Contents, load, n)
      invariant forall k :: 0 <= k < i ==> Handled(next, subnodes.Contents, load, ChildVisit(layer[p], k))
    {
      ghost var n := ChildVisit(layer[p], i);
      var loaded: bool := *;
      if loaded {
        AddedIsHandled(next, subnodes.Contents, load, n);
        next := next + [Visit(children[i].subtree, len)];
      } else {
        var listed := subnodes.Get(children[i].id);
        var list := if listed.Some? then listed.value else [];
        ListedIsHandled(next, subnodes.Contents, load, n, children[i].id, list);
        subnodes.Set(children[i].id, list + [len]);
      }
      i := i + 1;
    }
  }

  method ShortestOf(lens: seq<nat>) returns (len: nat)
    requires lens != []
    ensures len in lens && forall x :: x in lens ==> len <= x
  {
    len := lens[0];
    var i := 1;
    while i < |lens|
      invariant 1 <= i <= |lens|
      invariant len in lens && forall k :: 0 <= k < i ==> len <= lens[k]
    {
      if lens[i] < len {
        len := lens[i];
      }
      i := i + 1;
    }
  }

  lemma LoadedStep(next: seq<Visit>, loaded: seq<H.Key>, load: H.Key -> Node, id: H.Key, len: nat)
    requires LoadedOnce(next, loaded, load) && forall k :: 0 <= k < |loaded| ==> loaded[k] != id
    ensures LoadedOnce(next + [Visit(load(id), len)], loaded + [id], load)
  {
    var next', loaded' := next + [Visit(load(id), len)], loaded + [id];
    forall k | 0 <= k < |loaded'| ensures next'[|next'| - |loaded'| + k].node == load(loaded'[k]) {
      assert k < |loaded| ==> next'[|next'| - |loaded'| + k] == next[|next| - |loaded| + k];
    }
  }

  method AddLoaded(layer: seq<Visit>, load: H.Key -> Node, before: seq<Visit>, entries: seq<(H.Key, seq<nat>)>,
                   ghost subnodes: map<H.Key, seq<nat>>)
    returns (next: seq<Visit>, ghost loaded: seq<H.Key>)
    requires ListsBranches(subnodes, load, layer)
    requires forall i, j :: 0 <= i < j < |entries| ==> entries[i].0 != entries[j].0
    requires forall id, list :: (id, list) in entries <==> id in subnodes && subnodes[id] == list
    requires forall n :: n in before ==> IsBranch(layer, n)
    ensures forall n :: n in next ==> IsBranch(layer, n)
    ensures LoadedOnce(next, loaded, load)
    ensures forall n :: Handled(before, subnodes, load, n) ==> Covers(next, n)
  {
    next, loaded := before, [];
    var e := 0;
    while e < |entries|
      invariant 0 <= e <= |entries|
      invariant |loaded| == e && forall k :: 0 <= k < e ==> loaded[k] == entries[k].0
      invariant LoadedOnce(next, loaded, load)
      invariant forall n :: n in before ==> n in next
      invariant forall n :: n in next ==> IsBranch(layer, n)
      invariant forall k, len :: 0 <= k < e && len in entries[k].1 ==> Covers(next, Visit(load(entries[k].0), len))
    {
      var id, list := entries[e].0, entries[e].1;
      assert (id, list) in entries;
      var len := ShortestOf(list);
      ghost var was := next;
      LoadedStep(next, loaded, load, id, len);
      next, loaded := next + [Visit(load(id), len)], loaded + [id];
      assert Visit(load(id), len) in next;
      forall n | Covers(was, n) ensures Covers(next, n) {
        var v :| v in was && v.node == n.node && v.len <= n.len;
        assert v in next;
      }
      e := e + 1;
    }
    forall n | Handled(before, subnodes, load, n) ensures Covers(next, n) {
      if Covers(before, n) {
        var v :| v in before && v.node == n.node && v.len <= n.len;
        assert v in next;
      } else {
        var id :| id in subnodes && load(id) == n.node && n.len in subnodes[id];
        assert (id, subnodes[id]) in entries;
        var k :| 0 <= k < |entries| && entries[k] == (id, subnodes[id]);
        assert Covers(next, Visit(load(entries[k].0), n.len));
      }
    }
  }

  /** Branches already loaded join the next layer directly; the others are grouped by id, so that
    * each is loaded once, with the shortest of its keys.  Which are loaded already depends on
    * earlier walks, so nothing is said about it.
    */
  method NextLayer(layer: seq<Visit>, load: H.Key -> Node) returns (next: seq<Visit>, ghost loaded: seq<H.Key>)
    requires forall v :: v in layer ==> Consistent(v.node, load)
    ensures forall n :: n in next ==> IsBranch(layer, n)
    ensures LoadedOnce(next, loaded, load)
    ensures forall n :: IsBranch(layer, n) ==> Covers(next, n)
  {
    hide H.Map.Valid, Handled, ListsBranches, IsBranch, Covers, ChildVisit, Consistent;
    next, loaded := [], [];
    var subnodes := new H.Map<seq<nat>>();
    NothingListed(load, layer);
    var p := 0;
    while p < |layer|
      invariant 0 <= p <= |layer|
      invariant subnodes.Valid() && fresh(subnodes) && fresh(subnodes.keys)
      invariant forall n :: n in next ==> IsBranch(layer, n)
      invariant ListsBranches(subnodes.Contents, load, layer)
      invariant forall q, i :: 0 <= q < p && IsBranchAt(layer, q, i) ==>
                  Handled(next, subnodes.Contents, load, ChildVisit(layer[q], i))
    {
      if layer[p].node.Prefix? {
        next := AddBranches(layer, p, load, next, subnodes);
      }
      p := p + 1;
    }
    var entries := subnodes.Entries();
    AllHandled(layer, load, next, subnodes.Contents);
    next, loaded := AddLoaded(layer, load, next, entries, subnodes.Contents);
  }

  // ---------- Filling and draining the backlog ----------

  function EntryOf(visit: Visit): Entry
    requires visit.node.Prefix?
  {
    Entry(visit.node.leaves, KeyLength(visit))
  }

  /** The shortest key of a layer, if it has a key at all. */
  ghost predicate IsMinLength(layer: seq<Visit>, minLength: Option<nat>) {
    && (forall v :: v in layer && v.node.Prefix? ==> minLength.Some? && minLength.value <= KeyLength(v))
    && (minLength.Some? ==> exists v :: v in layer && v.node.Prefix? && KeyLength(v) == minLength.value)
  }

  ghost predicate FromLayer(layer: seq<Visit>, e: Entry) {
    exists v :: v in layer && v.node.Prefix? && e == EntryOf(v)
  }

  lemma MinLengthStep(layer: seq<Visit>, was: Option<nat>, visit: Visit, now: Option<nat>)
    requires IsMinLength(layer, was) && visit.node.Prefix?
    requires now == if was.None? || KeyLength(visit) < was.value then Some(KeyLength(visit)) else was
    ensures IsMinLength(layer + [visit], now)
  {
  }

  lemma FromLayerStep(layer: seq<Visit>, visit: Visit)
    ensures forall e :: FromLayer(layer + [visit], e) <==>
              FromLayer(layer, e) || (visit.node.Prefix? && e == EntryOf(visit))
    ensures visit.node.Suffix? ==> forall m :: IsMinLength(layer, m) ==> IsMinLength(layer + [visit], m)
  {
  }

  method PushLayer(layer: seq<Visit>, backlog: Queue) returns (minLength: Option<nat>)
    requires Heap(backlog.items)
    modifies backlog
    ensures Heap(backlog.items) && IsMinLength(layer, minLength)
    ensures forall e :: e in backlog.items <==> e in old(backlog.items) || FromLayer(layer, e)
  {
    hide Heap;
    minLength := None;
    var p := 0;
    while p < |layer|
      invariant 0 <= p <= |layer|
      invariant Heap(backlog.items) && IsMinLength(layer[..p], minLength)
      invariant forall e :: e in backlog.items <==> e in old(backlog.items) || FromLayer(layer[..p], e)
    {
      var visit := layer[p];
      assert layer[..p + 1] == layer[..p] + [visit];
      if visit.node.Prefix? {
        var length := KeyLength(visit);
        ghost var was := minLength;
        if minLength.None? || length < minLength.value {
          minLength := Some(length);
        }
        MinLengthStep(layer[..p], was, visit, minLength);
        label L:
        backlog.Push(Entry(visit.node.leaves, length));
        forall e ensures e in backlog.items <==> e in old@L(backlog.items) || e == EntryOf(visit) {
          assert e in backlog.items <==> e in multiset(backlog.items);
          assert e in old@L(backlog.items) <==> e in multiset(old@L(backlog.items));
        }
      }
      FromLayerStep(layer[..p], visit);
      p := p + 1;
    }
    assert layer[..p] == layer;
  }

  /** Reported lengths never decrease. */
  ghost predicate Ascending(out: seq<Entry>) {
    forall i, j :: 0 <= i < j < |out| ==> out[i].length <= out[j].length
  }

  ghost predicate NoneShorter(out: seq<Entry>, later: seq<Entry>) {
    forall e, x :: e in out && x in later ==> e.length <= x.length
  }

  /** Report from the backlog what is no longer than the shortest key of the layer just read. */
  method Drain(backlog: Queue, minLength: Option<nat>, before: seq<Entry>) returns (out: seq<Entry>)
    requires Heap(backlog.items) && Ascending(before) && NoneShorter(before, backlog.items)
    modifies backlog
    ensures Heap(backlog.items) && Ascending(out) && NoneShorter(out, backlog.items)
    ensures minLength.None? ==> backlog.items == []
    ensures minLength.Some? ==> forall e :: e in backlog.items ==> e.length > minLength.value
    ensures minLength.Some? ==> forall e :: e in out ==> e in before || e.length <= minLength.value
    ensures forall e :: e in out ==> e in before || (e in old(backlog.items) && e.leaves != {})
    ensures forall e :: e in before ==> e in out
    ensures forall e :: e in backlog.items ==> e in old(backlog.items)
    ensures forall e :: e in old(backlog.items) && e.leaves != {} ==> e in out || e in backlog.items
  {
    hide Heap;
    out := before;
    while |backlog.items| != 0
      invariant Heap(backlog.items) && Ascending(out) && NoneShorter(out, backlog.items)
      invariant minLength.Some? ==> forall e :: e in out ==> e in before || e.length <= minLength.value
      invariant forall e :: e in out ==> e in before || (e in old(backlog.items) && e.leaves != {})
      invariant forall e :: e in before ==> e in out
      invariant forall e :: e in backlog.items ==> e in old(backlog.items)
      invariant forall e :: e in old(backlog.items) && e.leaves != {} ==> e in out || e in backlog.items
      decreases |backlog.items|
    {
      var backlogEntry := backlog.items[0];
      if minLength.Some? && backlogEntry.length > minLength.value {
        forall k | 0 <= k < |backlog.items| ensures backlog.items[0].length <= backlog.items[k].length {
          RootIsShortest(backlog.items, k);
        }
        break;
      }
      ghost var was, items := out, backlog.items;
      if backlogEntry.leaves != {} {
        out := out + [backlogEntry];
      }
      var root := backlog.Pop();
      forall e ensures e in items <==> e in backlog.items || e == root {
        assert e in items <==> e in multiset(items);
        assert e in backlog.items <==> e in multiset(backlog.items);
      }
      forall e | e in backlog.items ensures root.length <= e.length {
        assert e in multiset(backlog.items);
      }
    }
  }

  // ---------- The walk ----------

  /** Somewhere in the layer the way to the node goes on, with no longer a key. */
  ghost predicate Ahead(layer: seq<Visit>, to: Node, d: nat) {
    exists v, rest: nat :: v in layer && Reaches(v.node, to, rest) && v.len + rest <= d
  }

  ghost predicate Holds(entries: seq<Entry>, node: Node, d: nat)
    requires node.Prefix?
  {
    exists e :: e in entries && e.leaves == node.leaves && e.length <= d + node.dataLength
  }

  /** The entry belongs to a node the walk can reach. */
  ghost predicate Belongs(root: Node, e: Entry) {
    exists node, d: nat :: Reaches(root, node, d) && node.Prefix? && e == Entry(node.leaves, d + node.dataLength)
  }

  lemma AheadStep(layer: seq<Visit>, next: seq<Visit>, to: Node, d: nat)
    requires Ahead(layer, to, d) && to.Prefix?
    requires forall n :: IsBranch(layer, n) ==> Covers(next, n)
    ensures || Ahead(next, to, d)
            || exists e :: FromLayer(layer, e) && e.leaves == to.leaves && e.length <= d + to.dataLength
  {
    var v, rest: nat :| v in layer && Reaches(v.node, to, rest) && v.len + rest <= d;
    if v.node == to && rest == 0 {
      assert FromLayer(layer, EntryOf(v));
    } else {
      var i :| 0 <= i < |v.node.children| && Reaches(v.node.children[i].subtree, to, rest - v.node.dataLength - 1);
      var p :| 0 <= p < |layer| && layer[p] == v;
      var n := ChildVisit(v, i);
      assert IsBranch(layer, n) && Covers(next, n);
      var w :| w in next && w.node == n.node && w.len <= n.len;
      assert w.len + (rest - v.node.dataLength - 1) <= d;
    }
  }

  ghost predicate InLayer(root: Node, load: H.Key -> Node, layer: seq<Visit>) {
    forall v :: v in layer ==> Reaches(root, v.node, v.len) && Consistent(v.node, load)
  }

  lemma NextInLayer(root: Node, load: H.Key -> Node, layer: seq<Visit>, next: seq<Visit>)
    requires InLayer(root, load, layer) && forall n :: n in next ==> IsBranch(layer, n)
    ensures InLayer(root, load, next)
  {
    forall n | n in next ensures Reaches(root, n.node, n.len) && Consistent(n.node, load) {
      var p, i :| 0 <= p < |layer| && layer[p].node.Prefix? && 0 <= i < |layer[p].node.children| &&
                  n == ChildVisit(layer[p], i);
      assert layer[p] in layer;
      ReachesChild(root, layer[p].node, layer[p].len, i);
    }
  }

  lemma LayerBelongs(root: Node, load: H.Key -> Node, layer: seq<Visit>, e: Entry)
    requires InLayer(root, load, layer) && FromLayer(layer, e)
    ensures Belongs(root, e)
  {
  }

  function HighestOf(layer: seq<Visit>): nat {
    if layer == [] then 0
    else
      var h, rest := Height(layer[0].node), HighestOf(layer[1..]);
      if h >= rest then h else rest
  }

  lemma {:induction false} Highest(layer: seq<Visit>)
    ensures forall v :: v in layer ==> Height(v.node) <= HighestOf(layer)
    ensures layer != [] ==> exists v :: v in layer && Height(v.node) == HighestOf(layer)
  {
    hide Height;
    if layer != [] {
      Highest(layer[1..]);
      assert layer == [layer[0]] + layer[1..];
      if Height(layer[0].node) >= HighestOf(layer[1..]) {
        assert layer[0] in layer;
      } else {
        var v :| v in layer[1..] && Height(v.node) == HighestOf(layer[1..]);
        assert v in layer;
      }
    }
  }

  lemma LayersGetLower(layer: seq<Visit>, next: seq<Visit>)
    requires forall n :: n in next ==> IsBranch(layer, n)
    ensures layer != [] ==> HighestOf(next) < HighestOf(layer)
    ensures layer == [] ==> next == []
  {
    assert next != [] ==> next[0] in next;
    if layer != [] {
      Highest(layer);
      Highest(next);
      assert Height(layer[0].node) > 0 && layer[0] in layer;
      if next != [] {
        var n :| n in next && Height(n.node) == HighestOf(next);
        var p, i :| 0 <= p < |layer| && layer[p].node.Prefix? && 0 <= i < |layer[p].node.children| &&
                    n == ChildVisit(layer[p], i);
        assert layer[p] in layer;
        BranchIsLower(layer[p].node, 0, i);
      }
    }
  }

  /** What has been reported is no longer than any key still to come. */
  lemma NextIsLonger(layer: seq<Visit>, next: seq<Visit>, minLength: Option<nat>, before: seq<Entry>, out: seq<Entry>)
    requires IsMinLength(layer, minLength) && forall n :: n in next ==> IsBranch(layer, n)
    requires forall e, v :: e in before && v in layer ==> e.length <= v.len
    requires minLength.Some? ==> forall e :: e in out ==> e in before || e.length <= minLength.value
    ensures forall e, n :: e in out && n in next ==> e.length <= n.len
  {
  }

  ghost predicate AllFound(root: Node, layer: seq<Visit>, backlog: seq<Entry>, out: seq<Entry>) {
    forall node, d: nat :: Reaches(root, node, d) && node.Prefix? && node.leaves != {} ==>
      Ahead(layer, node, d) || Holds(backlog, node, d) || Holds(out, node, d)
  }

  lemma FoundStep(root: Node, layer: seq<Visit>, next: seq<Visit>, backlog: seq<Entry>, pushed: seq<Entry>,
                  backlog': seq<Entry>, out: seq<Entry>, out': seq<Entry>)
    requires AllFound(root, layer, backlog, out)
    requires forall n :: IsBranch(layer, n) ==> Covers(next, n)
    requires forall e :: e in pushed <==> e in backlog || FromLayer(layer, e)
    requires forall e :: e in pushed && e.leaves != {} ==> e in out' || e in backlog'
    requires forall e :: e in out ==> e in out'
    ensures AllFound(root, next, backlog', out')
  {
    hide Reaches;
    forall node, d: nat | Reaches(root, node, d) && node.Prefix? && node.leaves != {}
      ensures Ahead(next, node, d) || Holds(backlog', node, d) || Holds(out', node, d)
    {
      if Ahead(layer, node, d) {
        AheadStep(layer, next, node, d);
      }
    }
  }

  lemma EmptyHeap()
    ensures Heap([])
  {
  }

  lemma WalkStart(tree: Node, load: H.Key -> Node)
    requires Consistent(tree, load)
    ensures InLayer(tree, load, [Visit(tree, 0)])
    ensures AllFound(tree, [Visit(tree, 0)], [], [])
  {
  }

  lemma WalkEnd(tree: Node, out: seq<Entry>)
    requires AllFound(tree, [], [], out)
    ensures forall node, d: nat :: Reaches(tree, node, d) && node.Prefix? && node.leaves != {} ==> Holds(out, node, d)
  {
  }

  lemma NoKeyNoBacklog(layer: seq<Visit>, minLength: Option<nat>)
    requires IsMinLength(layer, minLength)
    ensures layer == [] ==> minLength.None?
  {
  }

  /** Everything reachable is reported, with nothing else, shortest keys first. */
  method PrefixMatches(tree: Node, load: H.Key -> Node) returns (out: seq<Entry>)
    requires Consistent(tree, load)
    ensures Ascending(out)
    ensures forall e :: e in out ==> e.leaves != {} && Belongs(tree, e)
    ensures forall node, d: nat :: Reaches(tree, node, d) && node.Prefix? && node.leaves != {} ==> Holds(out, node, d)
  {
    hide Heap, Reaches, Consistent, Belongs, IsMinLength, AllFound, HighestOf;
    var layer := [Visit(tree, 0)];
    var backlog := new Queue();
    out := [];
    assert Heap([]) by {
      EmptyHeap();
    }
    WalkStart(tree, load);
    while |layer| != 0 || |backlog.items| != 0
      invariant fresh(backlog) && Heap(backlog.items) && Ascending(out) && NoneShorter(out, backlog.items)
      invariant InLayer(tree, load, layer)
      invariant forall e, v :: e in out && v in layer ==> e.length <= v.len
      invariant forall e :: e in backlog.items ==> Belongs(tree, e)
      invariant forall e :: e in out ==> e.leaves != {} && Belongs(tree, e)
      invariant AllFound(tree, layer, backlog.items, out)
      decreases HighestOf(layer), |backlog.items|
    {
      var currentLayer := layer;
      ghost var before, items := out, backlog.items;
      var minLength := PushLayer(currentLayer, backlog);
      forall e | e in backlog.items ensures Belongs(tree, e) {
        if FromLayer(currentLayer, e) {
          LayerBelongs(tree, load, currentLayer, e);
        }
      }
      ghost var pushed := backlog.items;
      out := Drain(backlog, minLength, out);
      ghost var loaded;
      layer, loaded := NextLayer(currentLayer, load);
      NextInLayer(tree, load, currentLayer, layer);
      NextIsLonger(currentLayer, layer, minLength, before, out);
      LayersGetLower(currentLayer, layer);
      FoundStep(tree, currentLayer, layer, items, pushed, backlog.items, before, out);
      NoKeyNoBacklog(currentLayer, minLength);
    }
    WalkEnd(tree, out);
  }
}
