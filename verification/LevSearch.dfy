/** Fuzzy search: a walk over the trie that carries the automaton's state along and prunes where it stops. */
module LevSearch {
  import opened Basics
  import opened Alignment
  import opened Lev1

  // ---------- The trie ----------

  /** A branch, and whether only suffixes continue behind it. */
  datatype Branch = Branch(byte: int, suffixOnly: bool, subtree: Node)

  /** A node with the bytes on its edge, or only their number where suffixes alone are kept. */
  datatype Node =
    | Prefix(data: Word, branches: seq<Branch>)
    | Suffix(dataLen: nat, branches: seq<Branch>)

  /** The index of the branch for a byte, or the number of branches. */
  function IndexOf(branches: seq<Branch>, byte: int): (i: nat)
    ensures i <= |branches|
    ensures i < |branches| ==> branches[i].byte == byte
    ensures forall k :: 0 <= k < i ==> branches[k].byte != byte
  {
    if branches == [] || branches[0].byte == byte then 0
    else
      var i := IndexOf(branches[1..], byte);
      assert forall k :: 1 <= k < |branches| ==> branches[k] == branches[1..][k - 1];
      1 + i
  }

  function PrefixKeys(branches: seq<Branch>): seq<int> {
    if branches == [] then []
    else if branches[0].suffixOnly then PrefixKeys(branches[1..])
    else [branches[0].byte] + PrefixKeys(branches[1..])
  }

  /** A place in the trie: a node, and how far along its edge. */
  datatype Place = Place(node: Node, offset: nat) {
    predicate AtBranches() {
      offset == if node.Prefix? then |node.data| else node.dataLen
    }

    predicate InBounds() {
      offset <= if node.Prefix? then |node.data| else node.dataLen
    }

    function KeysExcludeSuffixOnly(): seq<int> {
      if node.Suffix? then []
      else if AtBranches() then PrefixKeys(node.branches)
      else if offset < |node.data| then [node.data[offset]]
      else []
    }

    function Child(byte: int): Option<Place> {
      if AtBranches() then
        var i := IndexOf(node.branches, byte);
        if i < |node.branches| then Some(Place(node.branches[i].subtree, 0)) else None
      else if node.Suffix? then Some(Place(node, offset + 1))
      else if offset < |node.data| && node.data[offset] == byte then Some(Place(node, offset + 1))
      else None
    }
  }

  /** At every node the keys of the branches are distinct. */
  ghost predicate Distinct(node: Node) {
    && (forall i, j :: 0 <= i < j < |node.branches| ==> node.branches[i].byte != node.branches[j].byte)
    && forall i :: 0 <= i < |node.branches| ==> Distinct(node.branches[i].subtree)
  }

  /** Along a key, through branches that keep whole entries. */
  function Follow(root: Place, key: Word): Option<Place> {
    if key == [] then Some(root)
    else
      match Follow(root, key[..|key| - 1])
      case None => None
      case Some(place) => if key[|key| - 1] in place.KeysExcludeSuffixOnly() then place.Child(key[|key| - 1]) else None
  }

  // ---------- Where keys lead ----------

  predicate ByBranch(branch: Branch, c: int, to: Place) {
    !branch.suffixOnly && branch.byte == c && to == Place(branch.subtree, 0)
  }

  /** One byte on from a place: the next byte of its edge, or a branch that keeps whole entries. */
  ghost predicate Steps(from: Place, c: int, to: Place) {
    && from.node.Prefix?
    && if from.offset < |from.node.data| then
         from.node.data[from.offset] == c && to == Place(from.node, from.offset + 1)
       else
         exists i :: 0 <= i < |from.node.branches| && ByBranch(from.node.branches[i], c, to)
  }

  /** The key leads from one place to another, byte by byte. */
  ghost predicate Leads(from: Place, key: Word, to: Place)
    decreases |key|
  {
    if key == [] then from == to else exists next :: Steps(from, key[0], next) && Leads(next, key[1..], to)
  }

  lemma LeadsNowhere(from: Place, to: Place)
    ensures Leads(from, [], to) <==> from == to
  {
  }

  lemma LeadsOneStep(from: Place, c: int, to: Place)
    ensures Leads(from, [c], to) <==> Steps(from, c, to)
  {
    hide Steps;
    assert [c][0] == c && [c][1..] == [];
    if Steps(from, c, to) {
      assert Steps(from, [c][0], to) && Leads(to, [c][1..], to);
    }
  }

  lemma {:induction false} LeadsOn(from: Place, key: Word, c: int, to: Place)
    ensures Leads(from, key + [c], to) <==> exists last :: Leads(from, key, last) && Steps(last, c, to)
    decreases |key|
  {
    hide Steps;
    if key == [] {
      LeadsOneStep(from, c, to);
      forall last ensures Leads(from, [], last) <==> from == last {
        LeadsNowhere(from, last);
      }
      assert key + [c] == [c];
      if Leads(from, key + [c], to) {
        assert Leads(from, key, from) && Steps(from, c, to);
      }
    } else {
      assert (key + [c])[0] == key[0] && (key + [c])[1..] == key[1..] + [c];
      if Leads(from, key + [c], to) {
        var next :| Steps(from, key[0], next) && Leads(next, key[1..] + [c], to);
        LeadsOn(next, key[1..], c, to);
        var last :| Leads(next, key[1..], last) && Steps(last, c, to);
        assert Leads(from, key, last);
      }
      if last :| Leads(from, key, last) && Steps(last, c, to) {
        var next :| Steps(from, key[0], next) && Leads(next, key[1..], last);
        LeadsOn(next, key[1..], c, to);
      }
    }
  }

  lemma {:induction false} PrefixKeysAre(branches: seq<Branch>, k: int)
    ensures k in PrefixKeys(branches) <==>
            exists i :: 0 <= i < |branches| && !branches[i].suffixOnly && branches[i].byte == k
  {
    if branches != [] {
      PrefixKeysAre(branches[1..], k);
      assert forall i :: 0 <= i < |branches[1..]| ==> branches[1..][i] == branches[i + 1];
      if i :| 0 <= i < |branches| && !branches[i].suffixOnly && branches[i].byte == k {
        assert i > 0 ==> branches[1..][i - 1] == branches[i];
      }
    }
  }

  /** The keys of a place and its children are the steps from it. */
  lemma ChildrenAreSteps(place: Place, c: int, to: Place)
    requires Distinct(place.node) && place.InBounds()
    ensures c in place.KeysExcludeSuffixOnly() && place.Child(c) == Some(to) <==> Steps(place, c, to)
  {
    if place.node.Prefix? && place.AtBranches() {
      var branches := place.node.branches;
      PrefixKeysAre(branches, c);
      forall i | 0 <= i < |branches| && branches[i].byte == c ensures IndexOf(branches, c) == i {
      }
    }
  }

  // ---------- The walk ends ----------

  /** The number of places below one. */
  ghost function Size(place: Place): nat
    decreases place.node, |place.node.branches| + 1
  {
    var length := if place.node.Prefix? then |place.node.data| else place.node.dataLen;
    (if place.offset <= length then length - place.offset else 0) + 1 + SizeFrom(place.node, 0)
  }

  ghost function SizeFrom(node: Node, i: nat): nat
    requires i <= |node.branches|
    decreases node, |node.branches| - i
  {
    if i == |node.branches| then 0 else Size(Place(node.branches[i].subtree, 0)) + SizeFrom(node, i + 1)
  }

  ghost function ChildSize(place: Place, byte: int): nat {
    if place.Child(byte) == None then 0 else Size(place.Child(byte).value)
  }

  ghost function ChildSizes(place: Place, keys: seq<int>): nat {
    if keys == [] then 0 else ChildSizes(place, keys[..|keys| - 1]) + ChildSize(place, keys[|keys| - 1])
  }

  lemma {:induction false} ChildSizesConcat(place: Place, a: seq<int>, b: seq<int>)
    ensures ChildSizes(place, a + b) == ChildSizes(place, a) + ChildSizes(place, b)
  {
    hide ChildSize;
    if b == [] {
      assert a + b == a;
    } else {
      assert (a + b)[..|a + b| - 1] == a + b[..|b| - 1];
      ChildSizesConcat(place, a, b[..|b| - 1]);
    }
  }

  lemma OneChildSize(place: Place, byte: int)
    ensures ChildSizes(place, [byte]) == ChildSize(place, byte)
  {
  }

  lemma {:induction false} BranchSizes(place: Place, i: nat)
    requires place.node.Prefix? && place.AtBranches() && Distinct(place.node) && i <= |place.node.branches|
    ensures ChildSizes(place, PrefixKeys(place.node.branches[i..])) <= SizeFrom(place.node, i)
    decreases |place.node.branches| - i
  {
    hide Size;
    var branches := place.node.branches;
    if i < |branches| {
      BranchSizes(place, i + 1);
      assert branches[i..][1..] == branches[i + 1..];
      assert IndexOf(branches, branches[i].byte) == i;
      ChildSizesConcat(place, [branches[i].byte], PrefixKeys(branches[i + 1..]));
      OneChildSize(place, branches[i].byte);
    }
  }

  /** The places one step on have fewer places below them, all together. */
  lemma ChildrenSmaller(place: Place)
    requires Distinct(place.node) && place.InBounds()
    ensures ChildSizes(place, place.KeysExcludeSuffixOnly()) < Size(place)
  {
    if place.node.Prefix? && place.AtBranches() {
      assert place.node.branches[0..] == place.node.branches;
      BranchSizes(place, 0);
    } else if place.node.Prefix? {
      OneChildSize(place, place.node.data[place.offset]);
    }
  }

  lemma {:induction false} PrefixKeysFrom(branches: seq<Branch>, k: int)
    ensures k in PrefixKeys(branches) ==> exists i :: 0 <= i < |branches| && branches[i].byte == k
  {
    if branches != [] {
      PrefixKeysFrom(branches[1..], k);
      assert forall i :: 0 <= i < |branches[1..]| ==> branches[1..][i] == branches[i + 1];
    }
  }

  ghost predicate DistinctKeys(keys: seq<int>) {
    forall i, j :: 0 <= i < j < |keys| ==> keys[i] != keys[j]
  }

  lemma {:induction false} PrefixKeysDistinct(branches: seq<Branch>)
    requires forall i, j :: 0 <= i < j < |branches| ==> branches[i].byte != branches[j].byte
    ensures DistinctKeys(PrefixKeys(branches))
  {
    if branches != [] {
      PrefixKeysDistinct(branches[1..]);
      PrefixKeysFrom(branches[1..], branches[0].byte);
      assert forall i :: 0 <= i < |branches[1..]| ==> branches[1..][i] == branches[i + 1];
    }
  }

  /** Every key leads on, to a place that is as well formed. */
  lemma KeysLeadOn(place: Place)
    requires Distinct(place.node) && place.InBounds()
    ensures DistinctKeys(place.KeysExcludeSuffixOnly())
    ensures forall k :: k in place.KeysExcludeSuffixOnly() ==>
              place.Child(k).Some? && Distinct(place.Child(k).value.node) && place.Child(k).value.InBounds()
  {
    if place.node.Prefix? && place.AtBranches() {
      PrefixKeysDistinct(place.node.branches);
      forall k | k in place.KeysExcludeSuffixOnly()
        ensures place.Child(k).Some? && Distinct(place.Child(k).value.node) && place.Child(k).value.InBounds()
      {
        PrefixKeysFrom(place.node.branches, k);
      }
    }
  }

  /** Following a key ends where it leads, and goes on exactly if it leads anywhere. */
  lemma {:induction false} FollowLeads(root: Place, key: Word, to: Place)
    requires Distinct(root.node) && root.InBounds()
    ensures Follow(root, key) == Some(to) <==> Leads(root, key, to)
    ensures Follow(root, key) == Some(to) ==> Distinct(to.node) && to.InBounds()
    decreases |key|
  {
    hide Place.KeysExcludeSuffixOnly, Place.Child, Distinct, Steps, Leads;
    if key == [] {
      LeadsNowhere(root, to);
    } else {
      var before, c := key[..|key| - 1], key[|key| - 1];
      assert key == before + [c];
      LeadsOn(root, before, c, to);
      forall last ensures Leads(root, before, last) <==> Follow(root, before) == Some(last) {
        FollowLeads(root, before, last);
      }
      if Follow(root, before).Some? {
        var last := Follow(root, before).value;
        FollowLeads(root, before, last);
        ChildrenAreSteps(last, c, to);
        KeysLeadOn(last);
      }
    }
  }

  // ---------- The walk ----------

  /** A place still to be expanded, with the state of the automaton there. */
  datatype Frame = Frame(trie: Place, levState: nat)

  ghost function StackSize(stack: seq<Frame>): nat {
    if stack == [] then 0 else StackSize(stack[..|stack| - 1]) + Size(stack[|stack| - 1].trie)
  }

  /** The frame is where its key leads, in the trie and in the automaton. */
  ghost predicate IsAt(name: Word, root: Place, key: Word, frame: Frame) {
    && Follow(root, key) == Some(frame.trie)
    && Run(name, key) == At(frame.levState)
    && Distinct(frame.trie.node) && frame.trie.InBounds()
  }

  /** The key leads to a place, and the automaton has not stopped. */
  ghost predicate Live(name: Word, root: Place, key: Word) {
    Follow(root, key).Some? && Run(name, key).At?
  }

  function Extended(key: Word, b: int): Word {
    key + [b]
  }

  lemma ExtendedOnce(key: Word, b: int, other: Word, c: int)
    ensures Extended(key, b) != []
    ensures Extended(key, b) == Extended(other, c) ==> key == other && b == c
  {
    assert Extended(key, b)[..|key|] == key && Extended(other, c)[..|other|] == other;
    assert Extended(key, b)[|key|] == b && Extended(other, c)[|other|] == c;
  }

  lemma LiveParent(name: Word, root: Place, key: Word)
    requires Live(name, root, key) && key != []
    ensures key == Extended(key[..|key| - 1], key[|key| - 1]) && Live(name, root, key[..|key| - 1])
  {
    hide Step, Place.KeysExcludeSuffixOnly, Place.Child;
  }

  /** What can be reached from a place by one byte is among its keys. */
  lemma LiveByKey(name: Word, root: Place, key: Word, frame: Frame, b: int)
    requires IsAt(name, root, key, frame) && Live(name, root, Extended(key, b))
    ensures b in frame.trie.KeysExcludeSuffixOnly()
  {
  }

  /** Which keys are known and which of them have been expanded; the current one still has some bytes to go. */
  datatype Progress = Progress(known: set<Word>, done: set<Word>, current: Word, rest: seq<int>) {

    ghost predicate Awaited(parent: Word, b: int) {
      parent == current && b in rest
    }

    /** What is known is live and became known through an expanded parent; the live children of expanded places are
      * known. */
    ghost predicate Ok(name: Word, root: Place) {
      && [] in known && done <= known
      && (forall key :: key in known ==> Live(name, root, key))
      && (forall key, b :: Extended(key, b) in known ==> key in done && !Awaited(key, b))
      && (forall key, b :: key in done && Live(name, root, Extended(key, b)) && !Awaited(key, b) ==>
            Extended(key, b) in known)
    }

    /** The stack holds what is known and not expanded. */
    ghost predicate Waiting(stackKeys: seq<Word>) {
      && (forall i, j :: 0 <= i < j < |stackKeys| ==> stackKeys[i] != stackKeys[j])
      && forall key :: key in stackKeys <==> key in known && key !in done
    }

    /** The keys reported are the known ones within distance one. */
    ghost predicate Complete(name: Word, keys: seq<Word>) {
      forall key :: key in keys <==> key != [] && key in known && Osa(name, key) <= 1
    }
  }

  ghost predicate StackOk(name: Word, root: Place, stack: seq<Frame>, stackKeys: seq<Word>) {
    |stackKeys| == |stack| && forall i :: 0 <= i < |stack| ==> IsAt(name, root, stackKeys[i], stack[i])
  }

  /** Every key reported leads to the place reported with it and is within distance one. */
  ghost predicate Reported(name: Word, root: Place, keys: seq<Word>, found: seq<Place>) {
    && |keys| == |found|
    && (forall i :: 0 <= i < |keys| ==> Follow(root, keys[i]) == Some(found[i]) && Osa(name, keys[i]) <= 1)
    && (forall i, j :: 0 <= i < j < |keys| ==> keys[i] != keys[j])
  }

  /** Taking the last place off the stack to expand it. */
  lemma Pop(name: Word, root: Place, p: Progress, stackKeys: seq<Word>, frame: Frame) returns (q: Progress)
    requires p.Ok(name, root) && p.rest == [] && p.Waiting(stackKeys) && |stackKeys| > 0
    requires IsAt(name, root, stackKeys[|stackKeys| - 1], frame)
    ensures var top := stackKeys[|stackKeys| - 1];
            q == Progress(p.known, p.done + {top}, top, frame.trie.KeysExcludeSuffixOnly())
    ensures q.Ok(name, root) && q.Waiting(stackKeys[..|stackKeys| - 1])
  {
    hide Extended, Live, IsAt, Place.KeysExcludeSuffixOnly;
    var top, below := stackKeys[|stackKeys| - 1], stackKeys[..|stackKeys| - 1];
    q := Progress(p.known, p.done + {top}, top, frame.trie.KeysExcludeSuffixOnly());
    assert top in stackKeys;
    forall b | Live(name, root, Extended(top, b)) ensures q.Awaited(top, b) {
      LiveByKey(name, root, top, frame, b);
    }
    assert forall key :: key in below <==> key in stackKeys && key != top;
  }

  /** The automaton's step on a byte decides whether the child is live, and whether it is within distance one. */
  lemma ChildLive(name: Word, root: Place, key: Word, frame: Frame, b: int, child: Place, next: int)
    requires IsAt(name, root, key, frame) && b in frame.trie.KeysExcludeSuffixOnly()
    requires frame.trie.Child(b) == Some(child)
    requires Distinct(child.node) && child.InBounds() && next == Step(name, frame.levState, b)
    ensures Live(name, root, Extended(key, b)) <==> next >= 0
    ensures next >= 0 ==> IsAt(name, root, Extended(key, b), Frame(child, next))
    ensures next >= 0 ==> (Description(|name|).IsAccept(next) <==> Osa(name, Extended(key, b)) <= 1)
  {
    hide Step, Place.KeysExcludeSuffixOnly, Place.Child, Distinct, Osa;
    assert Extended(key, b)[..|key|] == key;
    AcceptsIffWithinOne(name, Extended(key, b));
  }

  /** A child is live exactly if the automaton goes on, and then has not been known before. */
  lemma ChildStep(name: Word, root: Place, p: Progress, frame: Frame, child: Place, next: int)
    requires p.Ok(name, root) && IsAt(name, root, p.current, frame) && p.rest != [] && DistinctKeys(p.rest)
    requires p.current in p.done
    requires p.rest[0] in frame.trie.KeysExcludeSuffixOnly() && frame.trie.Child(p.rest[0]) == Some(child)
    requires Distinct(child.node) && child.InBounds() && next == Step(name, frame.levState, p.rest[0])
    ensures var key := Extended(p.current, p.rest[0]);
            var q := p.(known := if next >= 0 then p.known + {key} else p.known, rest := p.rest[1..]);
            && key !in p.known && q.Ok(name, root)
            && (next >= 0 ==> IsAt(name, root, key, Frame(child, next)))
            && (next >= 0 ==> (Description(|name|).IsAccept(next) <==> Osa(name, key) <= 1))
  {
    hide Extended, Live, IsAt, Place.KeysExcludeSuffixOnly, Place.Child, Distinct;
    var b := p.rest[0];
    var key := Extended(p.current, b);
    assert p.Awaited(p.current, b);
    ChildLive(name, root, p.current, frame, b, child, next);
    var q := p.(known := if next >= 0 then p.known + {key} else p.known, rest := p.rest[1..]);
    forall other, c ensures Extended(other, c) == key ==> other == p.current && c == b {
      ExtendedOnce(other, c, p.current, b);
    }
  }

  /** With nothing left to expand, every live key is known. */
  lemma {:induction false} AllLiveKnown(name: Word, root: Place, p: Progress, key: Word)
    requires p.Ok(name, root) && p.rest == [] && p.known == p.done && Live(name, root, key)
    ensures key in p.known
  {
    hide Live, Extended;
    if key != [] {
      LiveParent(name, root, key);
      AllLiveKnown(name, root, p, key[..|key| - 1]);
    }
  }

  /** So the keys reported are all those within distance one: where the automaton stopped there are none. */
  lemma AllFound(name: Word, root: Place, p: Progress, keys: seq<Word>)
    requires p.Ok(name, root) && p.rest == [] && p.Waiting([]) && p.Complete(name, keys)
    ensures forall key :: key in keys <==> key != [] && Follow(root, key).Some? && Osa(name, key) <= 1
  {
    hide Run, Follow, Osa;
    forall key ensures key in keys <==> key != [] && Follow(root, key).Some? && Osa(name, key) <= 1 {
      if Follow(root, key).Some? && Osa(name, key) <= 1 {
        AcceptsIffWithinOne(name, key);
        AllLiveKnown(name, root, p, key);
      }
      assert key in p.known ==> Live(name, root, key);
    }
  }

  /** Everything the outer loop keeps. */
  ghost predicate Walking(name: Word, root: Place, p: Progress, stack: seq<Frame>, stackKeys: seq<Word>,
                          keys: seq<Word>, found: seq<Place>) {
    && StackOk(name, root, stack, stackKeys)
    && p.Ok(name, root) && p.Waiting(stackKeys) && p.Complete(name, keys)
    && Reported(name, root, keys, found)
  }

  /** The place being expanded, and the bytes it still has to go. */
  ghost predicate Expanding(name: Word, root: Place, p: Progress, frame: Frame) {
    && p.current in p.done && IsAt(name, root, p.current, frame)
    && DistinctKeys(p.rest) && forall b :: b in p.rest ==> b in frame.trie.KeysExcludeSuffixOnly()
  }

  lemma StartWalking(name: Word, root: Place)
    requires Distinct(root.node) && root.InBounds() && |name| > 0
    ensures Walking(name, root, Progress({[]}, {}, [], []), [Frame(root, 0)], [[]], [], [])
  {
  }

  lemma Skipped(name: Word, p: Progress, stackKeys: seq<Word>, keys: seq<Word>, rest: seq<int>)
    requires p.Waiting(stackKeys) && p.Complete(name, keys)
    ensures p.(rest := rest).Waiting(stackKeys) && p.(rest := rest).Complete(name, keys)
  {
  }

  lemma DoneWalking(name: Word, root: Place, p: Progress, stackKeys: seq<Word>, keys: seq<Word>, found: seq<Place>)
    requires Walking(name, root, p, [], stackKeys, keys, found) && p.rest == []
    ensures Reported(name, root, keys, found)
    ensures forall key :: key in keys <==> key != [] && Follow(root, key).Some? && Osa(name, key) <= 1
  {
    hide Osa, Follow, Reported, Progress.Ok;
    assert stackKeys == [];
    AllFound(name, root, p, keys);
  }

  /** A key other than the empty one leads to the place, and is within distance one. */
  ghost predicate IsNear(name: Word, root: Place, key: Word, place: Place) {
    key != [] && Leads(root, key, place) && Osa(name, key) <= 1
  }

  /** Every near key is listed once, with the place it leads to, and nothing else is. */
  ghost predicate Lists(name: Word, root: Place, keys: seq<Word>, found: seq<Place>) {
    && |keys| == |found|
    && (forall i :: 0 <= i < |keys| ==> IsNear(name, root, keys[i], found[i]))
    && (forall i, j :: 0 <= i < j < |keys| ==> keys[i] != keys[j])
    && (forall key, place :: IsNear(name, root, key, place) ==> key in keys)
  }

  lemma FoundAreNear(name: Word, root: Place, keys: seq<Word>, found: seq<Place>)
    requires Distinct(root.node) && root.InBounds() && Reported(name, root, keys, found)
    requires forall key :: key in keys <==> key != [] && Follow(root, key).Some? && Osa(name, key) <= 1
    ensures Lists(name, root, keys, found)
  {
    hide Follow, Osa, Leads, Distinct, Place.InBounds;
    forall key, place ensures Follow(root, key) == Some(place) <==> Leads(root, key, place) {
      FollowLeads(root, key, place);
    }
    assert forall i :: 0 <= i < |keys| ==> keys[i] in keys;
  }

  /** The places listed are those that some near key leads to. */
  lemma ListedIffNear(name: Word, root: Place, keys: seq<Word>, found: seq<Place>, place: Place)
    requires Distinct(root.node) && root.InBounds() && Lists(name, root, keys, found)
    ensures place in found <==> exists key :: IsNear(name, root, key, place)
  {
    hide Follow, Osa, Leads, Distinct, Place.InBounds;
    if place in found {
      var i :| 0 <= i < |found| && found[i] == place;
      assert IsNear(name, root, keys[i], place);
    }
    if key :| IsNear(name, root, key, place) {
      var i :| 0 <= i < |keys| && keys[i] == key;
      FollowLeads(root, key, place);
      FollowLeads(root, key, found[i]);
    }
  }

  lemma RootInBounds(tree: Node)
    ensures Place(tree, 0).InBounds()
  {
  }

  lemma StepIsTransition(name: Word, absState: nat, byte: int)
    ensures var d := Description(|name|);
            var position := d.GetPosition(absState);
            position <= Min(|name|, position + 3) <= |name| &&
            Step(name, absState, byte) ==
            d.Transition(absState, position, Vector(name, byte, position, Min(|name|, position + 3)))
  {
  }

  lemma StackSizeTop(stack: seq<Frame>)
    requires stack != []
    ensures StackSize(stack) == StackSize(stack[..|stack| - 1]) + Size(stack[|stack| - 1].trie)
  {
  }

  lemma PushSize(stack: seq<Frame>, frame: Frame, from: Place, byte: int)
    requires from.Child(byte) == Some(frame.trie)
    ensures StackSize(stack + [frame]) == StackSize(stack) + ChildSize(from, byte)
  {
  }

  lemma SizesStep(place: Place, ks: seq<int>, i: nat)
    requires i < |ks|
    ensures ChildSizes(place, ks[..i + 1]) == ChildSizes(place, ks[..i]) + ChildSize(place, ks[i])
  {
    assert ks[..i + 1][..i] == ks[..i];
  }

  /** A child joins the stack, and the result if it is within distance one. */
  lemma Pushed(name: Word, root: Place, p: Progress, stack: seq<Frame>, stackKeys: seq<Word>, keys: seq<Word>,
               found: seq<Place>,
               frame: Frame, key: Word)
    requires StackOk(name, root, stack, stackKeys) && p.Waiting(stackKeys) && p.Complete(name, keys)
    requires Reported(name, root, keys, found)
    requires IsAt(name, root, key, frame) && key !in p.known && key != [] && p.done <= p.known
    ensures StackOk(name, root, stack + [frame], stackKeys + [key])
    ensures forall rest :: p.(known := p.known + {key}, rest := rest).Waiting(stackKeys + [key])
    ensures var near := Osa(name, key) <= 1;
            var keys', found' := if near then keys + [key] else keys, if near then found + [frame.trie] else found;
            && Reported(name, root, keys', found')
            && forall rest :: p.(known := p.known + {key}, rest := rest).Complete(name, keys')
  {
    hide Osa, Run, Follow, Distinct, Size;
    assert forall other :: other in stackKeys + [key] <==> other in stackKeys || other == key;
  }

  lemma FrameLeadsOn(name: Word, root: Place, key: Word, frame: Frame)
    requires IsAt(name, root, key, frame)
    ensures var ks := frame.trie.KeysExcludeSuffixOnly();
            && DistinctKeys(ks)
            && ChildSizes(frame.trie, ks) < Size(frame.trie)
            && forall k :: k in ks ==>
                 frame.trie.Child(k).Some? && Distinct(frame.trie.Child(k).value.node) &&
                 frame.trie.Child(k).value.InBounds()
  {
    KeysLeadOn(frame.trie);
    ChildrenSmaller(frame.trie);
  }

  lemma PopWalking(name: Word, root: Place, p: Progress, stack: seq<Frame>, stackKeys: seq<Word>, keys: seq<Word>,
                   found: seq<Place>)
    returns (q: Progress)
    requires Walking(name, root, p, stack, stackKeys, keys, found) && p.rest == [] && |stack| > 0
    ensures |stackKeys| == |stack| && q.rest == stack[|stack| - 1].trie.KeysExcludeSuffixOnly()
    ensures Walking(name, root, q, stack[..|stack| - 1], stackKeys[..|stackKeys| - 1], keys, found)
    ensures Expanding(name, root, q, stack[|stack| - 1])
  {
    hide Progress.Ok, IsAt, Osa, Reported, Distinct;
    q := Pop(name, root, p, stackKeys, stack[|stack| - 1]);
    FrameLeadsOn(name, root, q.current, stack[|stack| - 1]);
  }

  /** What one byte of the place being expanded adds. */
  lemma StepWalking(name: Word, root: Place, p: Progress, stack: seq<Frame>, stackKeys: seq<Word>, keys: seq<Word>,
                    found: seq<Place>,
                    frame: Frame, next: int)
    returns (q: Progress, stackKeys': seq<Word>, keys': seq<Word>)
    requires Walking(name, root, p, stack, stackKeys, keys, found) && Expanding(name, root, p, frame) && p.rest != []
    requires next == Step(name, frame.levState, p.rest[0])
    ensures frame.trie.Child(p.rest[0]).Some? && q.rest == p.rest[1..]
    ensures next < 0 ==> Walking(name, root, q, stack, stackKeys', keys', found)
    ensures next >= 0 ==>
              var child := frame.trie.Child(p.rest[0]).value;
              Walking(name, root, q, stack + [Frame(child, next)], stackKeys', keys',
                      if Description(|name|).IsAccept(next) then found + [child] else found)
    ensures Expanding(name, root, q, frame)
  {
    hide IsAt, Osa, Reported, Distinct, Progress.Waiting, Progress.Complete, StackOk;
    hide Place.Child, Place.KeysExcludeSuffixOnly, Step, Description.IsAccept;
    FrameLeadsOn(name, root, p.current, frame);
    var child := frame.trie.Child(p.rest[0]).value;
    var key := Extended(p.current, p.rest[0]);
    ChildStep(name, root, p, frame, child, next);
    q := p.(known := if next >= 0 then p.known + {key} else p.known, rest := p.rest[1..]);
    stackKeys', keys' := stackKeys, keys;
    if next >= 0 {
      Pushed(name, root, p, stack, stackKeys, keys, found, Frame(child, next), key);
      stackKeys' := stackKeys + [key];
      if Osa(name, key) <= 1 {
        keys' := keys + [key];
      }
    } else {
      Skipped(name, p, stackKeys, keys, p.rest[1..]);
    }
  }

  lemma ExpandingShrinks(name: Word, root: Place, p: Progress, frame: Frame)
    requires Expanding(name, root, p, frame)
    ensures ChildSizes(frame.trie, frame.trie.KeysExcludeSuffixOnly()) < Size(frame.trie)
    ensures ChildSizes(frame.trie, []) == 0
  {
    FrameLeadsOn(name, root, p.current, frame);
  }

  /** All the places whose key is within distance one, each once; the keys themselves are not part of the result. */
  method WalkLev1(name: Word, tree: Node) returns (found: seq<Place>, ghost keys: seq<Word>)
    requires Distinct(tree) && |name| > 0
    ensures Lists(name, Place(tree, 0), keys, found)
    ensures forall place :: place in found <==> exists key :: IsNear(name, Place(tree, 0), key, place)
  {
    hide *;
    var root := Place(tree, 0);
    var levParams := Description(|name|);
    var stack := [Frame(root, 0)];
    found, keys := [], [];
    ghost var stackKeys: seq<Word>, p := [[]], Progress({[]}, {}, [], []);
    RootInBounds(tree);
    StartWalking(name, root);
    while |stack| != 0
      invariant Walking(name, root, p, stack, stackKeys, keys, found) && p.rest == []
      decreases StackSize(stack)
    {
      var frame := stack[|stack| - 1];
      StackSizeTop(stack);
      p := PopWalking(name, root, p, stack, stackKeys, keys, found);
      stack, stackKeys := stack[..|stack| - 1], stackKeys[..|stackKeys| - 1];
      ghost var below := StackSize(stack);
      var ks := frame.trie.KeysExcludeSuffixOnly();
      ExpandingShrinks(name, root, p, frame);
      var i := 0;
      while i < |ks|
        invariant 0 <= i <= |ks|
        invariant Walking(name, root, p, stack, stackKeys, keys, found) && Expanding(name, root, p, frame)
        invariant p.rest == ks[i..]
        invariant StackSize(stack) <= below + ChildSizes(frame.trie, ks[..i])
      {
        var byte := ks[i];
        var levPos := levParams.GetPosition(frame.levState);
        StepIsTransition(name, frame.levState, byte);
        var vector := GetVector(name, byte, levPos, Min(|name|, levPos + 3));
        var newLevState := levParams.Transition(frame.levState, levPos, vector);
        SizesStep(frame.trie, ks, i);
        p, stackKeys, keys := StepWalking(name, root, p, stack, stackKeys, keys, found, frame, newLevState);
        if newLevState >= 0 {
          var child := frame.trie.Child(byte);
          if child.Some? {
            PushSize(stack, Frame(child.value, newLevState), frame.trie, byte);
            stack := stack + [Frame(child.value, newLevState)];
            if levParams.IsAccept(newLevState) {
              found := found + [child.value];
            }
          }
        }
        i := i + 1;
      }
      assert ks[..i] == ks;
    }
    DoneWalking(name, root, p, stackKeys, keys, found);
    FoundAreNear(name, root, keys, found);
    forall place ensures place in found <==> exists key :: IsNear(name, root, key, place) {
      ListedIffNear(name, root, keys, found, place);
    }
  }
}
