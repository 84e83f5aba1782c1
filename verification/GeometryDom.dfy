/** Whether two captured element trees are the same target. */
module GeometryDom {
  import opened Basics
  import opened GeometryIds

  // ---------- Descriptors ----------

  datatype RawNode = RawNode(parentIndex: Option<int>, tag: Option<string>, id: Option<string>,
                             className: Option<string>,
                             childElementCount: Option<int>)

  /** A descriptor as captured; nodes that are no objects are None. */
  datatype Dom = Dom(subtree: Option<seq<Option<RawNode>>>, subtreeElementCount: Option<int>, subtreeTruncated: bool)

  datatype Node = Node(parentIndex: Option<int>, tag: Option<string>, id: string, classTokens: set<string>,
                       childElementCount: Option<int>)

  datatype Structure = Structure(subtreeElementCount: Option<int>, subtreeTruncated: bool, nodes: seq<Option<Node>>)

  // ---------- Class names ----------

  /** How many characters at the start of s are blank, or are not. */
  function RunLength(isSpace: char -> bool, blank: bool, s: string): (n: nat)
    ensures n <= |s|
    ensures forall k :: 0 <= k < n ==> isSpace(s[k]) == blank
    ensures n < |s| ==> isSpace(s[n]) != blank
  {
    if s == "" || isSpace(s[0]) != blank then 0
    else
      var n := RunLength(isSpace, blank, s[1..]);
      assert forall k :: 1 <= k < |s| ==> s[k] == s[1..][k - 1];
      1 + n
  }

  /** The longest runs of characters that are not blank. */
  function Words(isSpace: char -> bool, s: string): seq<string>
    decreases |s|
  {
    var rest := s[RunLength(isSpace, true, s)..];
    var n := RunLength(isSpace, false, rest);
    if n == 0 then [] else [rest[..n]] + Words(isSpace, rest[n..])
  }

  predicate IsToken(isSpace: char -> bool, t: string) {
    t != "" && forall k :: 0 <= k < |t| ==> !isSpace(t[k])
  }

  predicate IsBlank(isSpace: char -> bool, t: string) {
    t != "" && forall k :: 0 <= k < |t| ==> isSpace(t[k])
  }

  /** Tokens, each with what stands between it and the next. */
  function Spread(tokens: seq<string>, gaps: seq<string>): string
    requires |gaps| == |tokens|
  {
    if tokens == [] then "" else tokens[0] + gaps[0] + Spread(tokens[1..], gaps[1..])
  }

  predicate MaybeBlank(isSpace: char -> bool, t: string) {
    t == "" || IsBlank(isSpace, t)
  }

  /** Any blanks between two tokens, and any or none after the last. */
  predicate AreGaps(isSpace: char -> bool, gaps: seq<string>) {
    forall i :: 0 <= i < |gaps| ==> MaybeBlank(isSpace, gaps[i]) && (i < |gaps| - 1 ==> gaps[i] != "")
  }

  /** The name is written with these tokens, with blanks of any kind and length around them. */
  ghost predicate Writes(isSpace: char -> bool, name: string, tokens: seq<string>) {
    && (forall t :: t in tokens ==> IsToken(isSpace, t))
    && exists lead, gaps ::
         |gaps| == |tokens| && MaybeBlank(isSpace, lead) && AreGaps(isSpace, gaps) &&
         name == lead + Spread(tokens, gaps)
  }

  lemma RunStops(isSpace: char -> bool, blank: bool, s: string, n: nat)
    requires n <= |s| && forall k :: 0 <= k < n ==> isSpace(s[k]) == blank
    requires n < |s| ==> isSpace(s[n]) != blank
    ensures RunLength(isSpace, blank, s) == n
  {
  }

  /** Blanks, then a token, then nothing or a blank. */
  lemma FirstWord(isSpace: char -> bool, lead: string, token: string, more: string)
    requires lead == "" || IsBlank(isSpace, lead)
    requires IsToken(isSpace, token) && (more == "" || isSpace(more[0]))
    ensures Words(isSpace, lead + token + more) == [token] + Words(isSpace, more)
  {
    hide RunLength;
    var s := lead + token + more;
    assert s[|lead|] == token[0];
    RunStops(isSpace, true, s, |lead|);
    var rest := token + more;
    assert s[|lead|..] == rest;
    RunStops(isSpace, false, rest, |token|);
    assert rest[..|token|] == token && rest[|token|..] == more;
  }

  lemma NoWord(isSpace: char -> bool, lead: string)
    requires lead == "" || IsBlank(isSpace, lead)
    ensures Words(isSpace, lead) == []
  {
  }

  lemma {:induction false} WordsOfSpread(isSpace: char -> bool, tokens: seq<string>, gaps: seq<string>, lead: string)
    requires |gaps| == |tokens| && MaybeBlank(isSpace, lead) && AreGaps(isSpace, gaps)
    requires forall t :: t in tokens ==> IsToken(isSpace, t)
    ensures Words(isSpace, lead + Spread(tokens, gaps)) == tokens
  {
    hide Words;
    if tokens == [] {
      assert lead + "" == lead;
      NoWord(isSpace, lead);
    } else {
      var more := gaps[0] + Spread(tokens[1..], gaps[1..]);
      assert lead + Spread(tokens, gaps) == lead + tokens[0] + more;
      assert |tokens| == 1 ==> more == gaps[0];
      FirstWord(isSpace, lead, tokens[0], more);
      WordsOfSpread(isSpace, tokens[1..], gaps[1..], gaps[0]);
    }
  }

  /** The blanks at the start, the first token if there is one, and the rest. */
  lemma FirstSplit(isSpace: char -> bool, s: string) returns (lead: string, token: string, more: string)
    ensures s == lead + token + more && MaybeBlank(isSpace, lead)
    ensures s != "" && isSpace(s[0]) ==> lead != ""
    ensures token == "" ==> more == "" && Words(isSpace, s) == []
    ensures token != "" ==> IsToken(isSpace, token) && (more != "" ==> isSpace(more[0])) && |more| < |s|
    ensures token != "" ==> Words(isSpace, s) == [token] + Words(isSpace, more)
  {
    var before := RunLength(isSpace, true, s);
    var rest := s[before..];
    var n := RunLength(isSpace, false, rest);
    lead, token, more := s[..before], rest[..n], rest[n..];
    assert rest != "" ==> rest[0] == s[before];
    assert more != "" ==> more[0] == rest[n];
  }

  lemma SpreadStep(token: string, tokens: seq<string>, gap: string, gaps: seq<string>)
    requires |gaps| == |tokens|
    ensures Spread([token] + tokens, [gap] + gaps) == token + (gap + Spread(tokens, gaps))
  {
    assert ([token] + tokens)[1..] == tokens && ([gap] + gaps)[1..] == gaps;
  }

  lemma NoGapNoMore(isSpace: char -> bool, more: string, after: string, others: seq<string>)
    requires |others| == |Words(isSpace, more)| && (more != "" ==> after != "")
    ensures others != [] ==> after != ""
  {
  }

  lemma {:induction false} SpreadOfWords(isSpace: char -> bool, s: string) returns (lead: string, gaps: seq<string>)
    ensures forall t :: t in Words(isSpace, s) ==> IsToken(isSpace, t)
    ensures |gaps| == |Words(isSpace, s)| && MaybeBlank(isSpace, lead) && AreGaps(isSpace, gaps)
    ensures s == lead + Spread(Words(isSpace, s), gaps)
    ensures s != "" && isSpace(s[0]) ==> lead != ""
    decreases |s|
  {
    hide Words, MaybeBlank, IsToken;
    var token, more;
    lead, token, more := FirstSplit(isSpace, s);
    gaps := [];
    if token != "" {
      var after, others := SpreadOfWords(isSpace, more);
      gaps := [after] + others;
      NoGapNoMore(isSpace, more, after, others);
      SpreadStep(token, Words(isSpace, more), after, others);
    }
  }

  /** Splitting gives those tokens, in order, with which the name is written. */
  lemma WordsAreWritten(isSpace: char -> bool, name: string, tokens: seq<string>)
    ensures Words(isSpace, name) == tokens <==> Writes(isSpace, name, tokens)
  {
    hide Words, IsToken, MaybeBlank, AreGaps;
    if Writes(isSpace, name, tokens) {
      var lead, gaps :| |gaps| == |tokens| && MaybeBlank(isSpace, lead) && AreGaps(isSpace, gaps) &&
                        name == lead + Spread(tokens, gaps);
      WordsOfSpread(isSpace, tokens, gaps, lead);
    }
    var lead, gaps := SpreadOfWords(isSpace, name);
  }

  function ClassTokens(isSpace: char -> bool, className: Option<string>): set<string> {
    if className == None then {} else set t | t in Words(isSpace, className.value)
  }

  // ---------- Canonical form ----------

  function CanonicalNode(isSpace: char -> bool, node: Option<RawNode>): Option<Node> {
    if node == None then None
    else
      var n := node.value;
      Some(Node(n.parentIndex, n.tag, if n.id == None then "" else n.id.value, ClassTokens(isSpace, n.className),
                n.childElementCount))
  }

  function CanonicalNodes(isSpace: char -> bool, nodes: seq<Option<RawNode>>): (r: seq<Option<Node>>)
    ensures |r| == |nodes|
    ensures forall i :: 0 <= i < |r| ==> r[i] == CanonicalNode(isSpace, nodes[i])
  {
    if nodes == [] then [] else [CanonicalNode(isSpace, nodes[0])] + CanonicalNodes(isSpace, nodes[1..])
  }

  /** Nothing unless a subtree was captured. */
  function CanonicalGeometryDomStructure(isSpace: char -> bool, dom: Option<Dom>): (r: Option<Structure>)
    ensures r.Some? <==> dom.Some? && dom.value.subtree.Some?
  {
    if dom == None || dom.value.subtree == None then None
    else Some(Structure(dom.value.subtreeElementCount, dom.value.subtreeTruncated,
                        CanonicalNodes(isSpace, dom.value.subtree.value)))
  }

  /** The tokens with which the class of a node is written; no class has none. */
  ghost predicate ClassWrites(isSpace: char -> bool, className: Option<string>, tokens: seq<string>) {
    if className == None then tokens == [] else Writes(isSpace, className.value, tokens)
  }

  /** Written with the same tokens, in any order, any number of times, and with any blanks around them. */
  ghost predicate SameTokens(isSpace: char -> bool, a: Option<string>, b: Option<string>) {
    exists tokens, others ::
      ClassWrites(isSpace, a, tokens) && ClassWrites(isSpace, b, others) && forall t :: t in tokens <==> t in others
  }

  lemma SameTokensSameSet(isSpace: char -> bool, a: Option<string>, b: Option<string>)
    requires SameTokens(isSpace, a, b)
    ensures ClassTokens(isSpace, a) == ClassTokens(isSpace, b)
  {
    hide Words, Writes;
    var tokens, others :|
      ClassWrites(isSpace, a, tokens) && ClassWrites(isSpace, b, others) && forall t :: t in tokens <==> t in others;
    if a != None {
      WordsAreWritten(isSpace, a.value, tokens);
    }
    if b != None {
      WordsAreWritten(isSpace, b.value, others);
    }
    assert forall t :: t in ClassTokens(isSpace, a) <==> t in tokens;
    assert forall t :: t in ClassTokens(isSpace, b) <==> t in others;
  }

  /** The same node but for how its class is written. */
  ghost predicate Rewritten(isSpace: char -> bool, a: Option<RawNode>, b: Option<RawNode>) {
    if a == None || b == None then a == b
    else
      && a.value == b.value.(className := a.value.className)
      && SameTokens(isSpace, a.value.className, b.value.className)
  }

  /** The same tree but for how the classes are written. */
  ghost predicate RewrittenDom(isSpace: char -> bool, a: Option<Dom>, b: Option<Dom>) {
    if a == None || b == None || a.value.subtree == None || b.value.subtree == None then a == b
    else
      var p, q := a.value.subtree.value, b.value.subtree.value;
      && a.value == b.value.(subtree := a.value.subtree)
      && |p| == |q| && forall i :: 0 <= i < |p| ==> Rewritten(isSpace, p[i], q[i])
  }

  /** Reordering, repeating and spacing class tokens differently leaves the canonical form as it is. */
  lemma ClassOrderIrrelevant(isSpace: char -> bool, a: Option<Dom>, b: Option<Dom>)
    requires RewrittenDom(isSpace, a, b)
    ensures CanonicalGeometryDomStructure(isSpace, a) == CanonicalGeometryDomStructure(isSpace, b)
  {
    hide ClassTokens, SameTokens;
    if a != None && a.value.subtree != None && b != None && b.value.subtree != None {
      var p, q := a.value.subtree.value, b.value.subtree.value;
      forall i | 0 <= i < |p| ensures CanonicalNode(isSpace, p[i]) == CanonicalNode(isSpace, q[i]) {
        assert Rewritten(isSpace, p[i], q[i]);
        if p[i] != None && q[i] != None {
          SameTokensSameSet(isSpace, p[i].value.className, q[i].value.className);
        }
      }
      assert CanonicalNodes(isSpace, p) == CanonicalNodes(isSpace, q);
    }
  }

  // ---------- The comparison ----------

  function Ids(nodes: seq<Option<Node>>): (ids: seq<string>)
    ensures |ids| == |nodes|
    ensures forall i :: 0 <= i < |ids| ==> ids[i] == if nodes[i] == None then "" else nodes[i].value.id
  {
    if nodes == [] then [] else [if nodes[0] == None then "" else nodes[0].value.id] + Ids(nodes[1..])
  }

  function WithoutId(node: Option<Node>): Option<Node> {
    if node == None then None else Some(node.value.(id := ""))
  }

  /** The nodes with their ids removed. */
  function WithoutIds(nodes: seq<Option<Node>>): (r: seq<Option<Node>>)
    ensures |r| == |nodes|
    ensures forall i :: 0 <= i < |r| ==> r[i] == WithoutId(nodes[i])
  {
    if nodes == [] then [] else [WithoutId(nodes[0])] + WithoutIds(nodes[1..])
  }

  function GeometryDomTopology(s: Structure): Structure {
    s.(nodes := WithoutIds(s.nodes))
  }

  datatype Classification = Comparable | InsufficientTargetStructure | DifferentTargetStructure

  datatype Reason = SubtreeDescriptorUnavailable | SubtreeStructureMismatch | SubtreeDescriptorTruncated

  datatype Verdict = Verdict(available: bool, comparable: bool, classification: Classification, reasons: seq<Reason>,
                             topologyEqual: bool, idComparison: Option<IdComparison>)

  /** Everything but the ids is equal, and the ids differ only by generated counters. */
  ghost predicate SameTarget(rules: Rules, a: Structure, b: Structure) {
    && GeometryDomTopology(a) == GeometryDomTopology(b)
    && AllExcused(rules, Ids(a.nodes), Ids(b.nodes))
  }

  /** The reason given, if any. */
  ghost function Expected(rules: Rules, a: Option<Structure>, b: Option<Structure>): seq<Reason> {
    if a == None || b == None then [SubtreeDescriptorUnavailable]
    else if !SameTarget(rules, a.value, b.value) then [SubtreeStructureMismatch]
    else if a.value.subtreeTruncated || b.value.subtreeTruncated then [SubtreeDescriptorTruncated]
    else []
  }

  /** What the comparison says of two structures. */
  ghost predicate Decided(rules: Rules, a: Option<Structure>, b: Option<Structure>, verdict: Verdict) {
    && (verdict.available <==> a != None && b != None)
    && (verdict.topologyEqual <==> verdict.available && GeometryDomTopology(a.value) == GeometryDomTopology(b.value))
    && verdict.reasons == Expected(rules, a, b)
    && (verdict.comparable <==> verdict.reasons == [])
    && (verdict.classification == Comparable <==> verdict.comparable)
    && (verdict.classification == DifferentTargetStructure <==>
          && a != None && b != None && !a.value.subtreeTruncated && !b.value.subtreeTruncated
          && !SameTarget(rules, a.value, b.value))
    && (verdict.idComparison.Some? <==> verdict.topologyEqual)
    && (verdict.idComparison.Some? ==> Compared(rules, Ids(a.value.nodes), Ids(b.value.nodes),
                                                verdict.idComparison.value))
  }

  method CompareGeometryDomStructures(rules: Rules, isSpace: char -> bool, telemacoDom: Option<Dom>,
                                      chromiumDom: Option<Dom>)
    returns (verdict: Verdict)
    ensures Decided(rules, CanonicalGeometryDomStructure(isSpace, telemacoDom),
                    CanonicalGeometryDomStructure(isSpace, chromiumDom), verdict)
  {
    var telemaco := CanonicalGeometryDomStructure(isSpace, telemacoDom);
    var chromium := CanonicalGeometryDomStructure(isSpace, chromiumDom);
    var available := telemaco != None && chromium != None;
    var topologyEqual := available && GeometryDomTopology(telemaco.value) == GeometryDomTopology(chromium.value);
    var idComparison: Option<IdComparison> := None;
    if available && topologyEqual {
      assert |GeometryDomTopology(telemaco.value).nodes| == |GeometryDomTopology(chromium.value).nodes|;
      var ids := CompareGeometryDomIds(rules, Ids(telemaco.value.nodes), Ids(chromium.value.nodes));
      idComparison := Some(ids);
    }
    var structuresEqual := topologyEqual && idComparison.value.comparable;
    var truncated := available && (telemaco.value.subtreeTruncated || chromium.value.subtreeTruncated);
    var comparable := structuresEqual && !truncated;
    var reasons := [];
    if !available {
      reasons := [SubtreeDescriptorUnavailable];
    } else if !structuresEqual {
      reasons := [SubtreeStructureMismatch];
    } else if truncated {
      reasons := [SubtreeDescriptorTruncated];
    }
    var classification := if comparable then Comparable
                          else if !available || truncated then InsufficientTargetStructure
                          else DifferentTargetStructure;
    verdict := Verdict(available, comparable, classification, reasons, topologyEqual, idComparison);
  }

  /** The ids of the nodes as captured; where there is none, the empty string. */
  function RawIds(nodes: seq<Option<RawNode>>): seq<string> {
    seq(|nodes|, i requires 0 <= i < |nodes| =>
          if nodes[i].Some? && nodes[i].value.id.Some? then nodes[i].value.id.value else "")
  }

  /** Both are nodes, alike in everything but id and the way the class is written, or neither is. */
  ghost predicate AlikeButId(isSpace: char -> bool, a: Option<RawNode>, b: Option<RawNode>) {
    && (a.Some? <==> b.Some?)
    && (a.Some? ==>
          && a.value.parentIndex == b.value.parentIndex && a.value.tag == b.value.tag
          && a.value.childElementCount == b.value.childElementCount
          && SameTokens(isSpace, a.value.className, b.value.className))
  }

  lemma SameSetSameTokens(isSpace: char -> bool, a: Option<string>, b: Option<string>)
    ensures SameTokens(isSpace, a, b) <==> ClassTokens(isSpace, a) == ClassTokens(isSpace, b)
  {
    if SameTokens(isSpace, a, b) {
      SameTokensSameSet(isSpace, a, b);
    }
    if ClassTokens(isSpace, a) == ClassTokens(isSpace, b) {
      hide Words, Writes;
      var tokens := if a == None then [] else Words(isSpace, a.value);
      var others := if b == None then [] else Words(isSpace, b.value);
      if a != None {
        WordsAreWritten(isSpace, a.value, tokens);
      }
      if b != None {
        WordsAreWritten(isSpace, b.value, others);
      }
      assert ClassWrites(isSpace, a, tokens) && ClassWrites(isSpace, b, others);
      assert forall t :: t in tokens <==> t in ClassTokens(isSpace, a);
      assert forall t :: t in others <==> t in ClassTokens(isSpace, b);
    }
  }

  lemma AlikeIsSameNode(isSpace: char -> bool, a: Option<RawNode>, b: Option<RawNode>)
    ensures WithoutId(CanonicalNode(isSpace, a)) == WithoutId(CanonicalNode(isSpace, b)) <==> AlikeButId(isSpace, a, b)
  {
    hide ClassTokens, SameTokens;
    if a.Some? && b.Some? {
      SameSetSameTokens(isSpace, a.value.className, b.value.className);
    }
  }

  lemma NodesAlike(isSpace: char -> bool, p: seq<Option<RawNode>>, q: seq<Option<RawNode>>)
    ensures WithoutIds(CanonicalNodes(isSpace, p)) == WithoutIds(CanonicalNodes(isSpace, q)) <==>
            |p| == |q| && forall i :: 0 <= i < |p| ==> AlikeButId(isSpace, p[i], q[i])
  {
    hide AlikeButId, CanonicalNode, WithoutId, CanonicalNodes, WithoutIds;
    var x, y := WithoutIds(CanonicalNodes(isSpace, p)), WithoutIds(CanonicalNodes(isSpace, q));
    if |p| == |q| {
      forall i | 0 <= i < |p| ensures x[i] == y[i] <==> AlikeButId(isSpace, p[i], q[i]) {
        AlikeIsSameNode(isSpace, p[i], q[i]);
      }
      assert x == y <==> forall i :: 0 <= i < |p| ==> x[i] == y[i];
    }
  }

  lemma RawIdsAreIds(isSpace: char -> bool, nodes: seq<Option<RawNode>>)
    ensures RawIds(nodes) == Ids(CanonicalNodes(isSpace, nodes))
  {
  }

  /** Two captured trees are the same target exactly if their counts and nodes are alike, in order, but for the ids,
    * and the ids differ only by generated counters. */
  lemma SameTargetIff(rules: Rules, isSpace: char -> bool, a: Dom, b: Dom)
    requires a.subtree.Some? && b.subtree.Some?
    ensures var x := CanonicalGeometryDomStructure(isSpace, Some(a));
            var y := CanonicalGeometryDomStructure(isSpace, Some(b));
            var p, q := a.subtree.value, b.subtree.value;
            && x.Some? && y.Some?
            && (SameTarget(rules, x.value, y.value) <==>
                && a.subtreeElementCount == b.subtreeElementCount && a.subtreeTruncated == b.subtreeTruncated
                && |p| == |q| && (forall i :: 0 <= i < |p| ==> AlikeButId(isSpace, p[i], q[i]))
                && AllExcused(rules, RawIds(p), RawIds(q)))
  {
    hide AlikeButId, AllExcused, RawIds, CanonicalNodes, WithoutIds, Ids;
    RawIdsAreIds(isSpace, a.subtree.value);
    RawIdsAreIds(isSpace, b.subtree.value);
    NodesAlike(isSpace, a.subtree.value, b.subtree.value);
  }

  lemma ExpectedSymmetric(rules: Rules, a: Option<Structure>, b: Option<Structure>)
    ensures a != None && b != None ==> (SameTarget(rules, a.value, b.value) <==> SameTarget(rules, b.value, a.value))
    ensures Expected(rules, a, b) == Expected(rules, b, a)
  {
    if a != None && b != None && GeometryDomTopology(a.value) == GeometryDomTopology(b.value) {
      assert |GeometryDomTopology(a.value).nodes| == |GeometryDomTopology(b.value).nodes|;
      SwappedEngines(rules, Ids(a.value.nodes), Ids(b.value.nodes));
    }
  }

  /** There is one verdict on two structures, the comparison of the ids included. */
  lemma OneVerdict(rules: Rules, a: Option<Structure>, b: Option<Structure>, v: Verdict, w: Verdict)
    requires Decided(rules, a, b, v) && Decided(rules, a, b, w)
    ensures v == w
  {
    hide SameTarget, Expected, Compared;
    if v.idComparison.Some? && w.idComparison.Some? {
      ComparedOnce(rules, Ids(a.value.nodes), Ids(b.value.nodes), v.idComparison.value, w.idComparison.value);
    }
  }

  /** The mismatches name the engines, all else in a comparison of ids does not. */
  predicate SameCounts(r: Option<IdComparison>, s: Option<IdComparison>) {
    if r == None || s == None then r == s
    else
      && r.value.normalizedCount == s.value.normalizedCount && r.value.semanticCount == s.value.semanticCount
      && r.value.comparable == s.value.comparable && |r.value.mismatches| == |s.value.mismatches|
  }

  /** The verdicts on two trees, in either order, agree, and so do the counts of the ids. */
  lemma VerdictSymmetric(rules: Rules, a: Option<Structure>, b: Option<Structure>, v: Verdict, w: Verdict)
    requires Decided(rules, a, b, v) && Decided(rules, b, a, w)
    ensures v.(idComparison := None) == w.(idComparison := None)
    ensures SameCounts(v.idComparison, w.idComparison)
  {
    hide SameTarget, Expected, GeometryDomTopology, Compared;
    ExpectedSymmetric(rules, a, b);
    if v.idComparison.Some? && w.idComparison.Some? {
      ComparedSymmetric(rules, Ids(a.value.nodes), Ids(b.value.nodes), v.idComparison.value, w.idComparison.value);
    }
  }

  /** Reordering, repeating and spacing class tokens differently, in either tree, changes nothing in the verdict. */
  lemma VerdictIgnoresClassOrder(rules: Rules, isSpace: char -> bool, a: Option<Dom>, b: Option<Dom>, c: Option<Dom>,
                                 d: Option<Dom>, v: Verdict, w: Verdict)
    requires RewrittenDom(isSpace, a, c) && RewrittenDom(isSpace, b, d)
    requires Decided(rules, CanonicalGeometryDomStructure(isSpace, a), CanonicalGeometryDomStructure(isSpace, b), v)
    requires Decided(rules, CanonicalGeometryDomStructure(isSpace, c), CanonicalGeometryDomStructure(isSpace, d), w)
    ensures v == w
  {
    hide RewrittenDom, CanonicalGeometryDomStructure, Decided;
    ClassOrderIrrelevant(isSpace, a, c);
    ClassOrderIrrelevant(isSpace, b, d);
    OneVerdict(rules, CanonicalGeometryDomStructure(isSpace, a), CanonicalGeometryDomStructure(isSpace, b), v, w);
  }
}
