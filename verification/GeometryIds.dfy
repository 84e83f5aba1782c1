/** Which differences between the ids of two captured element trees are generated counters. */
module GeometryIds {
  import opened Basics

  // ---------- Splitting one pair of ids ----------

  /** Both ids around the part in which they differ. */
  datatype Variance = Variance(prefix: string, suffix: string, telemacoSalt: string, chromiumSalt: string) {
    function Swapped(): Variance {
      Variance(prefix, suffix, chromiumSalt, telemacoSalt)
    }

    function NormalizedFingerprint(): string {
      prefix + "<volatile-id-salt>" + suffix
    }

    /** The marker stands in the prefix of w where it would be put here, and in the suffix here where it would be put
      * in w, with x between the two. */
    predicate ClashesBy(w: Variance, x: string) {
      w.prefix == prefix + "<volatile-id-salt>" + x && suffix == x + "<volatile-id-salt>" + w.suffix
    }

    /** What surrounds the salts is not the same, even where the marker itself occurs in the ids. */
    ghost predicate Apart(w: Variance) {
      && (prefix, suffix) != (w.prefix, w.suffix)
      && forall x :: !ClashesBy(w, x) && !w.ClashesBy(this, x)
    }
  }

  lemma ApartSwaps(v: Variance, w: Variance)
    ensures v.Apart(w) ==> v.Swapped().Apart(w.Swapped())
  {
    assert forall x :: v.Swapped().ClashesBy(w.Swapped(), x) ==> v.ClashesBy(w, x);
    assert forall x :: w.Swapped().ClashesBy(v.Swapped(), x) ==> w.ClashesBy(v, x);
  }

  lemma MarkersApart(v: Variance, w: Variance)
    requires |v.prefix| < |w.prefix| && v.NormalizedFingerprint() == w.NormalizedFingerprint()
    ensures |v.prefix| + |"<volatile-id-salt>"| <= |w.prefix|
  {
    var marker, whole := "<volatile-id-salt>", v.NormalizedFingerprint();
    assert whole[|w.prefix|] == '<';
    assert forall k :: 1 <= k < |marker| ==> marker[k] != '<' && whole[|v.prefix| + k] == marker[k];
    assert whole[|v.prefix| + (|w.prefix| - |v.prefix|)] == '<';
  }

  lemma ShorterPrefixClashes(v: Variance, w: Variance)
    requires |v.prefix| < |w.prefix| && v.NormalizedFingerprint() == w.NormalizedFingerprint()
    ensures exists x :: v.ClashesBy(w, x)
  {
    var marker := "<volatile-id-salt>";
    var whole := v.NormalizedFingerprint();
    MarkersApart(v, w);
    var x := whole[|v.prefix| + |marker|..|w.prefix|];
    assert w.prefix == whole[..|w.prefix|];
    assert v.prefix + marker == whole[..|v.prefix| + |marker|];
    assert v.suffix == whole[|v.prefix| + |marker|..];
    assert marker + w.suffix == whole[|w.prefix|..];
    assert v.ClashesBy(w, x);
  }

  lemma EqualPrefixEqualSuffix(v: Variance, w: Variance)
    requires |v.prefix| == |w.prefix| && v.NormalizedFingerprint() == w.NormalizedFingerprint()
    ensures v.prefix == w.prefix && v.suffix == w.suffix
  {
    var n := |v.prefix|;
    assert v.prefix == v.NormalizedFingerprint()[..n] && w.prefix == w.NormalizedFingerprint()[..n];
    assert v.suffix == v.NormalizedFingerprint()[n + 18..] && w.suffix == w.NormalizedFingerprint()[n + 18..];
  }

  lemma ClashIsSameFingerprint(v: Variance, w: Variance, x: string)
    requires v.ClashesBy(w, x)
    ensures v.NormalizedFingerprint() == w.NormalizedFingerprint()
  {
  }

  lemma SameAround(v: Variance, w: Variance)
    requires v.prefix == w.prefix && v.suffix == w.suffix
    ensures v.NormalizedFingerprint() == w.NormalizedFingerprint()
  {
  }

  /** Fingerprints tell apart just what is not the same around the salts. */
  lemma FingerprintsDifferIff(v: Variance, w: Variance)
    ensures v.NormalizedFingerprint() != w.NormalizedFingerprint() <==> v.Apart(w)
  {
    hide Variance.NormalizedFingerprint, Variance.ClashesBy;
    if v.NormalizedFingerprint() == w.NormalizedFingerprint() {
      if |v.prefix| < |w.prefix| {
        ShorterPrefixClashes(v, w);
      } else if |w.prefix| < |v.prefix| {
        ShorterPrefixClashes(w, v);
      } else {
        EqualPrefixEqualSuffix(v, w);
      }
    } else {
      assert (v.prefix, v.suffix) != (w.prefix, w.suffix) by {
        if (v.prefix, v.suffix) == (w.prefix, w.suffix) {
          SameAround(v, w);
        }
      }
      forall x ensures !v.ClashesBy(w, x) && !w.ClashesBy(v, x) {
        if v.ClashesBy(w, x) {
          ClashIsSameFingerprint(v, w, x);
        }
        if w.ClashesBy(v, x) {
          ClashIsSameFingerprint(w, v, x);
        }
      }
    }
  }

  predicate IsSeparator(c: char) {
    c == '-' || c == '_' || c == ':'
  }

  predicate CommonSuffix(a: string, b: string, k: nat) {
    k <= |a| && k <= |b| && a[|a| - k..] == b[|b| - k..]
  }

  function Shorter(a: string, b: string): nat {
    if |a| <= |b| then |a| else |b|
  }

  /** No longer common suffix that leaves the prefix alone starts at a separator. */
  ghost predicate LongestSuffix(a: string, b: string, p: nat, n: nat) {
    forall k: nat :: n < k <= Shorter(a, b) - p && CommonSuffix(a, b, k) ==> !IsSeparator(a[|a| - k])
  }

  /** The ids are prefix, salt and suffix, the salts differ from their first character on, and the suffix is empty or
    * the longest that starts at a separator. */
  ghost predicate IsSplit(a: string, b: string, v: Variance) {
    && a == v.prefix + v.telemacoSalt + v.suffix
    && b == v.prefix + v.chromiumSalt + v.suffix
    && v.telemacoSalt != "" && v.chromiumSalt != ""
    && v.telemacoSalt[0] != v.chromiumSalt[0]
    && (v.suffix == "" || IsSeparator(v.suffix[0]))
    && LongestSuffix(a, b, |v.prefix|, |v.suffix|)
  }

  /** The ids agree on the prefix and differ right after it. */
  lemma PrefixIsCommon(a: string, b: string, v: Variance)
    requires IsSplit(a, b, v)
    ensures |v.prefix| < |a| && |v.prefix| < |b| && a[|v.prefix|] != b[|v.prefix|]
    ensures forall k :: 0 <= k < |v.prefix| ==> a[k] == b[k]
  {
  }

  lemma PrefixNotLonger(a: string, b: string, v: Variance, w: Variance)
    requires IsSplit(a, b, v) && IsSplit(a, b, w)
    ensures |w.prefix| <= |v.prefix|
  {
    PrefixIsCommon(a, b, v);
    PrefixIsCommon(a, b, w);
  }

  lemma SuffixIsCommon(a: string, b: string, v: Variance)
    requires IsSplit(a, b, v)
    ensures CommonSuffix(a, b, |v.suffix|) && |v.suffix| <= Shorter(a, b) - |v.prefix|
    ensures v.suffix != "" ==> IsSeparator(a[|a| - |v.suffix|])
  {
  }

  lemma SuffixNotLonger(a: string, b: string, v: Variance, w: Variance)
    requires IsSplit(a, b, v) && IsSplit(a, b, w) && |v.prefix| == |w.prefix|
    ensures |w.suffix| <= |v.suffix|
  {
    SuffixIsCommon(a, b, w);
  }

  /** Two ids split in at most one way. */
  lemma SplitIsUnique(a: string, b: string, v: Variance, w: Variance)
    requires IsSplit(a, b, v) && IsSplit(a, b, w)
    ensures v == w
  {
    PrefixNotLonger(a, b, v, w);
    PrefixNotLonger(a, b, w, v);
    SuffixNotLonger(a, b, v, w);
    SuffixNotLonger(a, b, w, v);
    assert v.prefix == a[..|v.prefix|] && w.prefix == a[..|v.prefix|];
    assert v.suffix == a[|a| - |v.suffix|..] && w.suffix == a[|a| - |v.suffix|..];
    assert v.telemacoSalt == a[|v.prefix|..|a| - |v.suffix|];
    assert w.telemacoSalt == a[|v.prefix|..|a| - |v.suffix|];
    assert v.chromiumSalt == b[|v.prefix|..|b| - |v.suffix|];
    assert w.chromiumSalt == b[|v.prefix|..|b| - |v.suffix|];
  }

  lemma SuffixSwaps(a: string, b: string, p: nat, n: nat)
    ensures LongestSuffix(a, b, p, n) ==> LongestSuffix(b, a, p, n)
  {
    if LongestSuffix(a, b, p, n) {
      forall k: nat | n < k <= Shorter(b, a) - p && CommonSuffix(b, a, k)
        ensures !IsSeparator(b[|b| - k])
      {
        assert CommonSuffix(a, b, k);
        assert a[|a| - k] == a[|a| - k..][0] == b[|b| - k..][0];
      }
    }
  }

  /** Exchanging the ids exchanges the salts and nothing else. */
  lemma SplitSwaps(a: string, b: string, v: Variance)
    ensures IsSplit(a, b, v) <==> IsSplit(b, a, v.Swapped())
  {
    SuffixSwaps(a, b, |v.prefix|, |v.suffix|);
    SuffixSwaps(b, a, |v.prefix|, |v.suffix|);
  }

  /** The offset of the first c, or -1. */
  function Find(s: string, c: char): (r: int)
    ensures -1 <= r < |s|
    ensures r >= 0 ==> s[r] == c
    ensures forall k :: 0 <= k < (if r >= 0 then r else |s|) ==> s[k] != c
  {
    if s == "" then -1
    else if s[0] == c then 0
    else
      var r := Find(s[1..], c);
      assert forall k :: 1 <= k < |s| ==> s[k] == s[1..][k - 1];
      if r >= 0 then r + 1 else -1
  }

  /** The smaller of two offsets that are not -1. */
  function Earlier(x: int, y: int): int {
    if x >= 0 && y >= 0 then (if x <= y then x else y) else if x >= 0 then x else y
  }

  lemma NoSplitOfEqual(a: string, b: string)
    ensures a == "" || b == "" || a == b ==> forall v :: !IsSplit(a, b, v)
  {
    forall v ensures IsSplit(a, b, v) ==> a != "" && b != "" && a != b {
      if IsSplit(a, b, v) {
        PrefixIsCommon(a, b, v);
      }
    }
  }

  /** A common suffix that cannot be extended, cut at its first separator, is the longest that starts at one. */
  lemma LongestFound(a: string, b: string, p: nat, common: nat, n: nat)
    requires p + common <= Shorter(a, b) && CommonSuffix(a, b, common) && n <= common
    requires p + common < Shorter(a, b) ==> a[|a| - 1 - common] != b[|b| - 1 - common]
    requires forall k :: |a| - common <= k < |a| - n ==> !IsSeparator(a[k])
    ensures LongestSuffix(a, b, p, n) && CommonSuffix(a, b, n)
  {
  }

  lemma SplitPrefixLength(a: string, b: string, v: Variance, p: nat)
    requires IsSplit(a, b, v)
    requires p <= Shorter(a, b) && a[..p] == b[..p] && (p == Shorter(a, b) || a[p] != b[p])
    ensures |v.prefix| == p
  {
    PrefixIsCommon(a, b, v);
    assert forall k :: 0 <= k < p ==> a[k] == a[..p][k] == b[..p][k] == b[k];
  }

  /** Where prefix and suffix use up one of the ids, there is no split. */
  lemma NoRoomNoSplit(a: string, b: string, p: nat, n: nat)
    requires p + n == Shorter(a, b) && a[..p] == b[..p] && (p == Shorter(a, b) || a[p] != b[p])
    requires CommonSuffix(a, b, n) && (n > 0 ==> IsSeparator(a[|a| - n]))
    ensures forall v :: !IsSplit(a, b, v)
  {
    forall v ensures IsSplit(a, b, v) ==> |v.suffix| < n && !LongestSuffix(a, b, |v.prefix|, |v.suffix|) {
      if IsSplit(a, b, v) {
        SplitPrefixLength(a, b, v, p);
        SuffixIsCommon(a, b, v);
      }
    }
  }

  /** The parts of both ids once the lengths are known. */
  method Assemble(telemacoId: string, chromiumId: string, prefixLength: nat, suffixLength: nat)
    returns (result: Option<Variance>)
    requires prefixLength + suffixLength <= Shorter(telemacoId, chromiumId)
    requires telemacoId[..prefixLength] == chromiumId[..prefixLength]
    requires prefixLength == Shorter(telemacoId, chromiumId) || telemacoId[prefixLength] != chromiumId[prefixLength]
    requires CommonSuffix(telemacoId, chromiumId, suffixLength)
    requires suffixLength > 0 ==> IsSeparator(telemacoId[|telemacoId| - suffixLength])
    requires LongestSuffix(telemacoId, chromiumId, prefixLength, suffixLength)
    ensures result.Some? ==> IsSplit(telemacoId, chromiumId, result.value)
    ensures result.None? ==> forall v :: !IsSplit(telemacoId, chromiumId, v)
  {
    hide LongestSuffix;
    var suffixStartTelemaco, suffixStartChromium := |telemacoId| - suffixLength, |chromiumId| - suffixLength;
    var prefix := telemacoId[..prefixLength];
    var suffix := if suffixLength > 0 then telemacoId[suffixStartTelemaco..] else "";
    var telemacoSalt := telemacoId[prefixLength..suffixStartTelemaco];
    var chromiumSalt := chromiumId[prefixLength..suffixStartChromium];
    if telemacoSalt == "" || chromiumSalt == "" {
      NoRoomNoSplit(telemacoId, chromiumId, prefixLength, suffixLength);
      return None;
    }
    result := Some(Variance(prefix, suffix, telemacoSalt, chromiumSalt));
  }

  /** The one way to split the ids, if there is one. */
  method SplitGeneratedIdVariance(telemacoId: string, chromiumId: string) returns (result: Option<Variance>)
    ensures result.Some? ==> IsSplit(telemacoId, chromiumId, result.value)
    ensures result.None? ==> forall v :: !IsSplit(telemacoId, chromiumId, v)
  {
    hide LongestSuffix;
    if telemacoId == "" || chromiumId == "" || telemacoId == chromiumId {
      NoSplitOfEqual(telemacoId, chromiumId);
      return None;
    }
    var prefixLength := 0;
    var prefixLimit := Shorter(telemacoId, chromiumId);
    while prefixLength < prefixLimit && telemacoId[prefixLength] == chromiumId[prefixLength]
      invariant 0 <= prefixLength <= prefixLimit
      invariant telemacoId[..prefixLength] == chromiumId[..prefixLength]
    {
      prefixLength := prefixLength + 1;
    }
    var suffixLength := 0;
    var suffixLimit := Shorter(telemacoId[prefixLength..], chromiumId[prefixLength..]);
    while && suffixLength < suffixLimit
          && telemacoId[|telemacoId| - 1 - suffixLength] == chromiumId[|chromiumId| - 1 - suffixLength]
      invariant 0 <= suffixLength <= suffixLimit
      invariant CommonSuffix(telemacoId, chromiumId, suffixLength)
    {
      suffixLength := suffixLength + 1;
    }

    ghost var common := suffixLength;
    if suffixLength > 0 {
      var rawSuffix := telemacoId[|telemacoId| - suffixLength..];
      if !IsSeparator(rawSuffix[0]) {
        var offset := Earlier(Earlier(Find(rawSuffix, '-'), Find(rawSuffix, '_')), Find(rawSuffix, ':'));
        suffixLength := if offset >= 0 then |rawSuffix| - offset else 0;
      }
    }
    LongestFound(telemacoId, chromiumId, prefixLength, common, suffixLength);
    result := Assemble(telemacoId, chromiumId, prefixLength, suffixLength);
  }

  // ---------- Comparing the ids of two trees ----------

  /** The search for a framework's name in an id, and the digits. */
  datatype Rules = Rules(namespaceOf: string -> Option<string>, isDigit: char -> bool) {
    function GeneratedNamespace(v: Option<Variance>): Option<string> {
      if v == None then None else namespaceOf(v.value.prefix + v.value.suffix)
    }

    ghost predicate HasDigit(s: string) {
      exists k :: 0 <= k < |s| && isDigit(s[k])
    }

    method AnyDigit(s: string) returns (found: bool)
      ensures found <==> HasDigit(s)
    {
      found := false;
      for k := 0 to |s|
        invariant found <==> exists j :: 0 <= j < k && isDigit(s[j])
      {
        found := found || isDigit(s[k]);
      }
    }

    /** The salts look generated. */
    ghost predicate Generated(v: Variance) {
      && namespaceOf(v.prefix + v.suffix).Some?
      && HasDigit(v.telemacoSalt) && HasDigit(v.chromiumSalt)
      && |v.telemacoSalt| <= 32 && |v.chromiumSalt| <= 32
    }

    method GeneratedSaltCandidate(v: Variance) returns (candidate: bool)
      ensures candidate <==> Generated(v)
    {
      var telemaco := AnyDigit(v.telemacoSalt);
      var chromium := AnyDigit(v.chromiumSalt);
      candidate := && namespaceOf(v.prefix + v.suffix).Some? && telemaco && chromium
                   && |v.telemacoSalt| <= 32 && |v.chromiumSalt| <= 32;
    }

    /** The ids split into salts that look generated. */
    ghost predicate Candidate(a: string, b: string, v: Variance) {
      IsSplit(a, b, v) && Generated(v)
    }

    /** Position j has the salts v has, with something else around them. */
    ghost predicate Repeats(telemaco: seq<string>, chromium: seq<string>, j: nat, v: Variance, w: Variance)
      requires j < |telemaco| == |chromium|
    {
      && Candidate(telemaco[j], chromium[j], w)
      && w.telemacoSalt == v.telemacoSalt && w.chromiumSalt == v.chromiumSalt
      && v.Apart(w)
    }

    ghost predicate Recurs(telemaco: seq<string>, chromium: seq<string>, v: Variance)
      requires |telemaco| == |chromium|
    {
      exists j: nat, w :: j < |telemaco| && Repeats(telemaco, chromium, j, v, w)
    }

    /** The rule: a difference is a generated counter exactly if the same salts recur elsewhere. */
    ghost predicate Volatile(telemaco: seq<string>, chromium: seq<string>, i: nat)
      requires i < |telemaco| == |chromium|
    {
      exists v :: Candidate(telemaco[i], chromium[i], v) && Recurs(telemaco, chromium, v)
    }

    /** How many of the first n positions satisfy the rule. */
    ghost function VolatileCount(telemaco: seq<string>, chromium: seq<string>, n: nat): nat
      requires n <= |telemaco| == |chromium|
    {
      if n == 0 then 0
      else VolatileCount(telemaco, chromium, n - 1) + if Volatile(telemaco, chromium, n - 1) then 1 else 0
    }

    lemma SwapsVolatile(telemaco: seq<string>, chromium: seq<string>, i: nat)
      requires i < |telemaco| == |chromium|
      ensures Volatile(telemaco, chromium, i) ==> Volatile(chromium, telemaco, i)
    {
      hide IsSplit;
      if Volatile(telemaco, chromium, i) {
        var v :| Candidate(telemaco[i], chromium[i], v) && Recurs(telemaco, chromium, v);
        var j: nat, w :| j < |telemaco| && Repeats(telemaco, chromium, j, v, w);
        SplitSwaps(telemaco[i], chromium[i], v);
        SplitSwaps(telemaco[j], chromium[j], w);
        ApartSwaps(v, w);
        assert Candidate(chromium[i], telemaco[i], v.Swapped());
        assert Repeats(chromium, telemaco, j, v.Swapped(), w.Swapped());
      }
    }

    /** The rule and its count do not depend on which engine comes first. */
    lemma {:induction false} VolatileCountSymmetric(telemaco: seq<string>, chromium: seq<string>, n: nat)
      requires n <= |telemaco| == |chromium|
      ensures VolatileCount(telemaco, chromium, n) == VolatileCount(chromium, telemaco, n)
    {
      hide Volatile;
      if n > 0 {
        SwapsVolatile(telemaco, chromium, n - 1);
        SwapsVolatile(chromium, telemaco, n - 1);
        VolatileCountSymmetric(telemaco, chromium, n - 1);
      }
    }

    lemma {:induction false} NoneVolatile(telemaco: seq<string>, chromium: seq<string>, n: nat)
      requires n <= |telemaco| == |chromium| && forall i: nat :: i < n ==> !Volatile(telemaco, chromium, i)
      ensures VolatileCount(telemaco, chromium, n) == 0
    {
      hide Volatile;
      if n > 0 {
        NoneVolatile(telemaco, chromium, n - 1);
      }
    }

    lemma {:induction false} OneVolatile(telemaco: seq<string>, chromium: seq<string>, i: nat, n: nat)
      requires i < n <= |telemaco| == |chromium| && Volatile(telemaco, chromium, i)
      ensures VolatileCount(telemaco, chromium, n) >= 1
    {
      hide Volatile;
      if i < n - 1 {
        OneVolatile(telemaco, chromium, i, n - 1);
      }
    }

    lemma {:induction false} TwoVolatile(telemaco: seq<string>, chromium: seq<string>, i: nat, j: nat, n: nat)
      requires i < j < n <= |telemaco| == |chromium| && Volatile(telemaco, chromium, i)
      requires Volatile(telemaco, chromium, j)
      ensures VolatileCount(telemaco, chromium, n) >= 2
    {
      hide Volatile;
      if j < n - 1 {
        TwoVolatile(telemaco, chromium, i, j, n - 1);
      } else {
        OneVolatile(telemaco, chromium, i, n - 1);
      }
    }

    /** One counter alone is never excused: the count is not 1. */
    lemma VolatileCountNotOne(telemaco: seq<string>, chromium: seq<string>)
      requires |telemaco| == |chromium|
      ensures VolatileCount(telemaco, chromium, |telemaco|) != 1
    {
      hide IsSplit;
      var n := |telemaco|;
      if i: nat :| i < n && Volatile(telemaco, chromium, i) {
        var v :| Candidate(telemaco[i], chromium[i], v) && Recurs(telemaco, chromium, v);
        var j: nat, w :| j < n && Repeats(telemaco, chromium, j, v, w);
        assert Repeats(telemaco, chromium, i, w, v);
        assert Volatile(telemaco, chromium, j);
        if i == j {
          SplitIsUnique(telemaco[i], chromium[i], v, w);
        }
        if i < j {
          TwoVolatile(telemaco, chromium, i, j, n);
        } else {
          TwoVolatile(telemaco, chromium, j, i, n);
        }
      } else {
        NoneVolatile(telemaco, chromium, n);
      }
    }
  }

  /** How many of the first n positions differ. */
  function Differing(telemaco: seq<string>, chromium: seq<string>, n: nat): nat
    requires n <= |telemaco| == |chromium|
  {
    if n == 0 then 0 else Differing(telemaco, chromium, n - 1) + if telemaco[n - 1] == chromium[n - 1] then 0 else 1
  }

  /** A position where the ids differ, and what was found about it. */
  datatype Mismatch = Mismatch(nodeIndex: nat, telemacoId: string, chromiumId: string, normalizedAsVolatile: bool,
                               variance: Option<Variance>, generatedNamespace: Option<string>, candidate: bool)

  datatype IdComparison = IdComparison(comparable: bool, mismatches: seq<Mismatch>, normalizedCount: nat,
                                       semanticCount: nat)

  /** The mismatch describes its position, apart from the flag. */
  ghost predicate Describes(rules: Rules, telemaco: seq<string>, chromium: seq<string>, m: Mismatch) {
    && |telemaco| == |chromium| && m.nodeIndex < |telemaco|
    && m.telemacoId == telemaco[m.nodeIndex] && m.chromiumId == chromium[m.nodeIndex] && m.telemacoId != m.chromiumId
    && (m.variance.Some? ==> IsSplit(m.telemacoId, m.chromiumId, m.variance.value))
    && (m.variance.None? ==> forall v :: !IsSplit(m.telemacoId, m.chromiumId, v))
    && (m.variance.Some? ==>
          m.generatedNamespace == rules.namespaceOf(m.variance.value.prefix + m.variance.value.suffix))
    && (m.variance.None? ==> m.generatedNamespace.None?)
    && (m.candidate <==> m.variance.Some? && rules.Generated(m.variance.value))
  }

  /** One mismatch for each of the first n positions that differ, in order. */
  ghost predicate Lists(rules: Rules, telemaco: seq<string>, chromium: seq<string>, ms: seq<Mismatch>, n: nat) {
    && n <= |telemaco| == |chromium|
    && |ms| == Differing(telemaco, chromium, n)
    && (forall k :: 0 <= k < |ms| ==> ms[k].nodeIndex < n && Describes(rules, telemaco, chromium, ms[k]))
    && (forall k, l :: 0 <= k < l < |ms| ==> ms[k].nodeIndex < ms[l].nodeIndex)
  }

  type Salts = (string, string)

  /** Position i is a candidate with those salts and that fingerprint. */
  ghost predicate Offers(rules: Rules, telemaco: seq<string>, chromium: seq<string>, i: nat, salts: Salts,
                         fingerprint: string, w: Variance)
    requires i < |telemaco| == |chromium|
  {
    && rules.Candidate(telemaco[i], chromium[i], w)
    && (w.telemacoSalt, w.chromiumSalt) == salts && w.NormalizedFingerprint() == fingerprint
  }

  ghost predicate Offered(rules: Rules, telemaco: seq<string>, chromium: seq<string>, n: nat, salts: Salts,
                          fingerprint: string)
    requires n <= |telemaco| == |chromium|
  {
    exists i: nat, w :: i < n && Offers(rules, telemaco, chromium, i, salts, fingerprint, w)
  }

  predicate IsFound(found: map<Salts, set<string>>, salts: Salts, fingerprint: string) {
    salts in found && fingerprint in found[salts]
  }

  /** The fingerprints collected under each pair of salts are those of the first n positions. */
  ghost predicate Collected(rules: Rules, telemaco: seq<string>, chromium: seq<string>, n: nat,
                            found: map<Salts, set<string>>)
    requires n <= |telemaco| == |chromium|
  {
    forall salts: Salts, f: string :: IsFound(found, salts, f) <==> Offered(rules, telemaco, chromium, n, salts, f)
  }

  ghost predicate IsFlagged(rules: Rules, telemaco: seq<string>, chromium: seq<string>, m: Mismatch) {
    && |telemaco| == |chromium| && m.nodeIndex < |telemaco|
    && (m.normalizedAsVolatile <==> rules.Volatile(telemaco, chromium, m.nodeIndex))
  }

  function Flags(ms: seq<Mismatch>): nat {
    if ms == [] then 0 else Flags(ms[..|ms| - 1]) + if ms[|ms| - 1].normalizedAsVolatile then 1 else 0
  }

  lemma ListCount(rules: Rules, telemaco: seq<string>, chromium: seq<string>, ms: seq<Mismatch>, n: nat)
    requires Lists(rules, telemaco, chromium, ms, n)
    ensures |ms| == Differing(telemaco, chromium, n)
  {
  }

  lemma ListStart(rules: Rules, telemaco: seq<string>, chromium: seq<string>)
    requires |telemaco| == |chromium|
    ensures Lists(rules, telemaco, chromium, [], 0) && Collected(rules, telemaco, chromium, 0, map[])
  {
  }

  lemma Listed(rules: Rules, telemaco: seq<string>, chromium: seq<string>, ms: seq<Mismatch>, n: nat, k: nat)
    requires Lists(rules, telemaco, chromium, ms, n) && k < |ms|
    ensures Describes(rules, telemaco, chromium, ms[k])
  {
  }

  lemma OfferedStep(rules: Rules, telemaco: seq<string>, chromium: seq<string>, n: nat, salts: Salts, f: string)
    requires n < |telemaco| == |chromium|
    ensures Offered(rules, telemaco, chromium, n + 1, salts, f) <==>
            Offered(rules, telemaco, chromium, n, salts, f) ||
            exists w :: Offers(rules, telemaco, chromium, n, salts, f, w)
  {
  }

  lemma SkipEqual(rules: Rules, telemaco: seq<string>, chromium: seq<string>, ms: seq<Mismatch>, n: nat,
                  found: map<Salts, set<string>>)
    requires n < |telemaco| == |chromium| && telemaco[n] == chromium[n]
    requires Lists(rules, telemaco, chromium, ms, n) && Collected(rules, telemaco, chromium, n, found)
    ensures Lists(rules, telemaco, chromium, ms, n + 1) && Collected(rules, telemaco, chromium, n + 1, found)
  {
    hide IsSplit, Offered;
    NoSplitOfEqual(telemaco[n], chromium[n]);
    forall salts: Salts, f: string
      ensures Offered(rules, telemaco, chromium, n + 1, salts, f) <==> Offered(rules, telemaco, chromium, n, salts, f)
    {
      OfferedStep(rules, telemaco, chromium, n, salts, f);
    }
  }

  lemma ListNext(rules: Rules, telemaco: seq<string>, chromium: seq<string>, ms: seq<Mismatch>, m: Mismatch, n: nat)
    requires n < |telemaco| && Lists(rules, telemaco, chromium, ms, n) && m.nodeIndex == n
    requires Describes(rules, telemaco, chromium, m)
    ensures Lists(rules, telemaco, chromium, ms + [m], n + 1)
  {
  }

  lemma DescribesDiffers(rules: Rules, telemaco: seq<string>, chromium: seq<string>, m: Mismatch)
    requires Describes(rules, telemaco, chromium, m)
    ensures m.nodeIndex < |telemaco| == |chromium| && telemaco[m.nodeIndex] != chromium[m.nodeIndex]
  {
  }

  lemma OffersOnlyOwn(rules: Rules, telemaco: seq<string>, chromium: seq<string>, m: Mismatch, salts: Salts, f: string)
    requires Describes(rules, telemaco, chromium, m)
    ensures (exists w :: Offers(rules, telemaco, chromium, m.nodeIndex, salts, f, w)) <==>
            m.candidate && Offers(rules, telemaco, chromium, m.nodeIndex, salts, f, m.variance.value)
  {
    hide IsSplit;
    if w :| Offers(rules, telemaco, chromium, m.nodeIndex, salts, f, w) {
      assert m.variance.Some?;
      SplitIsUnique(m.telemacoId, m.chromiumId, w, m.variance.value);
    }
  }

  /** What a mismatch adds to the fingerprints. */
  lemma CollectNext(rules: Rules, telemaco: seq<string>, chromium: seq<string>, m: Mismatch, n: nat,
                    found: map<Salts, set<string>>, found': map<Salts, set<string>>)
    requires n < |telemaco| == |chromium| && Collected(rules, telemaco, chromium, n, found)
    requires m.nodeIndex == n && Describes(rules, telemaco, chromium, m)
    requires !m.candidate ==> found' == found
    requires m.candidate ==>
               var salts := (m.variance.value.telemacoSalt, m.variance.value.chromiumSalt);
               var known := if salts in found then found[salts] else {};
               found' == found[salts := known + {m.variance.value.NormalizedFingerprint()}]
    ensures Collected(rules, telemaco, chromium, n + 1, found')
  {
    hide IsSplit, Offered;
    forall salts: Salts, f: string
      ensures IsFound(found', salts, f) <==> Offered(rules, telemaco, chromium, n + 1, salts, f)
    {
      OfferedStep(rules, telemaco, chromium, n, salts, f);
      OffersOnlyOwn(rules, telemaco, chromium, m, salts, f);
    }
  }

  lemma TwoMembers<T>(s: set<T>, x: T)
    requires x in s
    ensures |s| >= 2 <==> exists y :: y in s && y != x
  {
    var rest := s - {x};
    assert s == rest + {x};
    if y :| y in s && y != x {
      assert y in rest;
    }
    if |s| >= 2 {
      var y :| y in rest;
    }
  }

  lemma RecursIsOffered(rules: Rules, telemaco: seq<string>, chromium: seq<string>, v: Variance)
    requires |telemaco| == |chromium|
    ensures rules.Recurs(telemaco, chromium, v) <==>
            exists g :: g != v.NormalizedFingerprint() &&
              Offered(rules, telemaco, chromium, |telemaco|, (v.telemacoSalt, v.chromiumSalt), g)
  {
    var salts := (v.telemacoSalt, v.chromiumSalt);
    if rules.Recurs(telemaco, chromium, v) {
      var j: nat, w :| j < |telemaco| && rules.Repeats(telemaco, chromium, j, v, w);
      FingerprintsDifferIff(v, w);
      assert Offers(rules, telemaco, chromium, j, salts, w.NormalizedFingerprint(), w);
      assert Offered(rules, telemaco, chromium, |telemaco|, salts, w.NormalizedFingerprint());
    }
    if g :| g != v.NormalizedFingerprint() && Offered(rules, telemaco, chromium, |telemaco|, salts, g) {
      var j: nat, w :| j < |telemaco| && Offers(rules, telemaco, chromium, j, salts, g, w);
      FingerprintsDifferIff(v, w);
      assert rules.Repeats(telemaco, chromium, j, v, w);
    }
  }

  /** The test on the collected fingerprints is the rule. */
  lemma FlagIsVolatile(rules: Rules, telemaco: seq<string>, chromium: seq<string>, m: Mismatch,
                       found: map<Salts, set<string>>)
    requires |telemaco| == |chromium| && Collected(rules, telemaco, chromium, |telemaco|, found)
    requires Describes(rules, telemaco, chromium, m)
    ensures rules.Volatile(telemaco, chromium, m.nodeIndex) <==>
            m.candidate && var salts := (m.variance.value.telemacoSalt, m.variance.value.chromiumSalt);
                           salts in found && |found[salts]| >= 2
  {
    hide IsSplit;
    var i := m.nodeIndex;
    if rules.Volatile(telemaco, chromium, i) {
      var v :| rules.Candidate(telemaco[i], chromium[i], v) && rules.Recurs(telemaco, chromium, v);
      assert m.variance.Some?;
      SplitIsUnique(m.telemacoId, m.chromiumId, v, m.variance.value);
    }
    if m.candidate {
      var v := m.variance.value;
      var salts, f := (v.telemacoSalt, v.chromiumSalt), v.NormalizedFingerprint();
      assert Offers(rules, telemaco, chromium, i, salts, f, v);
      assert Offered(rules, telemaco, chromium, |telemaco|, salts, f);
      assert IsFound(found, salts, f);
      assert forall g :: g in found[salts] <==> IsFound(found, salts, g);
      TwoMembers(found[salts], f);
      RecursIsOffered(rules, telemaco, chromium, v);
    }
  }

  lemma FlagsKeepList(rules: Rules, telemaco: seq<string>, chromium: seq<string>, ms: seq<Mismatch>, ms': seq<Mismatch>,
                      n: nat)
    requires Lists(rules, telemaco, chromium, ms, n) && |ms'| == |ms|
    requires forall k :: 0 <= k < |ms| ==> ms'[k] == ms[k].(normalizedAsVolatile := ms'[k].normalizedAsVolatile)
    ensures Lists(rules, telemaco, chromium, ms', n)
  {
  }

  /** The second pass: the flag of every mismatch, and how many are set. */
  method FlagMismatches(rules: Rules, telemaco: seq<string>, chromium: seq<string>, found: seq<Mismatch>,
                        mappingFingerprints: map<Salts, set<string>>)
    returns (mismatches: seq<Mismatch>, normalizedCount: nat)
    requires Lists(rules, telemaco, chromium, found, |telemaco|)
    requires Collected(rules, telemaco, chromium, |telemaco|, mappingFingerprints)
    ensures Lists(rules, telemaco, chromium, mismatches, |telemaco|) && normalizedCount == Flags(mismatches)
    ensures forall m :: m in mismatches ==>
              (m.normalizedAsVolatile <==> rules.Volatile(telemaco, chromium, m.nodeIndex))
  {
    hide Collected, Rules.Volatile, IsSplit, Lists;
    mismatches, normalizedCount := found, 0;
    for k := 0 to |mismatches|
      invariant |mismatches| == |found| && 0 <= normalizedCount <= k
      invariant forall l :: k <= l < |found| ==> mismatches[l] == found[l]
      invariant forall l :: 0 <= l < |found| ==>
                  mismatches[l] == found[l].(normalizedAsVolatile := mismatches[l].normalizedAsVolatile)
      invariant forall l :: 0 <= l < k ==> IsFlagged(rules, telemaco, chromium, mismatches[l])
      invariant normalizedCount == Flags(mismatches[..k])
    {
      var mismatch := mismatches[k];
      Listed(rules, telemaco, chromium, found, |telemaco|, k);
      FlagIsVolatile(rules, telemaco, chromium, mismatch, mappingFingerprints);
      var recurs := false;
      if mismatch.candidate {
        var mapping := (mismatch.variance.value.telemacoSalt, mismatch.variance.value.chromiumSalt);
        recurs := mapping in mappingFingerprints && |mappingFingerprints[mapping]| >= 2;
      }
      ghost var done := mismatches[..k];
      mismatches := mismatches[k := mismatch.(normalizedAsVolatile := recurs)];
      assert mismatches[..k + 1] == done + [mismatches[k]];
      if recurs {
        normalizedCount := normalizedCount + 1;
      }
    }
    assert mismatches[..|mismatches|] == mismatches;
    FlagsKeepList(rules, telemaco, chromium, found, mismatches, |telemaco|);
  }

  lemma VolatileDiffers(rules: Rules, telemaco: seq<string>, chromium: seq<string>, i: nat)
    requires i < |telemaco| == |chromium|
    ensures rules.Volatile(telemaco, chromium, i) ==> telemaco[i] != chromium[i]
  {
    NoSplitOfEqual(telemaco[i], chromium[i]);
  }

  lemma ListWithout(rules: Rules, telemaco: seq<string>, chromium: seq<string>, ms: seq<Mismatch>, n: nat)
    requires Lists(rules, telemaco, chromium, ms, n) && n > 0 && telemaco[n - 1] == chromium[n - 1]
    ensures Lists(rules, telemaco, chromium, ms, n - 1)
  {
  }

  lemma {:induction false} NoMoreThanDiffering(rules: Rules, telemaco: seq<string>, chromium: seq<string>,
                                               ms: seq<Mismatch>, n: nat)
    requires n <= |telemaco| == |chromium|
    requires forall k :: 0 <= k < |ms| ==> Describes(rules, telemaco, chromium, ms[k])
    requires forall k, l :: 0 <= k < l < |ms| ==> ms[k].nodeIndex < ms[l].nodeIndex
    ensures |ms| > 0 && ms[|ms| - 1].nodeIndex < n ==> |ms| <= Differing(telemaco, chromium, n)
  {
    if |ms| > 0 && ms[|ms| - 1].nodeIndex < n {
      var last := ms[|ms| - 1];
      DescribesDiffers(rules, telemaco, chromium, last);
      if last.nodeIndex == n - 1 {
        NoMoreThanDiffering(rules, telemaco, chromium, ms[..|ms| - 1], n - 1);
      } else {
        NoMoreThanDiffering(rules, telemaco, chromium, ms, n - 1);
      }
    }
  }

  /** As many mismatches as positions: the last one is at the last position that differs. */
  lemma LastListed(rules: Rules, telemaco: seq<string>, chromium: seq<string>, ms: seq<Mismatch>, n: nat)
    requires Lists(rules, telemaco, chromium, ms, n) && n > 0 && telemaco[n - 1] != chromium[n - 1]
    ensures |ms| > 0 && ms[|ms| - 1].nodeIndex == n - 1
    ensures Lists(rules, telemaco, chromium, ms[..|ms| - 1], n - 1)
  {
    NoMoreThanDiffering(rules, telemaco, chromium, ms, n - 1);
  }

  lemma {:induction false} FlagsAreCount(rules: Rules, telemaco: seq<string>, chromium: seq<string>, ms: seq<Mismatch>,
                                         n: nat)
    requires Lists(rules, telemaco, chromium, ms, n)
    requires forall m :: m in ms ==> (m.normalizedAsVolatile <==> rules.Volatile(telemaco, chromium, m.nodeIndex))
    ensures Flags(ms) == rules.VolatileCount(telemaco, chromium, n)
  {
    hide Rules.Volatile, Describes;
    if n > 0 {
      VolatileDiffers(rules, telemaco, chromium, n - 1);
      if telemaco[n - 1] == chromium[n - 1] {
        ListWithout(rules, telemaco, chromium, ms, n);
        FlagsAreCount(rules, telemaco, chromium, ms, n - 1);
      } else {
        LastListed(rules, telemaco, chromium, ms, n);
        FlagsAreCount(rules, telemaco, chromium, ms[..|ms| - 1], n - 1);
      }
    }
  }

  lemma {:induction false} CountAtMostDiffering(rules: Rules, telemaco: seq<string>, chromium: seq<string>, n: nat)
    requires n <= |telemaco| == |chromium|
    ensures rules.VolatileCount(telemaco, chromium, n) <= Differing(telemaco, chromium, n)
  {
    hide Rules.Volatile;
    if n > 0 {
      VolatileDiffers(rules, telemaco, chromium, n - 1);
      CountAtMostDiffering(rules, telemaco, chromium, n - 1);
    }
  }

  /** Nothing is left over exactly if every difference satisfies the rule. */
  lemma {:induction false} AllVolatile(rules: Rules, telemaco: seq<string>, chromium: seq<string>, n: nat)
    requires n <= |telemaco| == |chromium|
    ensures rules.VolatileCount(telemaco, chromium, n) == Differing(telemaco, chromium, n) <==>
            forall i :: 0 <= i < n && telemaco[i] != chromium[i] ==> rules.Volatile(telemaco, chromium, i)
  {
    hide Rules.Volatile;
    if n > 0 {
      VolatileDiffers(rules, telemaco, chromium, n - 1);
      CountAtMostDiffering(rules, telemaco, chromium, n - 1);
      AllVolatile(rules, telemaco, chromium, n - 1);
    }
  }

  ghost predicate AllExcused(rules: Rules, telemaco: seq<string>, chromium: seq<string>) {
    && |telemaco| == |chromium|
    && forall i :: 0 <= i < |telemaco| && telemaco[i] != chromium[i] ==> rules.Volatile(telemaco, chromium, i)
  }

  /** What the comparison of lists of one length gives: the positions that differ, each with its split and flag, both
    * counts, and the verdict. */
  ghost predicate Compared(rules: Rules, telemaco: seq<string>, chromium: seq<string>, result: IdComparison) {
    && Lists(rules, telemaco, chromium, result.mismatches, |telemaco|)
    && (forall m :: m in result.mismatches ==>
          (m.normalizedAsVolatile <==> rules.Volatile(telemaco, chromium, m.nodeIndex)))
    && result.normalizedCount == rules.VolatileCount(telemaco, chromium, |telemaco|)
    && result.normalizedCount + result.semanticCount == Differing(telemaco, chromium, |telemaco|)
    && (result.comparable <==> AllExcused(rules, telemaco, chromium))
  }

  lemma ApartDiffers(v: Variance, w: Variance)
    requires v.Apart(w)
    ensures (w.prefix, w.suffix) != (v.prefix, v.suffix)
  {
  }

  lemma PrefixOfId(a: string, b: string, v: Variance)
    requires IsSplit(a, b, v)
    ensures |v.prefix| <= |a| && forall k :: 0 <= k < |v.prefix| ==> v.prefix[k] == a[k]
  {
  }

  lemma ClashHasMarker(v: Variance, w: Variance, x: string)
    requires v.ClashesBy(w, x)
    ensures exists k :: 0 <= k < |w.prefix| && w.prefix[k] == '<'
  {
    assert w.prefix[|v.prefix|] == '<';
  }

  lemma PlainIsApart(a: string, b: string, v: Variance, a': string, b': string, w: Variance)
    requires IsSplit(a, b, v) && IsSplit(a', b', w) && (w.prefix, w.suffix) != (v.prefix, v.suffix)
    requires (forall k :: 0 <= k < |a| ==> a[k] != '<') && forall k :: 0 <= k < |a'| ==> a'[k] != '<'
    ensures v.Apart(w)
  {
    PrefixOfId(a, b, v);
    PrefixOfId(a', b', w);
    hide IsSplit;
    forall x ensures !v.ClashesBy(w, x) && !w.ClashesBy(v, x) {
      if v.ClashesBy(w, x) {
        ClashHasMarker(v, w, x);
      }
      if w.ClashesBy(v, x) {
        ClashHasMarker(w, v, x);
      }
    }
  }

  /** Where no id has the character '<', a difference is excused exactly if its salts look generated and another
    * position that looks generated has the same salts and another prefix or suffix. */
  lemma ExcusedIffSaltsRecur(rules: Rules, telemaco: seq<string>, chromium: seq<string>, result: IdComparison,
                             m: Mismatch)
    requires |telemaco| == |chromium| && Compared(rules, telemaco, chromium, result) && m in result.mismatches
    requires forall id, k :: id in telemaco && 0 <= k < |id| ==> id[k] != '<'
    ensures m.nodeIndex < |telemaco|
    ensures m.normalizedAsVolatile <==>
            exists v, w, j: nat ::
              && j < |telemaco| && j != m.nodeIndex
              && IsSplit(telemaco[m.nodeIndex], chromium[m.nodeIndex], v) && rules.Generated(v)
              && IsSplit(telemaco[j], chromium[j], w) && rules.Generated(w)
              && (w.telemacoSalt, w.chromiumSalt) == (v.telemacoSalt, v.chromiumSalt)
              && (w.prefix, w.suffix) != (v.prefix, v.suffix)
  {
    hide IsSplit, Variance.Apart, Rules.Generated;
    var i := m.nodeIndex;
    if m.normalizedAsVolatile {
      var v :| rules.Candidate(telemaco[i], chromium[i], v) && rules.Recurs(telemaco, chromium, v);
      var j: nat, w :| j < |telemaco| && rules.Repeats(telemaco, chromium, j, v, w);
      ApartDiffers(v, w);
      if j == i {
        SplitIsUnique(telemaco[i], chromium[i], v, w);
      }
    }
    if v, w, j: nat :|
       && j < |telemaco| && j != i
       && IsSplit(telemaco[i], chromium[i], v) && rules.Generated(v)
       && IsSplit(telemaco[j], chromium[j], w) && rules.Generated(w)
       && (w.telemacoSalt, w.chromiumSalt) == (v.telemacoSalt, v.chromiumSalt)
       && (w.prefix, w.suffix) != (v.prefix, v.suffix) {
      PlainIsApart(telemaco[i], chromium[i], v, telemaco[j], chromium[j], w);
      assert rules.Candidate(telemaco[i], chromium[i], v) && rules.Repeats(telemaco, chromium, j, v, w);
    }
  }

  lemma DescribedOnce(rules: Rules, telemaco: seq<string>, chromium: seq<string>, m: Mismatch, m': Mismatch)
    requires Describes(rules, telemaco, chromium, m) && Describes(rules, telemaco, chromium, m')
    requires m.nodeIndex == m'.nodeIndex && m.normalizedAsVolatile == m'.normalizedAsVolatile
    ensures m == m'
  {
    hide IsSplit;
    if m.variance.Some? && m'.variance.Some? {
      SplitIsUnique(m.telemacoId, m.chromiumId, m.variance.value, m'.variance.value);
    }
  }

  lemma {:induction false} ListedOnce(rules: Rules, telemaco: seq<string>, chromium: seq<string>, ms: seq<Mismatch>,
                                      ms': seq<Mismatch>, n: nat)
    requires Lists(rules, telemaco, chromium, ms, n) && Lists(rules, telemaco, chromium, ms', n)
    requires forall m :: m in ms ==> (m.normalizedAsVolatile <==> rules.Volatile(telemaco, chromium, m.nodeIndex))
    requires forall m :: m in ms' ==> (m.normalizedAsVolatile <==> rules.Volatile(telemaco, chromium, m.nodeIndex))
    ensures ms == ms'
  {
    hide Rules.Volatile, Describes;
    if n > 0 {
      if telemaco[n - 1] == chromium[n - 1] {
        ListWithout(rules, telemaco, chromium, ms, n);
        ListWithout(rules, telemaco, chromium, ms', n);
        ListedOnce(rules, telemaco, chromium, ms, ms', n - 1);
      } else {
        LastListed(rules, telemaco, chromium, ms, n);
        LastListed(rules, telemaco, chromium, ms', n);
        ListedOnce(rules, telemaco, chromium, ms[..|ms| - 1], ms'[..|ms'| - 1], n - 1);
        DescribedOnce(rules, telemaco, chromium, ms[|ms| - 1], ms'[|ms'| - 1]);
        assert ms == ms[..|ms| - 1] + [ms[|ms| - 1]] && ms' == ms'[..|ms'| - 1] + [ms'[|ms'| - 1]];
      }
    }
  }

  /** The comparison has just one result. */
  lemma ComparedOnce(rules: Rules, telemaco: seq<string>, chromium: seq<string>, r: IdComparison, r': IdComparison)
    requires Compared(rules, telemaco, chromium, r) && Compared(rules, telemaco, chromium, r')
    ensures r == r'
  {
    hide Lists, Rules.Volatile;
    ListedOnce(rules, telemaco, chromium, r.mismatches, r'.mismatches, |telemaco|);
  }

  lemma {:induction false} DifferingSymmetric(telemaco: seq<string>, chromium: seq<string>, n: nat)
    requires n <= |telemaco| == |chromium|
    ensures Differing(telemaco, chromium, n) == Differing(chromium, telemaco, n)
  {
    if n > 0 {
      DifferingSymmetric(telemaco, chromium, n - 1);
    }
  }

  /** The first pass: the positions that differ, and the fingerprints found under each pair of salts. */
  method CollectMismatches(rules: Rules, telemaco: seq<string>, chromium: seq<string>)
    returns (mismatches: seq<Mismatch>, mappingFingerprints: map<Salts, set<string>>)
    requires |telemaco| == |chromium|
    ensures Lists(rules, telemaco, chromium, mismatches, |telemaco|)
    ensures Collected(rules, telemaco, chromium, |telemaco|, mappingFingerprints)
  {
    hide Collected, IsSplit, Lists;
    mismatches, mappingFingerprints := [], map[];
    ListStart(rules, telemaco, chromium);
    for index := 0 to |telemaco|
      invariant Lists(rules, telemaco, chromium, mismatches, index)
      invariant Collected(rules, telemaco, chromium, index, mappingFingerprints)
    {
      var a, b := telemaco[index], chromium[index];
      if a == b {
        SkipEqual(rules, telemaco, chromium, mismatches, index, mappingFingerprints);
      } else {
        var variance := SplitGeneratedIdVariance(a, b);
        var candidate := false;
        if variance.Some? {
          candidate := rules.GeneratedSaltCandidate(variance.value);
        }
        var mismatch := Mismatch(index, a, b, false, variance, rules.GeneratedNamespace(variance), candidate);
        ghost var before := mappingFingerprints;
        if candidate {
          var mapping := (variance.value.telemacoSalt, variance.value.chromiumSalt);
          var known := if mapping in mappingFingerprints then mappingFingerprints[mapping] else {};
          mappingFingerprints := mappingFingerprints[mapping := known + {variance.value.NormalizedFingerprint()}];
        }
        ListNext(rules, telemaco, chromium, mismatches, mismatch, index);
        CollectNext(rules, telemaco, chromium, mismatch, index, before, mappingFingerprints);
        mismatches := mismatches + [mismatch];
      }
    }
  }

  /** Compare position by position; a difference that looks generated is excused if its salts recur under another
    * fingerprint. */
  method CompareGeometryDomIds(rules: Rules, telemaco: seq<string>, chromium: seq<string>)
    returns (result: IdComparison)
    ensures |telemaco| != |chromium| ==> result == IdComparison(false, [], 0, 0)
    ensures |telemaco| == |chromium| ==> Compared(rules, telemaco, chromium, result)
  {
    hide Collected, Rules.Volatile, IsSplit, Lists;
    if |telemaco| != |chromium| {
      return IdComparison(false, [], 0, 0);
    }
    var n := |telemaco|;
    var mismatches, mappingFingerprints := CollectMismatches(rules, telemaco, chromium);
    var normalizedCount;
    mismatches, normalizedCount := FlagMismatches(rules, telemaco, chromium, mismatches, mappingFingerprints);
    FlagsAreCount(rules, telemaco, chromium, mismatches, n);
    AllVolatile(rules, telemaco, chromium, n);
    CountAtMostDiffering(rules, telemaco, chromium, n);
    ListCount(rules, telemaco, chromium, mismatches, n);
    var semanticCount := |mismatches| - normalizedCount;
    result := IdComparison(semanticCount == 0, mismatches, normalizedCount, semanticCount);
  }

  /** Verdict and counts are the same with the two engines exchanged, and never is exactly one difference excused. */
  lemma SwappedEngines(rules: Rules, telemaco: seq<string>, chromium: seq<string>)
    requires |telemaco| == |chromium|
    ensures AllExcused(rules, telemaco, chromium) <==> AllExcused(rules, chromium, telemaco)
    ensures rules.VolatileCount(telemaco, chromium, |telemaco|) == rules.VolatileCount(chromium, telemaco, |telemaco|)
    ensures rules.VolatileCount(telemaco, chromium, |telemaco|) != 1
  {
    hide Rules.Volatile;
    rules.VolatileCountSymmetric(telemaco, chromium, |telemaco|);
    rules.VolatileCountNotOne(telemaco, chromium);
    forall i: nat | i < |telemaco|
      ensures rules.Volatile(telemaco, chromium, i) <==> rules.Volatile(chromium, telemaco, i)
    {
      rules.SwapsVolatile(telemaco, chromium, i);
      rules.SwapsVolatile(chromium, telemaco, i);
    }
  }

  /** With the engines exchanged, both counts and the verdict are the same. */
  lemma ComparedSymmetric(rules: Rules, telemaco: seq<string>, chromium: seq<string>, r: IdComparison, r': IdComparison)
    requires Compared(rules, telemaco, chromium, r) && Compared(rules, chromium, telemaco, r')
    ensures r.normalizedCount == r'.normalizedCount && r.semanticCount == r'.semanticCount
    ensures r.comparable == r'.comparable && |r.mismatches| == |r'.mismatches|
    ensures r.normalizedCount != 1
  {
    SwappedEngines(rules, telemaco, chromium);
    DifferingSymmetric(telemaco, chromium, |telemaco|);
  }
}
