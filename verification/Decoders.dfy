/** Decoding of numbers, trees of numbers and columns of items, with references back to recent items. */
module Decoders {
  import opened Basics

  // ---------- Numbers ----------

  /** The value of a 32-bit signed integer operation. */
  function ToInt32(n: int): int {
    (n + 0x8000_0000) % 0x1_0000_0000 - 0x8000_0000
  }

  /** Reading digits below 96 and one more, each giving four bits; past the end the digit is 0. */
  function ReadNumber(s: seq<int>, n: int): (int, seq<int>) {
    if s == [] then (ToInt32(n * 16), [])
    else
      var m := ToInt32(n * 16) + s[0] % 16;
      if s[0] < 96 then ReadNumber(s[1..], m) else (m, s[1..])
  }

  function Leading(n: nat): seq<int> {
    if n == 0 then [] else Leading(n / 16) + [64 + n % 16]
  }

  /** A number in digits of four bits; the last one is marked. */
  function Print(n: nat): seq<int> {
    Leading(n / 16) + [96 + n % 16]
  }

  lemma ModUnique(x: int, q: int, r: int)
    requires x == q * 0x1_0000_0000 + r && 0 <= r < 0x1_0000_0000
    ensures x % 0x1_0000_0000 == r
  {
  }

  lemma ShiftWraps(n: int, d: int)
    requires 0 <= d < 16
    ensures ToInt32(ToInt32(n) * 16) + d == ToInt32(n * 16 + d)
  {
    var k := (n + 0x8000_0000) / 0x1_0000_0000;
    ModUnique(n + 0x8000_0000, k, n + 0x8000_0000 - k * 0x1_0000_0000);
    var q := (n + 0x800_0000) / 0x1000_0000;
    var r := n + 0x800_0000 - q * 0x1000_0000;
    ModUnique(n * 16 + d + 0x8000_0000, q, 16 * r + d);
    ModUnique(ToInt32(n) * 16 + 0x8000_0000, q - 16 * k, 16 * r);
  }

  lemma LeadingStep(n: nat)
    requires n > 0
    ensures Leading(n) == Leading(n / 16) + [64 + n % 16] && n / 16 * 16 + n % 16 == n && (64 + n % 16) % 16 == n % 16
  {
  }

  lemma ReadOne(digit: int, rest: seq<int>, n: int)
    ensures ReadNumber([digit] + rest, n) ==
            var m := ToInt32(n * 16) + digit % 16;
            if digit < 96 then ReadNumber(rest, m) else (m, rest)
  {
    assert ([digit] + rest)[1..] == rest;
  }

  lemma ToInt32Small(n: int)
    ensures ToInt32(n) == n <==> -0x8000_0000 <= n < 0x8000_0000
  {
  }

  lemma {:induction false} ReadLeading(n: nat, rest: seq<int>)
    ensures ReadNumber(Leading(n) + rest, 0) == ReadNumber(rest, ToInt32(n))
  {
    hide ToInt32;
    if n == 0 {
      assert Leading(n) + rest == rest;
      ToInt32Small(0);
    } else {
      hide Leading;
      LeadingStep(n);
      var digit := 64 + n % 16;
      assert Leading(n) + rest == Leading(n / 16) + ([digit] + rest);
      ReadLeading(n / 16, [digit] + rest);
      ReadOne(digit, rest, ToInt32(n / 16));
      ShiftWraps(n / 16, n % 16);
    }
  }

  lemma LastDigit(n: nat, rest: seq<int>)
    ensures Print(n) + rest == Leading(n / 16) + ([96 + n % 16] + rest)
    ensures n / 16 * 16 + n % 16 == n && (96 + n % 16) % 16 == n % 16 && !(96 + n % 16 < 96)
  {
  }

  /** Reading a printed number stops just past it, with the number as a signed 32-bit integer. */
  lemma ReadPrinted(n: nat, rest: seq<int>)
    ensures ReadNumber(Print(n) + rest, 0) == (ToInt32(n), rest)
  {
    hide ToInt32, Print, Leading, ReadNumber;
    LastDigit(n, rest);
    ReadLeading(n / 16, [96 + n % 16] + rest);
    ReadOne(96 + n % 16, rest, ToInt32(n / 16));
    ShiftWraps(n / 16, n % 16);
  }

  lemma {:induction false} ReadShrinks(s: seq<int>, n: int)
    ensures s != [] ==> |ReadNumber(s, n).1| < |s|
    ensures |ReadNumber(s, n).1| <= |s|
  {
    if s != [] && s[0] < 96 {
      ReadShrinks(s[1..], ToInt32(n * 16) + s[0] % 16);
    }
  }

  lemma {:induction false} LeadingStart(n: nat)
    ensures n == 0 <==> Leading(n) == []
    ensures n > 0 ==> 64 <= Leading(n)[0] < 80
  {
    if n > 0 {
      LeadingStart(n / 16);
    }
  }

  /** A printed number starts neither like a back reference nor like a list. */
  lemma {:induction false} PrintStart(n: nat)
    ensures Print(n) != [] && 64 <= Print(n)[0] < 112
    ensures Print(n)[0] == 96 <==> n == 0
  {
    LeadingStart(n / 16);
  }

  // ---------- Trees of signed numbers ----------

  datatype Tree = Leaf(value: int) | List(elements: seq<Tree>)

  /** The low bit is the sign. */
  function Signed(n: int): int {
    if n % 2 == 1 then -(n / 2) else n / 2
  }

  function Unsigned(v: int): nat {
    if v < 0 then -2 * v + 1 else 2 * v
  }

  /** The sign bit leaves thirty bits: numbers come back exactly if they fit. */
  lemma SignedRoundTrip(v: int)
    ensures Signed(ToInt32(Unsigned(v))) == v <==> -0x4000_0000 < v < 0x4000_0000
  {
  }

  function PrintTree(t: Tree): seq<int> {
    match t
    case Leaf(v) => Print(Unsigned(v))
    case List(ts) => [123] + PrintTrees(ts) + [125]
  }

  function PrintTrees(ts: seq<Tree>): seq<int> {
    if ts == [] then [] else PrintTree(ts[0]) + PrintTrees(ts[1..])
  }

  predicate Fits(t: Tree) {
    match t
    case Leaf(v) => -0x4000_0000 < v < 0x4000_0000
    case List(ts) => forall i :: 0 <= i < |ts| ==> Fits(ts[i])
  }

  function Leaves(t: Tree): nat {
    match t
    case Leaf(_) => 1
    case List(ts) => LeavesOf(ts)
  }

  function LeavesOf(ts: seq<Tree>): nat {
    if ts == [] then 0 else Leaves(ts[0]) + LeavesOf(ts[1..])
  }

  /** The tree with every number cut to the bits it has room for. */
  function Wrapped(t: Tree): Tree {
    match t
    case Leaf(v) => Leaf(Signed(ToInt32(Unsigned(v))))
    case List(ts) => List(WrappedAll(ts))
  }

  function WrappedAll(ts: seq<Tree>): (r: seq<Tree>)
    ensures |r| == |ts|
    ensures forall i :: 0 <= i < |ts| ==> r[i] == Wrapped(ts[i])
  {
    if ts == [] then [] else [Wrapped(ts[0])] + WrappedAll(ts[1..])
  }

  /** Nothing is cut exactly if all numbers fit. */
  lemma {:induction false} WrappedIffFits(t: Tree)
    ensures Wrapped(t) == t <==> Fits(t)
  {
    match t
    case Leaf(v) => SignedRoundTrip(v);
    case List(ts) =>
      forall i | 0 <= i < |ts| ensures Wrapped(ts[i]) == ts[i] <==> Fits(ts[i]) {
        WrappedIffFits(ts[i]);
      }
      assert Wrapped(t) == t <==> WrappedAll(ts) == ts;
  }

  /** What decoding gives, and the text after it; None where a list is not closed. */
  function Decoded(s: seq<int>): (r: Option<(Tree, seq<int>)>)
    ensures r.Some? && s != [] ==> |r.value.1| < |s|
    decreases |s|, 0
  {
    if s != [] && s[0] == 123 then
      match DecodedList(s[1..])
      case None => None
      case Some((ts, rest)) => Some((List(ts), rest))
    else
      ReadShrinks(s, 0);
      var (n, rest) := ReadNumber(s, 0);
      Some((Leaf(Signed(n)), rest))
  }

  function DecodedList(s: seq<int>): (r: Option<(seq<Tree>, seq<int>)>)
    ensures r.Some? ==> |r.value.1| < |s|
    decreases |s|, 1
  {
    if s == [] then None
    else if s[0] == 125 then Some(([], s[1..]))
    else
      match Decoded(s)
      case None => None
      case Some((t, rest)) =>
        match DecodedList(rest)
        case None => None
        case Some((ts, rest')) => Some(([t] + ts, rest'))
  }

  lemma PrintTreeStart(t: Tree)
    ensures |PrintTree(t)| > 0 && PrintTree(t)[0] != 125 && !(48 <= PrintTree(t)[0] < 64)
    ensures PrintTree(t)[0] == 123 <==> t.List?
    ensures PrintTree(t)[0] == 96 <==> t == Leaf(0)
  {
    if t.Leaf? {
      PrintStart(Unsigned(t.value));
    }
  }

  lemma {:induction false} DecodedIsWrapped(t: Tree, rest: seq<int>)
    ensures Decoded(PrintTree(t) + rest) == Some((Wrapped(t), rest))
  {
    hide ReadNumber, Print, Signed, ToInt32;
    PrintTreeStart(t);
    match t
    case Leaf(v) =>
      ReadPrinted(Unsigned(v), rest);
    case List(ts) =>
      assert (PrintTree(t) + rest)[1..] == PrintTrees(ts) + ([125] + rest);
      DecodedListIsWrapped(ts, rest);
  }

  /** Decoding a printed tree stops just past it, and gives the tree back exactly if all its numbers fit. */
  lemma TreeRoundTrip(t: Tree, rest: seq<int>)
    ensures Decoded(PrintTree(t) + rest) == Some((t, rest)) <==> Fits(t)
    ensures Decoded(PrintTree(t) + rest) == Some((Wrapped(t), rest))
  {
    WrappedIffFits(t);
    DecodedIsWrapped(t, rest);
  }

  lemma {:induction false} DecodedListIsWrapped(ts: seq<Tree>, rest: seq<int>)
    ensures DecodedList(PrintTrees(ts) + ([125] + rest)) == Some((WrappedAll(ts), rest))
  {
    hide Decoded, PrintTree, Wrapped;
    var end := [125] + rest;
    if ts == [] {
      assert PrintTrees(ts) + end == end && end[1..] == rest;
    } else {
      assert PrintTrees(ts) + end == PrintTree(ts[0]) + (PrintTrees(ts[1..]) + end);
      PrintTreeStart(ts[0]);
      assert (PrintTrees(ts) + end)[0] == PrintTree(ts[0])[0];
      DecodedIsWrapped(ts[0], PrintTrees(ts[1..]) + end);
      DecodedListIsWrapped(ts[1..], rest);
    }
  }

  // ---------- When decoding does not return ----------

  /** The source's decoding, in at most so many calls and turns of its loop.  It has no case for the end of the text:
    * there it reads on, and no character is the closing brace. */
  function DecodedWithin(s: seq<int>, steps: nat): Option<(Tree, seq<int>)>
    decreases steps
  {
    if steps == 0 then None
    else if s != [] && s[0] == 123 then
      match DecodedListWithin(s[1..], steps - 1)
      case None => None
      case Some((ts, rest)) => Some((List(ts), rest))
    else
      var (n, rest) := ReadNumber(s, 0);
      Some((Leaf(Signed(n)), rest))
  }

  function DecodedListWithin(s: seq<int>, steps: nat): Option<(seq<Tree>, seq<int>)>
    decreases steps
  {
    if steps == 0 then None
    else if s != [] && s[0] == 125 then Some(([], s[1..]))
    else
      match DecodedWithin(s, steps - 1)
      case None => None
      case Some((t, rest)) =>
        match DecodedListWithin(rest, steps - 1)
        case None => None
        case Some((ts, rest')) => Some(([t] + ts, rest'))
  }

  /** Past the end of the text, a turn of the loop reads a zero and is past the end again. */
  lemma PastTheEnd(steps: nat)
    ensures steps > 0 ==> DecodedWithin([], steps) == Some((Leaf(0), []))
    ensures DecodedListWithin([], steps) == None
  {
  }

  lemma {:induction false} NeverReturns(s: seq<int>, steps: nat)
    ensures Decoded(s) == None ==> DecodedWithin(s, steps) == None
    ensures Decoded(s) != None && DecodedWithin(s, steps) != None ==> DecodedWithin(s, steps) == Decoded(s)
    decreases steps, 0
  {
    if steps > 0 && s != [] && s[0] == 123 {
      ListNeverReturns(s[1..], steps - 1);
    }
  }

  lemma {:induction false} ListNeverReturns(s: seq<int>, steps: nat)
    ensures DecodedList(s) == None ==> DecodedListWithin(s, steps) == None
    ensures DecodedList(s) != None && DecodedListWithin(s, steps) != None ==>
            DecodedListWithin(s, steps) == DecodedList(s)
    decreases steps, 1
  {
    PastTheEnd(steps);
    if steps > 0 && s != [] && s[0] != 125 {
      NeverReturns(s, steps - 1);
      if Decoded(s) != None {
        ListNeverReturns(Decoded(s).value.1, steps - 1);
      }
    }
  }

  lemma {:induction false} ReturnsInTime(s: seq<int>, steps: nat)
    requires steps >= 2 * |s| + 1
    ensures Decoded(s) != None ==> DecodedWithin(s, steps) == Decoded(s)
    decreases steps, 0
  {
    if s != [] && s[0] == 123 {
      ListReturnsInTime(s[1..], steps - 1);
    }
  }

  lemma {:induction false} ListReturnsInTime(s: seq<int>, steps: nat)
    requires steps >= 2 * |s| + 2
    ensures DecodedList(s) != None ==> DecodedListWithin(s, steps) == DecodedList(s)
    decreases steps, 1
  {
    if s != [] && s[0] != 125 {
      ReturnsInTime(s, steps - 1);
      if Decoded(s) != None {
        ListReturnsInTime(Decoded(s).value.1, steps - 1);
      }
    }
  }

  /** Nothing is decoded exactly where the source does not return in any number of steps; what is decoded, it
    * returns. */
  lemma NothingDecodedIsDivergence(s: seq<int>)
    ensures Decoded(s) == None <==> forall steps :: DecodedWithin(s, steps) == None
    ensures forall steps :: DecodedWithin(s, steps) != None ==> DecodedWithin(s, steps) == Decoded(s)
  {
    forall steps: nat
      ensures Decoded(s) == None ==> DecodedWithin(s, steps) == None
      ensures DecodedWithin(s, steps) != None ==> DecodedWithin(s, steps) == Decoded(s)
    {
      NeverReturns(s, steps);
    }
    ReturnsInTime(s, 2 * |s| + 1);
  }

  /** In one pass over the text that counts braces and skips numbers, the depth never comes down to zero. */
  predicate Unclosed(s: seq<int>, depth: nat)
    decreases |s|
  {
    if depth == 0 then false
    else if s == [] then true
    else if s[0] == 123 then Unclosed(s[1..], depth + 1)
    else if s[0] == 125 then Unclosed(s[1..], depth - 1)
    else
      ReadShrinks(s, 0);
      Unclosed(ReadNumber(s, 0).1, depth)
  }

  lemma {:induction false} UnclosedTree(s: seq<int>, depth: nat)
    requires depth > 0 && s != [] && s[0] != 125
    ensures Decoded(s) == None ==> Unclosed(s, depth)
    ensures Decoded(s) != None ==> (Unclosed(s, depth) <==> Unclosed(Decoded(s).value.1, depth))
    decreases |s|, 0
  {
    hide ReadNumber;
    if s[0] == 123 {
      UnclosedList(s[1..], depth);
    }
  }

  lemma {:induction false} UnclosedList(s: seq<int>, depth: nat)
    ensures DecodedList(s) == None ==> Unclosed(s, depth + 1)
    ensures DecodedList(s) != None ==> (Unclosed(s, depth + 1) <==> Unclosed(DecodedList(s).value.1, depth))
    decreases |s|, 1
  {
    hide ReadNumber;
    if s != [] && s[0] != 125 {
      UnclosedTree(s, depth + 1);
      if Decoded(s) != None {
        UnclosedList(Decoded(s).value.1, depth);
      }
    }
  }

  lemma ClosedAtZero()
    ensures forall rest: seq<int> :: !Unclosed(rest, 0)
  {
  }

  /** Decoding does not return exactly on a list that is never closed. */
  lemma DivergesIffUnclosed(s: seq<int>)
    ensures (forall steps :: DecodedWithin(s, steps) == None) <==> s != [] && s[0] == 123 && Unclosed(s[1..], 1)
  {
    hide Unclosed, DecodedList, DecodedWithin;
    NothingDecodedIsDivergence(s);
    ClosedAtZero();
    if s != [] && s[0] == 123 {
      UnclosedList(s[1..], 0);
    }
  }

  /** An opening brace alone is such a text. */
  lemma OpenBraceDiverges()
    ensures forall steps :: DecodedWithin([123], steps) == None
  {
    assert [123][1..] == [];
    DivergesIffUnclosed([123]);
  }

  // ---------- Recent items ----------

  /** A new item goes in front; only sixteen are kept. */
  function Remember<T>(queue: seq<T>, item: T): seq<T> {
    var longer := [item] + queue;
    if |longer| > 16 then longer[..|longer| - 1] else longer
  }

  /** How a printer may write an item: in full, or as a reference to a recent one. */
  datatype Token<T> = Reference(index: nat) | Literal(item: T)

  /** References have one digit. */
  predicate References<T(==)>(tokens: seq<Token<T>>) {
    forall token :: token in tokens && token.Reference? ==> token.index < 16
  }

  /** The k-th item back from the last one written in full. */
  function Back<T>(written: seq<T>, k: nat): Option<T> {
    if k < |written| then Some(written[|written| - 1 - k]) else None
  }

  /** The items the tokens stand for, behind those written in full before. */
  function Meant<T>(tokens: seq<Token<T>>, written: seq<T>): seq<Option<T>> {
    if tokens == [] then []
    else
      match tokens[0]
      case Reference(k) => [Back(written, k)] + Meant(tokens[1..], written)
      case Literal(x) => [Some(x)] + Meant(tokens[1..], written + [x])
  }

  /** The queue has the last items written, up to sixteen, the last one first. */
  ghost predicate IsRecent<T(!new)>(queue: seq<T>, written: seq<T>) {
    && |queue| == (if |written| < 16 then |written| else 16)
    && forall k :: 0 <= k < |queue| ==> queue[k] == written[|written| - 1 - k]
  }

  lemma RememberIsRecent<T(!new)>(queue: seq<T>, written: seq<T>, item: T)
    requires IsRecent(queue, written)
    ensures IsRecent(Remember(queue, item), written + [item])
  {
  }

  lemma RecentIsBack<T(!new)>(queue: seq<T>, written: seq<T>, k: nat)
    requires IsRecent(queue, written) && k < 16
    ensures (if k < |queue| then Some(queue[k]) else None) == Back(written, k)
  {
  }

  // ---------- The decoder ----------

  /** What the next item reads as, with the text and the queue after it; a reference beyond the queue reads as
    * nothing. */
  datatype Read<T> = Read(item: Option<T>, rest: seq<int>, queue: seq<T>) | Stuck

  function NextRead<T>(s: seq<int>, queue: seq<T>, cons: Tree -> T): Read<T> {
    if s != [] && 48 <= s[0] < 64 then
      Read(if s[0] - 48 < |queue| then Some(queue[s[0] - 48]) else None, s[1..], queue)
    else if s != [] && s[0] == 96 then Read(Some(cons(Leaf(0))), s[1..], queue)
    else
      match Decoded(s)
      case None => Stuck
      case Some((t, rest)) => Read(Some(cons(t)), rest, Remember(queue, cons(t)))
  }

  function TextOf(token: Token<Tree>): seq<int> {
    match token
    case Reference(k) => [48 + k]
    case Literal(t) => PrintTree(t)
  }

  function TextOfAll(tokens: seq<Token<Tree>>): seq<int> {
    if tokens == [] then [] else TextOf(tokens[0]) + TextOfAll(tokens[1..])
  }

  ghost predicate TokenFits(token: Token<Tree>) {
    if token.Reference? then token.index < 16 else Fits(token.item)
  }

  /** References have one digit, and numbers fit. */
  ghost predicate Printable(tokens: seq<Token<Tree>>) {
    forall token :: token in tokens ==> TokenFits(token)
  }

  /** What has been written in full after a token: a bare zero does not count. */
  function WrittenWith<T>(written: seq<T>, token: Token<Tree>, cons: Tree -> T): seq<T> {
    if token.Reference? || token.item == Leaf(0) then written else written + [cons(token.item)]
  }

  function WrittenAfter<T>(tokens: seq<Token<Tree>>, written: seq<T>, cons: Tree -> T): seq<T> {
    if tokens == [] then written else WrittenAfter(tokens[1..], WrittenWith(written, tokens[0], cons), cons)
  }

  function ItemOf<T>(token: Token<Tree>, written: seq<T>, cons: Tree -> T): Option<T> {
    match token
    case Reference(k) => Back(written, k)
    case Literal(t) => Some(cons(t))
  }

  /** The items that tokens stand for, behind those written in full before. */
  function ItemsOf<T>(tokens: seq<Token<Tree>>, written: seq<T>, cons: Tree -> T): seq<Option<T>> {
    if tokens == [] then []
    else [ItemOf(tokens[0], written, cons)] + ItemsOf(tokens[1..], WrittenWith(written, tokens[0], cons), cons)
  }

  /** What n calls give, with the text and the queue after them; None where one does not return. */
  function ItemsRead<T>(s: seq<int>, queue: seq<T>, cons: Tree -> T, n: nat)
    : Option<((seq<Option<T>>, seq<T>), seq<int>)>
    decreases n
  {
    if n == 0 then Some((([], queue), s))
    else
      match NextRead(s, queue, cons)
      case Stuck => None
      case Read(item, rest, queue') =>
        match ItemsRead(rest, queue', cons, n - 1)
        case None => None
        case Some(((items, after), rest')) => Some((([item] + items, after), rest'))
  }

  lemma ZeroIsShort()
    ensures |PrintTree(Leaf(0))| == 1
  {
  }

  /** Text written with references or in full reads as the item meant, and decoding stops just past it. */
  lemma NextRoundTrip<T(!new)>(token: Token<Tree>, rest: seq<int>, queue: seq<T>, written: seq<T>, cons: Tree -> T)
    requires TokenFits(token) && IsRecent(queue, written)
    ensures var read := NextRead(TextOf(token) + rest, queue, cons);
            && read.Read? && read.item == ItemOf(token, written, cons) && read.rest == rest
            && IsRecent(read.queue, WrittenWith(written, token, cons))
  {
    hide Decoded, PrintTree, Fits, Remember, IsRecent, Back;
    var s := TextOf(token) + rest;
    match token
    case Reference(k) =>
      RecentIsBack(queue, written, k);
      assert s[1..] == rest;
    case Literal(t) =>
      PrintTreeStart(t);
      RememberIsRecent(queue, written, cons(t));
      if t == Leaf(0) {
        ZeroIsShort();
        assert s[1..] == rest;
      } else {
        TreeRoundTrip(t, rest);
      }
  }

  /** Reading item after item recovers all that was written, whatever references were used, and stops just past it. */
  lemma {:induction false} ItemsRoundTrip<T(!new)>(tokens: seq<Token<Tree>>, rest: seq<int>, queue: seq<T>,
                                                   written: seq<T>, cons: Tree -> T)
    requires Printable(tokens) && IsRecent(queue, written)
    ensures var read := ItemsRead(TextOfAll(tokens) + rest, queue, cons, |tokens|);
            && read.Some? && read.value.0.0 == ItemsOf(tokens, written, cons) && read.value.1 == rest
            && IsRecent(read.value.0.1, WrittenAfter(tokens, written, cons))
  {
    hide NextRead, TextOf, TokenFits, IsRecent, ItemOf, WrittenWith;
    if tokens == [] {
      assert TextOfAll(tokens) + rest == rest;
    } else {
      var more := TextOfAll(tokens[1..]) + rest;
      assert TextOfAll(tokens) + rest == TextOf(tokens[0]) + more;
      NextRoundTrip(tokens[0], more, queue, written, cons);
      var queue' := NextRead(TextOf(tokens[0]) + more, queue, cons).queue;
      ItemsRoundTrip(tokens[1..], rest, queue', WrittenWith(written, tokens[0], cons), cons);
    }
  }

  /** A list of which the first elements have been read. */
  function Resumed(ts: seq<Tree>, rest: Option<(seq<Tree>, seq<int>)>): Option<(seq<Tree>, seq<int>)> {
    if rest == None then None else Some((ts + rest.value.0, rest.value.1))
  }

  lemma ResumedAll(ts: seq<Tree>, t: Tree, rest: Option<(seq<Tree>, seq<int>)>)
    ensures Resumed([], rest) == rest
    ensures Resumed(ts, Resumed([t], rest)) == Resumed(ts + [t], rest)
  {
    if rest != None {
      assert [] + rest.value.0 == rest.value.0;
      assert ts + ([t] + rest.value.0) == ts + [t] + rest.value.0;
    }
  }

  lemma {:induction false} LeavesAppend(ts: seq<Tree>, t: Tree)
    ensures LeavesOf(ts + [t]) == LeavesOf(ts) + Leaves(t)
  {
    if ts == [] {
      assert ts + [t] == [t];
    } else {
      assert (ts + [t])[1..] == ts[1..] + [t];
      LeavesAppend(ts[1..], t);
    }
  }

  class VlqHexDecoder<T> {
    const text: seq<int>
    const cons: Tree -> T
    var offset: nat
    var elemCount: nat
    var backrefQueue: seq<T>

    constructor (text: seq<int>, cons: Tree -> T)
      ensures this.text == text && this.cons == cons
      ensures Rest() == text && elemCount == 0 && backrefQueue == []
    {
      this.text, this.cons := text, cons;
      offset, elemCount, backrefQueue := 0, 0, [];
    }

    /** The text from the offset on. */
    ghost function Rest(): seq<int>
      reads this
    {
      if offset <= |text| then text[offset..] else []
    }

    /** The elements up to the closing brace. */
    method DecodeList() returns (ret: Option<seq<Tree>>)
      modifies this
      ensures backrefQueue == old(backrefQueue)
      ensures match DecodedList(old(Rest()))
              case None => ret == None
              case Some((ts, rest)) => ret == Some(ts) && Rest() == rest && elemCount == old(elemCount) + LeavesOf(ts)
      decreases |Rest()|, 1
    {
      var ts: seq<Tree> := [];
      ghost var start := Rest();
      ResumedAll([], Leaf(0), DecodedList(start));
      while offset >= |text| || text[offset] != 125
        invariant backrefQueue == old(backrefQueue)
        invariant |Rest()| <= |start| && elemCount == old(elemCount) + LeavesOf(ts)
        invariant DecodedList(start) == Resumed(ts, DecodedList(Rest()))
        decreases |Rest()|
      {
        if offset >= |text| {
          return None;
        }
        ghost var before := Rest();
        var t := Decode();
        if t == None {
          return None;
        }
        LeavesAppend(ts, t.value);
        ResumedAll(ts, t.value, DecodedList(Rest()));
        assert DecodedList(before) == Resumed([t.value], DecodedList(Rest()));
        ts := ts + [t.value];
      }
      offset := offset + 1;
      ret := Some(ts);
      assert ts + [] == ts;
    }

    /** One tree, or nothing where the source does not return. */
    method Decode() returns (t: Option<Tree>)
      modifies this
      ensures backrefQueue == old(backrefQueue)
      ensures match Decoded(old(Rest()))
              case None => t == None
              case Some((tree, rest)) => t == Some(tree) && Rest() == rest && elemCount == old(elemCount) + Leaves(tree)
      ensures old(offset) >= |text| ==> t == Some(Leaf(0)) && offset == old(offset) + 1
      decreases |Rest()|, 0
    {
      ghost var start := Rest();
      if offset < |text| && text[offset] == 123 {
        offset := offset + 1;
        var ts := DecodeList();
        return if ts == None then None else Some(List(ts.value));
      }
      var n := 0;
      while offset < |text| && text[offset] < 96
        invariant ReadNumber(start, 0) == ReadNumber(Rest(), n)
        invariant backrefQueue == old(backrefQueue) && elemCount == old(elemCount)
        invariant old(offset) >= |text| ==> n == 0 && offset == old(offset)
        decreases |Rest()|
      {
        n := ToInt32(n * 16) + text[offset] % 16;
        offset := offset + 1;
      }
      n := ToInt32(n * 16) + if offset < |text| then text[offset] % 16 else 0;
      offset := offset + 1;
      elemCount := elemCount + 1;
      t := Some(Leaf(Signed(n)));
    }

    /** The next item: a recent one, or the one built from the next tree. */
    method Next() returns (result: Option<T>, stuck: bool)
      modifies this
      ensures match NextRead(old(Rest()), old(backrefQueue), cons)
              case Stuck => stuck
              case Read(item, rest, queue) => !stuck && result == item && Rest() == rest && backrefQueue == queue
    {
      stuck, result := false, None;
      if offset < |text| && 48 <= text[offset] < 64 {
        var k := text[offset] - 48;
        offset := offset + 1;
        if k < |backrefQueue| {
          result := Some(backrefQueue[k]);
        }
        return;
      }
      if offset < |text| && text[offset] == 96 {
        offset := offset + 1;
        return Some(cons(Leaf(0))), false;
      }
      var t := Decode();
      if t == None {
        return None, true;
      }
      var item := cons(t.value);
      backrefQueue := [item] + backrefQueue;
      if |backrefQueue| > 16 {
        backrefQueue := backrefQueue[..|backrefQueue| - 1];
      }
      result := Some(item);
    }
  }

  // ---------- Columns ----------

  type Item = seq<int>

  function Preceded(item: Option<Item>, rest: Option<seq<Option<Item>>>): Option<seq<Option<Item>>> {
    if rest == None then None else Some([item] + rest.value)
  }

  /** The items of a column; a reference beyond those remembered reads as nothing.  None where a length reads as
    * negative. */
  function Loaded(s: seq<int>, backrefs: seq<Item>): Option<seq<Option<Item>>>
    decreases |s|
  {
    if s == [] then Some([])
    else if 48 <= s[0] <= 63 then
      var item := if s[0] - 48 < |backrefs| then Some(backrefs[s[0] - 48]) else None;
      Preceded(item, Loaded(s[1..], backrefs))
    else
      ReadShrinks(s, 0);
      var (n, rest) := ReadNumber(s, 0);
      if n < 0 then None
      else
        var length := if n <= |rest| then n else |rest|;
        Preceded(Some(rest[..length]), Loaded(rest[length..], Remember(backrefs, rest[..length])))
  }

  function PrintColumn(tokens: seq<Token<Item>>): seq<int> {
    if tokens == [] then []
    else
      var rest := PrintColumn(tokens[1..]);
      match tokens[0]
      case Reference(k) => [48 + k] + rest
      case Literal(item) => Print(|item|) + item + rest
  }

  lemma NothingLoaded(backrefs: seq<Item>)
    ensures Loaded([], backrefs) == Some([])
  {
  }

  lemma LoadedReference(k: nat, rest: seq<int>, backrefs: seq<Item>, written: seq<Item>)
    requires k < 16 && IsRecent(backrefs, written)
    ensures Loaded([48 + k] + rest, backrefs) == Preceded(Back(written, k), Loaded(rest, backrefs))
  {
    hide IsRecent, Back, ReadNumber;
    RecentIsBack(backrefs, written, k);
    assert ([48 + k] + rest)[1..] == rest;
  }

  lemma LoadedLiteral(item: Item, rest: seq<int>, backrefs: seq<Item>)
    requires |item| < 0x8000_0000
    ensures Loaded(Print(|item|) + item + rest, backrefs) ==
            Preceded(Some(item), Loaded(rest, Remember(backrefs, item)))
  {
    hide ReadNumber, Print, ToInt32, Remember;
    var s := Print(|item|) + item + rest;
    assert s == Print(|item|) + (item + rest);
    PrintStart(|item|);
    assert s[0] == Print(|item|)[0];
    ReadPrinted(|item|, item + rest);
    ToInt32Small(|item|);
    assert (item + rest)[..|item|] == item && (item + rest)[|item|..] == rest;
  }

  /** No item has 2^31 bytes or more. */
  predicate AllShort(tokens: seq<Token<Item>>) {
    tokens == [] || ((tokens[0].Literal? ==> |tokens[0].item| < 0x8000_0000) && AllShort(tokens[1..]))
  }

  /** An item too long for its length to come back is lost. */
  lemma LongLiteral(item: Item, rest: seq<int>, backrefs: seq<Item>)
    requires |item| >= 0x8000_0000
    ensures var loaded := Loaded(Print(|item|) + item + rest, backrefs);
            loaded == None || (loaded.value != [] && loaded.value[0] != Some(item))
  {
    hide ReadNumber, Print, Remember;
    var s := Print(|item|) + item + rest;
    assert s == Print(|item|) + (item + rest);
    PrintStart(|item|);
    assert s[0] == Print(|item|)[0];
    ReadPrinted(|item|, item + rest);
    assert ToInt32(|item|) < 0x8000_0000;
  }

  lemma PrecededSame(item: Option<Item>, rest: Option<seq<Option<Item>>>, items: seq<Option<Item>>)
    ensures Preceded(item, rest) == Some([item] + items) <==> rest == Some(items)
  {
    if rest != None {
      assert ([item] + rest.value)[1..] == rest.value && ([item] + items)[1..] == items;
    }
  }

  lemma NoTokens(written: seq<Item>)
    ensures PrintColumn([]) == [] && Meant([], written) == [] && AllShort([])
  {
  }

  lemma ReferenceStep(tokens: seq<Token<Item>>, written: seq<Item>)
    requires References(tokens) && tokens != [] && tokens[0].Reference?
    ensures tokens[0].index < 16 && References(tokens[1..])
    ensures PrintColumn(tokens) == [48 + tokens[0].index] + PrintColumn(tokens[1..])
    ensures Meant(tokens, written) == [Back(written, tokens[0].index)] + Meant(tokens[1..], written)
    ensures AllShort(tokens) <==> AllShort(tokens[1..])
  {
  }

  lemma LiteralStep(tokens: seq<Token<Item>>, written: seq<Item>)
    requires References(tokens) && tokens != [] && tokens[0].Literal?
    ensures References(tokens[1..])
    ensures PrintColumn(tokens) == Print(|tokens[0].item|) + tokens[0].item + PrintColumn(tokens[1..])
    ensures Meant(tokens, written) == [Some(tokens[0].item)] + Meant(tokens[1..], written + [tokens[0].item])
    ensures AllShort(tokens) <==> |tokens[0].item| < 0x8000_0000 && AllShort(tokens[1..])
  {
    hide Print;
  }

  /** Whatever references the printer chose, loading gives back the items meant, in order, exactly if none has 2^31
    * bytes or more. */
  lemma {:induction false} ColumnRoundTrip(tokens: seq<Token<Item>>, backrefs: seq<Item>, written: seq<Item>)
    requires References(tokens) && IsRecent(backrefs, written)
    ensures Loaded(PrintColumn(tokens), backrefs) == Some(Meant(tokens, written)) <==> AllShort(tokens)
  {
    hide Loaded, Print, Remember, PrintColumn, Meant, AllShort, References, Preceded, IsRecent, Back;
    if tokens == [] {
      NoTokens(written);
      NothingLoaded(backrefs);
    } else {
      var rest := PrintColumn(tokens[1..]);
      match tokens[0]
      case Reference(k) =>
        ReferenceStep(tokens, written);
        LoadedReference(k, rest, backrefs, written);
        ColumnRoundTrip(tokens[1..], backrefs, written);
        PrecededSame(Back(written, k), Loaded(rest, backrefs), Meant(tokens[1..], written));
      case Literal(item) =>
        LiteralStep(tokens, written);
        if |item| < 0x8000_0000 {
          var after := Remember(backrefs, item);
          LoadedLiteral(item, rest, backrefs);
          RememberIsRecent(backrefs, written, item);
          ColumnRoundTrip(tokens[1..], after, written + [item]);
          PrecededSame(Some(item), Loaded(rest, after), Meant(tokens[1..], written + [item]));
        } else {
          LongLiteral(item, rest, backrefs);
        }
    }
  }

  // ---------- Columns by their indexes ----------

  /** A byte outside the data reads as undefined, whose low bits are 0. */
  function LowBits(data: seq<int>, i: int): int {
    if 0 <= i < |data| then data[i] % 16 else 0
  }

  /** A number read from an index on, and the index after it. */
  function ReadFrom(data: seq<int>, i: int, n: int): (int, int)
    decreases |data| - i
  {
    var m := ToInt32(n * 16) + LowBits(data, i);
    if 0 <= i < |data| && data[i] < 96 then ReadFrom(data, i + 1, m) else (m, i + 1)
  }

  /** An index of a subarray: negative ones count from the end, and none lies beyond it. */
  function Clamped(data: seq<int>, i: int): (index: nat)
    ensures index <= |data|
  {
    if i < 0 then (if |data| + i < 0 then 0 else |data| + i) else if i <= |data| then i else |data|
  }

  function Subarray(data: seq<int>, begin: int, end: int): seq<int> {
    if Clamped(data, begin) <= Clamped(data, end) then data[Clamped(data, begin)..Clamped(data, end)] else []
  }

  /** What the loop loads from an index on, in at most so many turns; a negative length moves the index back. */
  function LoadedFrom(data: seq<int>, i: int, backrefs: seq<Item>, turns: nat): Option<seq<Option<Item>>>
    decreases turns
  {
    if i >= |data| then Some([])
    else if turns == 0 then None
    else if 0 <= i && 48 <= data[i] <= 63 then
      var item := if data[i] - 48 < |backrefs| then Some(backrefs[data[i] - 48]) else None;
      Preceded(item, LoadedFrom(data, i + 1, backrefs, turns - 1))
    else
      var (n, j) := ReadFrom(data, i, 0);
      var item := Subarray(data, j, j + n);
      Preceded(Some(item), LoadedFrom(data, j + n, Remember(backrefs, item), turns - 1))
  }

  lemma {:induction false} ReadFromIsRead(data: seq<int>, i: nat, n: int)
    requires i <= |data|
    ensures var (m, j) := ReadFrom(data, i, n);
            j > i && ReadNumber(data[i..], n) == (m, data[Clamped(data, j)..])
    decreases |data| - i
  {
    hide ToInt32;
    if i < |data| && data[i] < 96 {
      ReadFromIsRead(data, i + 1, ToInt32(n * 16) + data[i] % 16);
      assert data[i..][1..] == data[i + 1..];
    } else if i < |data| {
      assert data[i..][1..] == data[i + 1..];
    }
  }

  lemma SubarrayIsPart(data: seq<int>, j: nat, n: nat)
    ensures Clamped(data, j) <= |data| && Clamped(data, j + n) <= |data|
    ensures j + n >= |data| <==> Clamped(data, j + n) == |data|
    ensures j + n <= |data| ==> Clamped(data, j + n) == j + n
    ensures var rest := data[Clamped(data, j)..];
            var length := if n <= |rest| then n else |rest|;
            rest[..length] == Subarray(data, j, j + n) && rest[length..] == data[Clamped(data, j + n)..]
  {
  }

  /** Negative indexes count from the end. */
  lemma SubarrayFromEnd(data: seq<int>, a: int, b: int)
    requires 1 <= b <= a <= |data|
    ensures Subarray(data, -a, -b) == data[|data| - a..|data| - b]
  {
  }

  /** The number -8, and the loop is back where it was: it loads empty items for ever. */
  const BACK_TO_START: seq<int> := [79, 79, 79, 79, 79, 79, 79, 104]

  lemma ReadDigit(data: seq<int>, i: nat, n: int, m: int)
    requires i < |data| && m == ToInt32(n * 16) + data[i] % 16
    ensures ReadFrom(data, i, n) == if data[i] < 96 then ReadFrom(data, i + 1, m) else (m, i + 1)
  {
  }

  lemma ReadsMinusEight()
    ensures ReadFrom(BACK_TO_START, 0, 0) == (-8, 8)
  {
    hide ReadFrom;
    ReadDigit(BACK_TO_START, 0, 0, 0xf);
    ReadDigit(BACK_TO_START, 1, 0xf, 0xff);
    ReadDigit(BACK_TO_START, 2, 0xff, 0xfff);
    ReadDigit(BACK_TO_START, 3, 0xfff, 0xffff);
    ReadDigit(BACK_TO_START, 4, 0xffff, 0xf_ffff);
    ReadDigit(BACK_TO_START, 5, 0xf_ffff, 0xff_ffff);
    ReadDigit(BACK_TO_START, 6, 0xff_ffff, 0xfff_ffff);
    ReadDigit(BACK_TO_START, 7, 0xfff_ffff, -8);
  }

  /** One item of a column, and the rest. */
  lemma LoadedStep(s: seq<int>, backrefs: seq<Item>)
    requires s != []
    ensures 48 <= s[0] <= 63 ==>
              Loaded(s, backrefs) ==
              Preceded(if s[0] - 48 < |backrefs| then Some(backrefs[s[0] - 48]) else None, Loaded(s[1..], backrefs))
    ensures !(48 <= s[0] <= 63) ==>
              var (n, rest) := ReadNumber(s, 0);
              var length := if n <= |rest| then n else |rest|;
              Loaded(s, backrefs) ==
              if n < 0 then None
              else Preceded(Some(rest[..length]), Loaded(rest[length..], Remember(backrefs, rest[..length])))
  {
  }

  /** The items loaded before, and the rest. */
  function LoadedAfter(before: seq<Option<Item>>, rest: Option<seq<Option<Item>>>): Option<seq<Option<Item>>> {
    if rest == None then None else Some(before + rest.value)
  }

  lemma LoadedAfterAll(before: seq<Option<Item>>, item: Option<Item>, rest: Option<seq<Option<Item>>>)
    ensures LoadedAfter([], rest) == rest
    ensures LoadedAfter(before, Preceded(item, rest)) == LoadedAfter(before + [item], rest)
    ensures LoadedAfter(before, Some([])) == Some(before)
  {
    assert before + [] == before;
    if rest != None {
      assert [] + rest.value == rest.value;
      assert before + ([item] + rest.value) == before + [item] + rest.value;
    }
  }

  /** The number at the start of a literal item, and the index after it. */
  method ReadLength(data: seq<int>, start: int) returns (n: int, i: int)
    ensures (n, i) == ReadFrom(data, start, 0)
  {
    i, n := start, 0;
    while 0 <= i < |data| && data[i] < 96
      invariant ReadFrom(data, start, 0) == ReadFrom(data, i, n)
      decreases |data| - i
    {
      n := ToInt32(n * 16) + data[i] % 16;
      i := i + 1;
    }
    n := ToInt32(n * 16) + LowBits(data, i);
    i := i + 1;
  }

  lemma EndOfLoop(data: seq<int>, i: int, backrefs: seq<Item>, turns: nat)
    ensures i >= |data| ==> LoadedFrom(data, i, backrefs, turns) == Some([])
  {
  }

  lemma TurnOfLoop(data: seq<int>, i: int, backrefs: seq<Item>, turns: nat)
    requires i < |data|
    ensures turns == 0 ==> LoadedFrom(data, i, backrefs, turns) == None
    ensures turns > 0 && 0 <= i && 48 <= data[i] <= 63 ==>
              LoadedFrom(data, i, backrefs, turns) ==
              Preceded(if data[i] - 48 < |backrefs| then Some(backrefs[data[i] - 48]) else None,
                       LoadedFrom(data, i + 1, backrefs, turns - 1))
    ensures turns > 0 && !(0 <= i && 48 <= data[i] <= 63) ==>
              var (n, j) := ReadFrom(data, i, 0);
              var item := Subarray(data, j, j + n);
              LoadedFrom(data, i, backrefs, turns) ==
              Preceded(Some(item), LoadedFrom(data, j + n, Remember(backrefs, item), turns - 1))
  {
    hide ReadFrom, Remember;
  }

  /** Unless a length is negative, the loop ends and loads the items. */
  lemma {:induction false} LoadedInTime(data: seq<int>, i: nat, backrefs: seq<Item>, turns: nat)
    requires i <= |data| <= i + turns && Loaded(data[i..], backrefs) != None
    ensures LoadedFrom(data, i, backrefs, turns) == Loaded(data[i..], backrefs)
    decreases turns
  {
    hide ReadNumber, ReadFrom, Remember, Loaded;
    if i == |data| {
      NothingLoaded(backrefs);
    } else {
      LoadedStep(data[i..], backrefs);
      if 48 <= data[i] <= 63 {
        assert data[i..][1..] == data[i + 1..];
        LoadedInTime(data, i + 1, backrefs, turns - 1);
      } else {
        ReadFromIsRead(data, i, 0);
        LiteralInTime(data, i, backrefs, turns);
      }
    }
  }

  lemma {:induction false} LiteralInTime(data: seq<int>, i: nat, backrefs: seq<Item>, turns: nat)
    requires i < |data| <= i + turns && Loaded(data[i..], backrefs) != None && !(48 <= data[i] <= 63)
    ensures LoadedFrom(data, i, backrefs, turns) == Loaded(data[i..], backrefs)
    decreases turns, 0
  {
    hide ReadNumber, ReadFrom, Remember, Loaded, LoadedFrom, Clamped, Subarray;
    LoadedStep(data[i..], backrefs);
    TurnOfLoop(data, i, backrefs, turns);
    ReadFromIsRead(data, i, 0);
    var (n, j) := ReadFrom(data, i, 0);
    var rest := data[Clamped(data, j)..];
    var length := if n <= |rest| then n else |rest|;
    var next := Clamped(data, j + n);
    SubarrayIsPart(data, j, n);
    EndOfLoop(data, j + n, Remember(backrefs, rest[..length]), turns - 1);
    EndOfLoop(data, next, Remember(backrefs, rest[..length]), turns - 1);
    LoadedInTime(data, next, Remember(backrefs, rest[..length]), turns - 1);
  }

  lemma {:induction false} NegativeLengthDiverges(backrefs: seq<Item>, turns: nat)
    ensures LoadedFrom(BACK_TO_START, 0, backrefs, turns) == None
    decreases turns
  {
    hide ReadFrom, LoadedFrom, Remember;
    ReadsMinusEight();
    TurnOfLoop(BACK_TO_START, 0, backrefs, turns);
    if turns > 0 {
      NegativeLengthDiverges(Remember(backrefs, Subarray(BACK_TO_START, 8, 0)), turns - 1);
    }
  }

  /** All items of a column, or nothing if the loop has not ended in so many turns. */
  method LoadColumnFromBytes(data: seq<int>, turns: nat) returns (items: Option<seq<Option<Item>>>)
    ensures items == LoadedFrom(data, 0, [], turns)
    ensures Loaded(data, []) != None && turns >= |data| ==> items == Loaded(data, [])
    ensures forall tokens ::
              References(tokens) && AllShort(tokens) && data == PrintColumn(tokens) && turns >= |data| ==>
                items == Some(Meant(tokens, []))
  {
    hide LoadedFrom, Loaded, Meant, PrintColumn, References, AllShort;
    forall tokens | References(tokens) && AllShort(tokens) && data == PrintColumn(tokens)
      ensures Loaded(data, []) == Some(Meant(tokens, []))
    {
      ColumnRoundTrip(tokens, [], []);
    }
    assert data[0..] == data;
    if Loaded(data, []) != None && turns >= |data| {
      LoadedInTime(data, 0, [], turns);
    }
    var backrefs: seq<Item> := [];
    var dataSansEmptyset: seq<Option<Item>> := [];
    var i, left := 0, turns;
    LoadedAfterAll([], None, LoadedFrom(data, 0, [], turns));
    while i < |data|
      invariant LoadedFrom(data, 0, [], turns) == LoadedAfter(dataSansEmptyset, LoadedFrom(data, i, backrefs, left))
      decreases left
    {
      TurnOfLoop(data, i, backrefs, left);
      if left == 0 {
        return None;
      }
      left := left - 1;
      if 0 <= i && 48 <= data[i] <= 63 {
        var item := if data[i] - 48 < |backrefs| then Some(backrefs[data[i] - 48]) else None;
        LoadedAfterAll(dataSansEmptyset, item, LoadedFrom(data, i + 1, backrefs, left));
        dataSansEmptyset := dataSansEmptyset + [item];
        i := i + 1;
      } else {
        var n;
        n, i := ReadLength(data, i);
        var item := Subarray(data, i, i + n);
        i := i + n;
        backrefs := [item] + backrefs;
        if |backrefs| > 16 {
          backrefs := backrefs[..|backrefs| - 1];
        }
        LoadedAfterAll(dataSansEmptyset, Some(item), LoadedFrom(data, i, backrefs, left));
        dataSansEmptyset := dataSansEmptyset + [Some(item)];
      }
    }
    EndOfLoop(data, i, backrefs, left);
    LoadedAfterAll(dataSansEmptyset, None, Some([]));
    items := Some(dataSansEmptyset);
  }
}
