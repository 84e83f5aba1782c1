/** The parser of search queries: it ends on every input, and never moves its cursor back. */
module QueryParser {
  import opened Basics

  /** What the parser asks of strings: which characters continue an identifier, trimming, and tests on paths and
    * filters. */
  datatype Text = Text(
    isIdent: char -> bool,
    trim: string -> string,
    malformedPath: string -> bool,
    invalidTypeFilter: string -> bool,
    normalizedPathLast: string -> string,
    bindingKey: string -> string)

  datatype Elem = Elem(name: Option<string>, last: Option<string>, generics: seq<Elem>,
                       bindings: map<string, seq<Elem>>,
                       typeFilter: Option<string>, bindingName: Option<Elem>)

  const PRIMITIVE := Some("primitive")

  function MakePrimitiveElement(name: Option<string>, generics: seq<Elem>): Elem {
    Elem(name, name, generics, map[], PRIMITIVE, None)
  }

  predicate IsSeparatorCharacter(c: char) {
    c == ',' || c == '='
  }

  predicate IsEndCharacter(c: char) {
    c == '=' || c == ',' || c == '>' || c == '-' || c == ']' || c == ')'
  }

  predicate IsSpecialStartCharacter(c: char) {
    c == '<' || c == '"'
  }

  predicate IsPathSeparator(c: char) {
    c == ':' || c == ' '
  }

  predicate StandsAt(s: string, pos: nat, word: string) {
    pos + |word| <= |s| && s[pos..pos + |word|] == word
  }

  predicate CharIs(s: string, pos: nat, c: char) {
    pos < |s| && s[pos] == c
  }

  predicate IsBinding(e: Elem) {
    e.bindingName.Some? && e.bindingName.value.name.Some?
  }

  /** Generic arguments that bind nothing stay generics. */
  function Unbound(generics: seq<Elem>): seq<Elem> {
    if generics == [] then []
    else if IsBinding(generics[0]) then Unbound(generics[1..])
    else [generics[0]] + Unbound(generics[1..])
  }

  /** The others are collected under their names, the last one of a name winning. */
  function Bound(text: Text, generics: seq<Elem>): map<string, seq<Elem>> {
    if generics == [] then map[]
    else
      var before, e := Bound(text, generics[..|generics| - 1]), generics[|generics| - 1];
      if IsBinding(e) then
        before[text.bindingKey(e.bindingName.value.name.value) :=
                 (if e.name.Some? then [e] else []) + e.bindingName.value.generics]
      else before
  }

  predicate AnyBinds(elems: seq<Elem>) {
    exists i :: 0 <= i < |elems| && elems[i].bindingName.Some?
  }

  /** The methods return whether they finish; if not, they have thrown. */
  class Parser {
    const text: Text
    const userQuery: string
    var pos: nat
    var totalElems: int
    var genericsElems: int
    var typeFilter: Option<string>
    var isInBinding: Option<Elem>
    var literalSearch: bool
    var hasReturnArrow: bool

    constructor (text: Text, userQuery: string)
      ensures this.text == text && this.userQuery == userQuery && pos == 0
    {
      this.text, this.userQuery := text, userQuery;
      pos, totalElems, genericsElems := 0, 0, 0;
      typeFilter, isInBinding := None, None;
      literalSearch, hasReturnArrow := false, false;
    }

    predicate At(c: char)
      reads this
    {
      CharIs(userQuery, pos, c)
    }

    predicate IsReturnArrow()
      reads this
    {
      StandsAt(userQuery, pos, "->")
    }

    predicate IsPathStart()
      reads this
    {
      StandsAt(userQuery, pos, "::")
    }

    method SkipWhitespace()
      modifies this`pos
      ensures old(pos) <= pos && (old(pos) <= |userQuery| ==> pos <= |userQuery|)
      ensures forall k :: old(pos) <= k < pos ==> CharIs(userQuery, k, ' ')
      ensures !At(' ')
    {
      while pos < |userQuery|
        invariant old(pos) <= pos && (old(pos) <= |userQuery| ==> pos <= |userQuery|)
        invariant forall k :: old(pos) <= k < pos ==> CharIs(userQuery, k, ' ')
        decreases |userQuery| - pos
      {
        if userQuery[pos] != ' ' {
          break;
        }
        pos := pos + 1;
      }
    }

    /** The longest run of identifier characters; whether there is any. */
    method ConsumeIdent() returns (found: bool)
      requires pos <= |userQuery|
      modifies this`pos
      ensures old(pos) <= pos <= |userQuery|
      ensures found <==> pos > old(pos)
      ensures pos < |userQuery| ==> !text.isIdent(userQuery[pos])
      ensures forall k :: old(pos) <= k < pos ==> text.isIdent(userQuery[k])
    {
      var start := pos;
      while pos < |userQuery| && text.isIdent(userQuery[pos])
        invariant old(pos) <= pos <= |userQuery|
        invariant forall k :: old(pos) <= k < pos ==> text.isIdent(userQuery[k])
      {
        pos := pos + 1;
      }
      found := pos > start;
    }

    /** Whether an identifier starts behind the next character; the cursor is where it was. */
    method IdentFollows() returns (found: bool)
      requires pos + 1 < |userQuery|
      modifies this`pos
      ensures pos == old(pos)
      ensures found <==> text.isIdent(userQuery[pos + 1])
    {
      var here := pos;
      pos := pos + 1;
      found := ConsumeIdent();
      pos := here;
    }

    /** The end of a path, with an exclamation mark at its end if it names a macro. */
    method GetIdentEndPosition() returns (ok: bool, end: nat)
      requires pos <= |userQuery|
      modifies this`pos, this`typeFilter
      ensures old(pos) <= pos <= |userQuery|
      ensures ok ==> old(pos) <= end <= pos && (end == pos || CharIs(userQuery, end, '!'))
    {
      ok := false;
      var afterIdent := ConsumeIdent();
      end := pos;
      var macroExclamation := -1;
      while pos < |userQuery|
        invariant old(pos) <= end == pos <= |userQuery|
        invariant macroExclamation == -1 || (old(pos) <= macroExclamation < pos && userQuery[macroExclamation] == '!')
        decreases |userQuery| - pos
      {
        var c := userQuery[pos];
        if c == '!' {
          if macroExclamation != -1 {
            return;
          } else if pos + 1 < |userQuery| {
            var beforeIdent := IdentFollows();
            if beforeIdent {
              return;
            }
          }
          if afterIdent {
            macroExclamation := pos;
          }
        } else if IsPathSeparator(c) {
          if c == ':' {
            if !IsPathStart() {
              break;
            }
            pos := pos + 1;
          } else {
            while pos + 1 < |userQuery|
              invariant old(pos) <= end <= pos < |userQuery|
              invariant macroExclamation == -1 || old(pos) <= macroExclamation < pos
              decreases |userQuery| - pos
            {
              if userQuery[pos + 1] != ' ' {
                break;
              }
              pos := pos + 1;
            }
          }
          if macroExclamation != -1 {
            return;
          }
        } else if c == '[' || c == '(' || IsEndCharacter(c) || IsSpecialStartCharacter(c) || IsSeparatorCharacter(c) {
          break;
        } else {
          return;
        }
        pos := pos + 1;
        afterIdent := ConsumeIdent();
        end := pos;
      }
      if macroExclamation != -1 {
        if typeFilter == None {
          typeFilter := Some("macro");
        } else if typeFilter != Some("macro") {
          return;
        }
        end := macroExclamation;
      }
      ok := true;
    }

    method GetStringElem(isInGenerics: bool) returns (ok: bool)
      requires At('"')
      modifies this
      ensures old(pos) <= pos <= |userQuery|
      ensures ok ==> old(pos) + 2 < pos && CharIs(userQuery, pos - 1, '"')
    {
      ok := false;
      if isInGenerics || literalSearch || totalElems - genericsElems > 0 {
        return;
      }
      pos := pos + 1;
      var start := pos;
      var found, end := GetIdentEndPosition();
      if !found || pos >= |userQuery| || !CharIs(userQuery, end, '"') || start == end {
        return;
      }
      pos := pos + 1;
      literalSearch := true;
      ok := true;
    }

    method CreateQueryElement(name: string, generics: seq<Elem>, isInGenerics: bool) returns (ok: bool, e: Elem)
      modifies this
      ensures pos == old(pos)
    {
      ok, e := false, MakePrimitiveElement(Some("never"), []);
      var path := text.trim(name);
      if (path == "" && generics == []) || (literalSearch && totalElems - genericsElems > 0) {
        return;
      }
      var filter := typeFilter;
      typeFilter := None;
      if path == "!" {
        if (filter != None && filter != PRIMITIVE) || generics != [] {
          return;
        }
        e := e.(bindingName := isInBinding);
        isInBinding := None;
        return true, e;
      }
      if text.malformedPath(path) || path == "" {
        return;
      }
      totalElems := totalElems + 1;
      if isInGenerics {
        genericsElems := genericsElems + 1;
      }
      e := Elem(Some(path), Some(text.normalizedPathLast(path)), Unbound(generics), Bound(text, generics), filter,
                isInBinding);
      isInBinding := None;
      ok := true;
    }

    /** One element, with a type filter in front of it or not. */
    method GetFilteredNextElem(before: seq<Elem>, isInGenerics: bool) returns (ok: bool, elems: seq<Elem>)
      requires pos <= |userQuery|
      modifies this
      ensures old(pos) <= pos <= |userQuery|
      ensures ok && |elems| != |before| ==> old(pos) < pos
      decreases |userQuery| - pos, 2
    {
      ok, elems := false, before;
      var start := pos;
      if At(':') && !IsPathStart() {
        return;
      }
      ok, elems := GetNextElem(elems, isInGenerics);
      if ok && At(':') && !IsPathStart() {
        ok := false;
        if typeFilter != None || elems == [] || literalSearch {
          return;
        }
        var typeFilterElem := elems[|elems| - 1];
        elems := elems[..|elems| - 1];
        if text.invalidTypeFilter(text.trim(userQuery[start..pos])) {
          return;
        }
        typeFilter := typeFilterElem.last;
        pos := pos + 1;
        totalElems := totalElems - 1;
        literalSearch := false;
        ok, elems := GetNextElem(elems, isInGenerics);
      }
    }

    /** Elements up to the end character, which is passed, or up to the end of the query. */
    method GetItemsBefore(before: seq<Elem>, endChar: Option<char>)
      returns (ok: bool, elems: seq<Elem>, foundSeparator: bool)
      requires pos <= |userQuery|
      modifies this
      ensures old(pos) <= pos && (endChar.Some? ==> pos <= |userQuery|)
      ensures ok && endChar.Some? ==> old(pos) < pos && CharIs(userQuery, pos - 1, endChar.value)
      ensures ok && endChar.None? ==> |userQuery| < pos
      ensures ok ==> typeFilter == old(typeFilter) && isInBinding == old(isInBinding)
      decreases |userQuery| - pos, 3
    {
      ok, elems, foundSeparator := false, before, false;
      var foundStopChar := true;
      var oldTypeFilter, oldIsInBinding := typeFilter, isInBinding;
      typeFilter, isInBinding := None, None;
      var hofParameters: Option<seq<Elem>> := None;
      while pos < |userQuery|
        invariant old(pos) <= pos <= |userQuery| && !ok
        decreases |userQuery| - pos
      {
        var c := userQuery[pos];
        if endChar == Some(c) {
          if isInBinding != None {
            return;
          }
          break;
        } else if endChar.Some? && IsReturnArrow() {
          if isInBinding != None {
            return;
          }
          hofParameters := Some(elems);
          elems := [];
          pos := pos + 2;
          foundStopChar, foundSeparator := true, false;
          continue;
        } else if c == ' ' {
          pos := pos + 1;
          continue;
        } else if IsSeparatorCharacter(c) {
          pos := pos + 1;
          foundStopChar, foundSeparator := true, true;
          continue;
        } else if (c == ':' && IsPathStart()) || IsEndCharacter(c) {
          return;
        }
        if !foundStopChar {
          return;
        }
        var posBefore := pos;
        var found;
        found, elems := GetFilteredNextElem(elems, endChar.Some?);
        if !found || (endChar.Some? && pos >= |userQuery|) {
          return;
        }
        if posBefore == pos {
          pos := pos + 1;
        }
        foundStopChar := false;
      }
      if pos >= |userQuery| && endChar.Some? {
        return;
      }
      pos := pos + 1;
      if hofParameters.Some? {
        foundSeparator := false;
        if AnyBinds(elems + hofParameters.value) || isInBinding != None {
          return;
        }
        elems := [Elem(Some("->"), Some("->"), hofParameters.value, map["output" := elems], None, None)];
      }
      typeFilter, isInBinding := oldTypeFilter, oldIsInBinding;
      ok := true;
    }

    /** A reference or a pointer, and what it points to. */
    method HandleRefOrPtr(before: seq<Elem>, chr: char, name: string, isInGenerics: bool)
      returns (ok: bool, elems: seq<Elem>)
      requires At(chr)
      modifies this
      ensures old(pos) < pos <= |userQuery| || (!ok && pos == old(pos))
      ensures ok ==> |elems| == |before| + 1 && elems[..|before|] == before
      decreases |userQuery| - pos, 0
    {
      ok, elems := false, before;
      if typeFilter != None && typeFilter != PRIMITIVE {
        return;
      }
      typeFilter := None;
      pos := pos + 1;
      SkipWhitespace();
      var generics := [];
      if StandsAt(userQuery, pos, "mut") {
        generics := [MakePrimitiveElement(Some("mut"), []).(typeFilter := Some("keyword"))];
        pos := pos + 3;
      } else if chr == '*' && StandsAt(userQuery, pos, "const") {
        pos := pos + 5;
      }
      SkipWhitespace();
      if pos < |userQuery| && !IsEndCharacter(userQuery[pos]) {
        var found;
        found, generics := GetFilteredNextElem(generics, isInGenerics);
        if !found {
          return;
        }
      }
      elems := elems + [MakePrimitiveElement(Some(name), generics)];
      ok := true;
    }

    /** A tuple or a slice. */
    method GetBracketed(before: seq<Elem>, isInGenerics: bool) returns (ok: bool, elems: seq<Elem>)
      requires At('[') || At('(')
      modifies this
      ensures old(pos) < pos <= |userQuery|
      ensures ok ==> |elems| == |before| + 1 && elems[..|before|] == before
      ensures ok ==> CharIs(userQuery, pos - 1, if old(At('[')) then ']' else ')')
      decreases |userQuery| - pos, 0
    {
      ok, elems := false, before;
      var endChar, name := ')', "()";
      if At('[') {
        endChar, name := ']', "[]";
      }
      pos := pos + 1;
      var found, generics, foundSeparator := GetItemsBefore([], Some(endChar));
      if !found {
        return;
      }
      var filter, bindingName := typeFilter, isInBinding;
      typeFilter, isInBinding := None, None;
      if AnyBinds(generics) {
        return;
      }
      if name == "()" && !foundSeparator && |generics| == 1 && filter == None {
        elems := elems + [generics[0]];
      } else if name == "()" && |generics| == 1 && generics[0].name == Some("->") {
        elems := elems + [generics[0].(typeFilter := filter)];
      } else {
        if filter != None && filter != PRIMITIVE {
          return;
        }
        totalElems := totalElems + 1;
        if isInGenerics {
          genericsElems := genericsElems + 1;
        }
        elems := elems + [MakePrimitiveElement(Some(name), generics).(bindingName := bindingName)];
      }
      ok := true;
    }

    /** Arguments in angle brackets, or in parentheses with what the function returns. */
    method GetArguments(isInGenerics: bool) returns (ok: bool, generics: seq<Elem>)
      requires pos <= |userQuery|
      modifies this
      ensures old(pos) <= pos <= |userQuery|
      ensures ok && generics != [] ==> old(pos) < pos
      ensures literalSearch == old(literalSearch) || old(pos) < pos
      decreases |userQuery| - pos, 0
    {
      ok, generics := false, [];
      var foundSeparator, found;
      if At('<') {
        pos := pos + 1;
        ok, generics, foundSeparator := GetItemsBefore([], Some('>'));
      } else if At('(') {
        if isInBinding != None {
          return;
        }
        pos := pos + 1;
        var filter := typeFilter;
        typeFilter := None;
        found, generics, foundSeparator := GetItemsBefore([], Some(')'));
        if !found {
          return;
        }
        SkipWhitespace();
        if IsReturnArrow() {
          pos := pos + 2;
          SkipWhitespace();
          found, generics := GetFilteredNextElem(generics, isInGenerics);
          if !found || generics == [] {
            return;
          }
          var last := |generics| - 1;
          generics := generics[last := generics[last].(bindingName := Some(MakePrimitiveElement(Some("output"), [])))];
        } else {
          generics := generics + [Elem(None, None, [], map[], None, Some(MakePrimitiveElement(Some("output"), [])))];
        }
        typeFilter := filter;
        ok := true;
      } else {
        ok := true;
      }
    }

    /** One element; it adds nothing without moving the cursor. */
    method GetNextElem(before: seq<Elem>, isInGenerics: bool) returns (ok: bool, elems: seq<Elem>)
      requires pos <= |userQuery|
      modifies this
      ensures old(pos) <= pos <= |userQuery|
      ensures ok ==> elems == before || (old(pos) < pos && |elems| == |before| + 1 && elems[..|before|] == before)
      decreases |userQuery| - pos, 1
    {
      ok, elems := false, before;
      SkipWhitespace();
      var start, end := pos, pos;
      if At('[') || At('(') {
        ok, elems := GetBracketed(before, isInGenerics);
        return;
      } else if At('&') {
        ok, elems := HandleRefOrPtr(before, '&', "reference", isInGenerics);
        return;
      } else if At('*') {
        ok, elems := HandleRefOrPtr(before, '*', "pointer", isInGenerics);
        return;
      }
      var isStringElem, found := At('"'), true;
      if isStringElem {
        start := start + 1;
        found := GetStringElem(isInGenerics);
        end := if pos > 0 then pos - 1 else 0;
      } else {
        found, end := GetIdentEndPosition();
      }
      if !found || ((At('<') || At('(')) && start >= end) {
        return;
      }
      var generics;
      found, generics := GetArguments(isInGenerics);
      if !found {
        return;
      }
      if isStringElem {
        SkipWhitespace();
      }
      if start >= end && generics == [] {
        return true, elems;
      }
      var name := if start <= end <= |userQuery| then userQuery[start..end] else "";
      if At('=') {
        var key := text.trim(name);
        if isInBinding != None || !isInGenerics || '!' in key || ':' in key {
          return;
        }
        isInBinding := Some(Elem(Some(key), None, generics, map[], None, None));
      } else {
        var e;
        found, e := CreateQueryElement(name, generics, isInGenerics);
        if !found {
          return;
        }
        elems := elems + [e];
      }
      ok := true;
    }

    /** The whole query: the elements before a return arrow and those after it.  A query that is accepted has been read
      * to its end. */
    method ParseInput() returns (ok: bool, elems: seq<Elem>, returned: seq<Elem>)
      requires pos == 0
      modifies this
      ensures ok ==> |userQuery| <= pos
    {
      ok, elems, returned := false, [], [];
      var foundStopChar := true;
      while pos < |userQuery|
        decreases |userQuery| - pos
      {
        var c := userQuery[pos];
        if IsEndCharacter(c) {
          foundStopChar := true;
          if IsSeparatorCharacter(c) {
            pos := pos + 1;
            continue;
          } else if (c == '-' || c == '>') && IsReturnArrow() {
            hasReturnArrow := true;
            break;
          }
          return;
        } else if c == ' ' {
          SkipWhitespace();
          continue;
        }
        if !foundStopChar {
          return;
        }
        var before := |elems|;
        var found;
        found, elems := GetFilteredNextElem(elems, false);
        if !found {
          return;
        }
        if |elems| == before {
          pos := pos + 1;
        }
        foundStopChar := false;
      }
      if typeFilter != None {
        return;
      }
      while pos < |userQuery|
        decreases |userQuery| - pos
      {
        if IsReturnArrow() {
          pos := pos + 2;
          SkipWhitespace();
          var found, foundSeparator;
          found, returned, foundSeparator := GetItemsBefore(returned, None);
          if !found {
            return;
          }
          hasReturnArrow := true;
          break;
        } else {
          pos := pos + 1;
        }
      }
      ok := true;
    }
  }
}
