/**
 * The `Feature` recipe step on import: reads the features to disable and
 * to enable from the step element, in the legacy attribute format
 * (`disable="a, b"`) or the element format
 * (`<enable><ID>a</ID><ID>b</ID></enable>`), checks every requested id
 * against the available features, then asks the feature manager to
 * disable and then to enable them.
 */
module ImportFeature {
  import opened Wrappers
  import opened Text
  import opened Xml
  import opened Features

  // ---------------------------------------------------------------------
  // The two parsers

  /** No string of `ss` contains `c`. */
  predicate NoneContains(ss: seq<string>, c: char) {
    forall u :: u in ss ==> c !in u
  }

  /** The ids are what the import step keeps: non-empty and without
      surrounding white space. */
  predicate CleanIds(ids: seq<string>) {
    forall t :: t in ids ==> t != [] && IsTrimmed(t)
  }

  /** Trims each token and drops those left empty, keeping order. */
  function CleanTokens(tokens: seq<string>): (ids: seq<string>)
    ensures |ids| <= |tokens|
  {
    if tokens == [] then []
    else
      var t := Trim(tokens[0]);
      if t == [] then CleanTokens(tokens[1..]) else [t] + CleanTokens(tokens[1..])
  }

  /** Every cleaned token is non-empty and has no surrounding white space. */
  lemma {:induction false} CleanTokensAreClean(tokens: seq<string>)
    ensures CleanIds(CleanTokens(tokens))
  {
    if tokens != [] {
      CleanTokensAreClean(tokens[1..]);
    }
  }

  /** A character that no token holds is in no cleaned token either. */
  lemma {:induction false} CleanTokensKeepsAbsent(tokens: seq<string>, c: char)
    requires NoneContains(tokens, c)
    ensures NoneContains(CleanTokens(tokens), c)
  {
    if tokens != [] {
      assert tokens[0] in tokens;
      TrimKeepsAbsent(tokens[0], c);
      assert NoneContains(tokens[1..], c) by {
        forall u | u in tokens[1..] ensures c !in u { assert u in tokens; }
      }
      CleanTokensKeepsAbsent(tokens[1..], c);
    }
  }

  /** Cleaning works token by token: the ids of a concatenation are the
      ids of its parts, in order. */
  lemma {:induction false} CleanTokensAppend(a: seq<string>, b: seq<string>)
    ensures CleanTokens(a + b) == CleanTokens(a) + CleanTokens(b)
  {
    if a != [] {
      assert (a + b)[0] == a[0];
      assert (a + b)[1..] == a[1..] + b;
      CleanTokensAppend(a[1..], b);
    } else {
      assert a + b == b;
    }
  }

  /** A token that is empty or only white space gives no id. */
  lemma CleanTokensDropsBlank(t: string)
    requires Trim(t) == []
    ensures CleanTokens([t]) == []
  {
    assert [t][1..] == [];
  }

  /** Any other token gives one id: its trimmed text. */
  lemma CleanTokensKeepsTrimmed(t: string)
    requires Trim(t) != []
    ensures CleanTokens([t]) == [Trim(t)]
  {
    assert [t][1..] == [];
  }

  /** `ParseFeatures(string)`: the legacy comma-separated list. */
  function ParseFeaturesCsv(csv: string): (ids: seq<string>)
    ensures forall t :: t in ids ==> t != [] && IsTrimmed(t) && ',' !in t
  {
    var tokens := Split(csv, ',');
    SplitMeaning(csv, ',');
    CleanTokensAreClean(tokens);
    CleanTokensKeepsAbsent(tokens, ',');
    CleanTokens(tokens)
  }

  /** Clean, comma-free ids written out as a legacy list read back as
      themselves. */
  lemma {:induction false} ParseFeaturesCsvJoin(ids: seq<string>)
    requires CleanIds(ids) && NoneContains(ids, ',')
    ensures ParseFeaturesCsv(Join(ids, ',')) == ids
  {
    if ids == [] {
      // An empty attribute splits into one empty token, which is dropped.
      assert Split(Join(ids, ','), ',') == [""];
      assert CleanTokens([""]) == [];
    } else {
      SplitJoin(ids, ',');
      CleanTokensOfClean(ids);
    }
  }

  /** Trimming and dropping empties leaves clean tokens as they are. */
  lemma {:induction false} CleanTokensOfClean(ids: seq<string>)
    requires CleanIds(ids)
    ensures CleanTokens(ids) == ids
  {
    if ids != [] {
      var rest := ids[1..];
      assert ids[0] in ids;
      forall t | t in rest ensures t != [] && IsTrimmed(t) {
        assert t in ids;
      }
      CleanTokensOfClean(rest);
      assert ids == [ids[0]] + rest;
    }
  }

  /** Comma-free tokens that trim to clean ids, written out as a legacy
      list, read back as those ids. */
  lemma ParseFeaturesCsvOfTokens(tokens: seq<string>, ids: seq<string>)
    requires |tokens| == |ids| && CleanIds(ids)
    requires forall i :: 0 <= i < |tokens| ==> ',' !in tokens[i] && Trim(tokens[i]) == ids[i]
    ensures ParseFeaturesCsv(Join(tokens, ',')) == ids
  {
    if tokens == [] {
      assert Split(Join(tokens, ','), ',') == [""];
      assert CleanTokens([""]) == [];
    } else {
      forall t | t in tokens ensures ',' !in t {
        var i :| 0 <= i < |tokens| && tokens[i] == t;
      }
      SplitJoin(tokens, ',');
      CleanTokensOfTrimmed(tokens, ids);
    }
  }

  /** Clean, comma-free ids padded on either side with white space, as in
      `enable="a , b"`, read back as the ids themselves. */
  lemma ParseFeaturesCsvPadded(ids: seq<string>, before: seq<string>, after: seq<string>)
    requires |before| == |ids| && |after| == |ids|
    requires CleanIds(ids) && NoneContains(ids, ',')
    requires forall i :: 0 <= i < |ids| ==> AllWhiteSpace(before[i]) && AllWhiteSpace(after[i])
    ensures ParseFeaturesCsv(Join(seq(|ids|, i requires 0 <= i < |ids| => before[i] + ids[i] + after[i]), ',')) == ids
  {
    var tokens := seq(|ids|, i requires 0 <= i < |ids| => before[i] + ids[i] + after[i]);
    forall i | 0 <= i < |ids| ensures ',' !in tokens[i] && Trim(tokens[i]) == ids[i] {
      assert ids[i] in ids;
      TrimPadded(before[i], ids[i], after[i]);
      WhiteSpaceHasNoComma(before[i]);
      WhiteSpaceHasNoComma(after[i]);
    }
    ParseFeaturesCsvOfTokens(tokens, ids);
  }

  lemma WhiteSpaceHasNoComma(s: string)
    requires AllWhiteSpace(s)
    ensures ',' !in s
  {
    forall k | 0 <= k < |s| ensures s[k] != ',' {
      assert IsWhiteSpace(s[k]);
    }
  }

  lemma {:induction false} CleanTokensOfTrimmed(tokens: seq<string>, ids: seq<string>)
    requires |tokens| == |ids| && CleanIds(ids)
    requires forall i :: 0 <= i < |tokens| ==> Trim(tokens[i]) == ids[i]
    ensures CleanTokens(tokens) == ids
  {
    if tokens != [] {
      assert ids[0] in ids;
      assert CleanIds(ids[1..]) by {
        forall t | t in ids[1..] ensures t != [] && IsTrimmed(t) { assert t in ids; }
      }
      assert forall i :: 0 <= i < |tokens| - 1 ==> Trim(tokens[1..][i]) == ids[1..][i] by {
        forall i | 0 <= i < |tokens| - 1 ensures Trim(tokens[1..][i]) == ids[1..][i] {
          assert tokens[1..][i] == tokens[i + 1];
        }
      }
      CleanTokensOfTrimmed(tokens[1..], ids[1..]);
      assert ids == [ids[0]] + ids[1..];
    }
  }

  /** The worked example of the legacy format: padding is trimmed and the
      empty token between two commas is dropped. */
  lemma ParseFeaturesCsvExample()
    ensures ParseFeaturesCsv("x, y ,,z") == ["x", "y", "z"]
  {
    SplitExample();
    CleanExample(Split("x, y ,,z", ','));
  }

  lemma SplitExample()
    ensures Split("x, y ,,z", ',') == ["x", " y ", "", "z"]
  {
    var parts := ["x", " y ", "", "z"];
    assert Join(parts, ',') == "x, y ,,z";
    SplitJoin(parts, ',');
  }

  lemma CleanExample(tokens: seq<string>)
    requires tokens == ["x", " y ", "", "z"]
    ensures CleanTokens(tokens) == ["x", "y", "z"]
  {
    LettersNotWhiteSpace();
    TrimPaddedY();
    TrimmedOne('x');
    TrimmedOne('z');
    CleanFour(tokens);
  }

  lemma CleanFour(tokens: seq<string>)
    requires |tokens| == 4
    requires Trim(tokens[0]) != [] && Trim(tokens[1]) != [] && Trim(tokens[2]) == [] && Trim(tokens[3]) != []
    ensures CleanTokens(tokens) == [Trim(tokens[0]), Trim(tokens[1]), Trim(tokens[3])]
  {
    var t1 := tokens[1..];
    var t2 := t1[1..];
    var t3 := t2[1..];
    assert t1[0] == tokens[1] && t2[0] == tokens[2] && t3[0] == tokens[3] && t3[1..] == [];
    assert CleanTokens(t3) == [Trim(tokens[3])];
    assert CleanTokens(t2) == [Trim(tokens[3])];
    assert CleanTokens(t1) == [Trim(tokens[1])] + [Trim(tokens[3])];
  }

  lemma TrimPaddedY()
    ensures Trim(" y ") == "y"
  {
    assert TrimStart(" y ") == "y " by { assert " y "[1..] == "y "; }
    assert TrimEnd("y ") == "y" by { assert "y "[..1] == "y"; }
  }

  lemma LettersNotWhiteSpace()
    ensures !IsWhiteSpace('x') && !IsWhiteSpace('z')
  {
  }

  lemma TrimmedOne(c: char)
    requires !IsWhiteSpace(c)
    ensures Trim([c]) == [c]
  {
  }

  /** The values of the `ID` children, trimmed, empty ones dropped. */
  function IdValues(children: seq<Node>): (ids: seq<string>)
    ensures |ids| <= |children|
    ensures forall t :: t in ids ==> t != [] && IsTrimmed(t)
  {
    if children == [] then []
    else
      var rest := IdValues(children[1..]);
      var c := children[0];
      if c.Element? && c.name == IdName && Trim(TextOf(c)) != [] then [Trim(TextOf(c))] + rest
      else rest
  }

  /** `ParseFeatures(XContainer)`: the element format. */
  function ParseFeaturesElement(parent: Node): (ids: seq<string>)
    requires parent.Element?
    ensures |ids| <= |parent.children|
    ensures forall t :: t in ids ==> t != [] && IsTrimmed(t)
  {
    IdValues(parent.children)
  }

  /** The element format reads child by child: the ids of a concatenation
      are the ids of its parts, in document order. */
  lemma {:induction false} IdValuesAppend(a: seq<Node>, b: seq<Node>)
    ensures IdValues(a + b) == IdValues(a) + IdValues(b)
  {
    if a != [] {
      assert (a + b)[0] == a[0];
      assert (a + b)[1..] == a[1..] + b;
      IdValuesAppend(a[1..], b);
    } else {
      assert a + b == b;
    }
  }

  /** A child that is not an element named exactly `ID`, or whose text is
      only white space, gives no id. */
  lemma IdValuesSkips(c: Node)
    requires !(c.Element? && c.name == IdName) || Trim(TextOf(c)) == []
    ensures IdValues([c]) == []
  {
    assert [c][1..] == [];
  }

  /** An `ID` element with some text gives one id: its trimmed text. */
  lemma IdValuesReads(c: Node)
    requires c.Element? && c.name == IdName && Trim(TextOf(c)) != []
    ensures IdValues([c]) == [Trim(TextOf(c))]
  {
    assert [c][1..] == [];
  }

  /** The name comparison is ordinal and case-sensitive: `<id>` is not read. */
  lemma IdValuesCaseSensitive(text: string)
    ensures IdValues([Element("id", [], [Text(text)])]) == []
  {
    assert "id" != IdName by { assert "id"[0] != IdName[0]; }
    IdValuesSkips(Element("id", [], [Text(text)]));
  }

  /** `ID` children whose texts trim to clean ids read back as those ids. */
  lemma {:induction false} IdValuesOfTrimmed(children: seq<Node>, ids: seq<string>)
    requires |children| == |ids| && CleanIds(ids)
    requires forall i :: 0 <= i < |children| ==>
               children[i].Element? && children[i].name == IdName && Trim(TextOf(children[i])) == ids[i]
    ensures IdValues(children) == ids
  {
    if children != [] {
      assert ids[0] in ids;
      assert CleanIds(ids[1..]) by {
        forall t | t in ids[1..] ensures t != [] && IsTrimmed(t) { assert t in ids; }
      }
      forall i | 0 <= i < |children| - 1
        ensures children[1..][i].Element? && children[1..][i].name == IdName
                && Trim(TextOf(children[1..][i])) == ids[1..][i]
      {
        assert children[1..][i] == children[i + 1];
      }
      IdValuesOfTrimmed(children[1..], ids[1..]);
      assert ids == [ids[0]] + ids[1..];
    }
  }

  /** `ID` elements holding clean ids padded with white space, as in
      `<ID> a </ID>`, read back as the ids themselves. */
  lemma IdValuesPadded(ids: seq<string>, before: seq<string>, after: seq<string>)
    requires |before| == |ids| && |after| == |ids|
    requires CleanIds(ids)
    requires forall i :: 0 <= i < |ids| ==> AllWhiteSpace(before[i]) && AllWhiteSpace(after[i])
    ensures IdValues(seq(|ids|, i requires 0 <= i < |ids| => Element(IdName, [], [Text(before[i] + ids[i] + after[i])])))
            == ids
  {
    var children := seq(|ids|, i requires 0 <= i < |ids| => Element(IdName, [], [Text(before[i] + ids[i] + after[i])]));
    forall i | 0 <= i < |ids| ensures Trim(TextOf(children[i])) == ids[i] {
      assert ids[i] in ids;
      TextOfIdText(before[i] + ids[i] + after[i]);
      TrimPadded(before[i], ids[i], after[i]);
    }
    IdValuesOfTrimmed(children, ids);
  }

  /** The text of an `ID` element holding one text node is that text. */
  lemma TextOfIdText(text: string)
    ensures TextOf(Element(IdName, [], [Text(text)])) == text
  {
    assert [Text(text)][1..] == [];
    assert TextOfAll([Text(text)]) == text + TextOfAll([]);
    assert [Element(IdName, [], [Text(text)])][1..] == [];
  }

  // ---------------------------------------------------------------------
  // Which list each axis takes

  /** The comparison of the step's name switch: `string.Equals` with
      `StringComparison.OrdinalIgnoreCase`. */
  predicate NameIs(actual: string, name: string) {
    EqualsIgnoreCase(actual, name)
  }

  /** The value of the last attribute whose name matches `name`. */
  function LastAttrValue(attrs: seq<Attr>, name: string): Option<string> {
    if attrs == [] then None
    else
      var n := |attrs| - 1;
      if NameIs(attrs[n].name, name) then Some(attrs[n].value)
      else LastAttrValue(attrs[..n], name)
  }

  /** `LastAttrValue` is absent exactly when no attribute matches, and
      otherwise is the value of a matching attribute after which none
      matches. */
  lemma {:induction false} LastAttrValueMeaning(attrs: seq<Attr>, name: string)
    ensures var v := LastAttrValue(attrs, name);
            && (v.None? <==> forall i :: 0 <= i < |attrs| ==> !NameIs(attrs[i].name, name))
            && (v.Some? ==> exists i :: 0 <= i < |attrs| && NameIs(attrs[i].name, name) && attrs[i].value == v.value
                                        && forall j :: i < j < |attrs| ==> !NameIs(attrs[j].name, name))
  {
    if attrs != [] {
      var n := |attrs| - 1;
      if !NameIs(attrs[n].name, name) {
        LastAttrValueMeaning(attrs[..n], name);
        assert forall i :: 0 <= i < n ==> attrs[..n][i] == attrs[i];
      }
    }
  }

  /** The last child element whose name matches `name`. */
  function LastElement(children: seq<Node>, name: string): (e: Option<Node>)
    ensures e.Some? ==> e.value.Element?
  {
    if children == [] then None
    else
      var n := |children| - 1;
      if children[n].Element? && NameIs(children[n].name, name) then Some(children[n])
      else LastElement(children[..n], name)
  }

  /** `LastElement` is absent exactly when no child element matches, and
      otherwise is a matching child element after which none matches. */
  lemma {:induction false} LastElementMeaning(children: seq<Node>, name: string)
    ensures var e := LastElement(children, name);
            && (e.None? <==> forall i :: 0 <= i < |children| ==> !(children[i].Element? && NameIs(children[i].name, name)))
            && (e.Some? ==> exists i :: 0 <= i < |children| && children[i] == e.value
                                        && e.value.Element? && NameIs(e.value.name, name)
                                        && forall j :: i < j < |children| ==> !(children[j].Element? && NameIs(children[j].name, name)))
  {
    if children != [] {
      var n := |children| - 1;
      if !(children[n].Element? && NameIs(children[n].name, name)) {
        LastElementMeaning(children[..n], name);
        assert forall i :: 0 <= i < n ==> children[..n][i] == children[i];
      }
    }
  }

  /** The list the legacy format gives for `name`, if an attribute names it. */
  function AttrRequest(attrs: seq<Attr>, name: string): Option<seq<string>> {
    match LastAttrValue(attrs, name)
    case None => None
    case Some(v) => Some(ParseFeaturesCsv(v))
  }

  /** The list the element format gives for `name`, if any child names it. */
  function ElementRequest(children: seq<Node>, name: string): Option<seq<string>> {
    match LastElement(children, name)
    case None => None
    case Some(e) => Some(ParseFeaturesElement(e))
  }

  /** The list requested for `axis`: a matching attribute wins over matching
      child elements, and among several matches of one kind the last one
      wins. `None` when the step names the axis in neither way. */
  function Requested(step: Node, axis: Axis): Option<seq<string>>
    requires step.Element?
  {
    var fromAttrs := AttrRequest(step.attrs, AxisName(axis));
    if fromAttrs.Some? then fromAttrs else ElementRequest(step.children, AxisName(axis))
  }

  predicate IsAxisName(name: string) {
    NameIs(name, DisableName) || NameIs(name, EnableName)
  }

  /** Names of the attributes that name neither axis, in order. */
  function UnknownAttrNames(attrs: seq<Attr>): seq<string> {
    if attrs == [] then []
    else
      var n := |attrs| - 1;
      UnknownAttrNames(attrs[..n]) + (if IsAxisName(attrs[n].name) then [] else [attrs[n].name])
  }

  /** Names of the child elements that name neither axis, in order. */
  function UnknownElementNames(children: seq<Node>): seq<string> {
    if children == [] then []
    else
      var n := |children| - 1;
      UnknownElementNames(children[..n])
        + (if children[n].Element? && !IsAxisName(children[n].name) then [children[n].name] else [])
  }

  /** The names the step warns about and skips. */
  function Unrecognized(step: Node): seq<string>
    requires step.Element?
  {
    UnknownAttrNames(step.attrs) + UnknownElementNames(step.children)
  }

  /** An axis is resolved from what names it alone: inserting attributes
      and child elements that name the other axis, or nothing recognised,
      at any position leaves its list as it was. */
  lemma OtherNamesIgnored(step: Node, axis: Axis, atAttr: nat, moreAttrs: seq<Attr>, atChild: nat, moreChildren: seq<Node>)
    requires step.Element? && atAttr <= |step.attrs| && atChild <= |step.children|
    requires forall a :: a in moreAttrs ==> !NameIs(a.name, AxisName(axis))
    requires forall c :: c in moreChildren ==> !(c.Element? && NameIs(c.name, AxisName(axis)))
    ensures Requested(step.(attrs := step.attrs[..atAttr] + moreAttrs + step.attrs[atAttr..],
                            children := step.children[..atChild] + moreChildren + step.children[atChild..]), axis)
            == Requested(step, axis)
  {
    LastAttrValueIgnoresMiddle(step.attrs[..atAttr], moreAttrs, step.attrs[atAttr..], AxisName(axis));
    assert step.attrs[..atAttr] + step.attrs[atAttr..] == step.attrs;
    LastElementIgnoresMiddle(step.children[..atChild], moreChildren, step.children[atChild..], AxisName(axis));
    assert step.children[..atChild] + step.children[atChild..] == step.children;
  }

  lemma {:induction false} LastAttrValueIgnoresMiddle(front: seq<Attr>, more: seq<Attr>, back: seq<Attr>, name: string)
    requires forall a :: a in more ==> !NameIs(a.name, name)
    ensures LastAttrValue(front + more + back, name) == LastAttrValue(front + back, name)
  {
    if back == [] {
      assert front + more + back == front + more;
      assert front + back == front;
      LastAttrValueIgnoresTail(front, more, name);
    } else {
      var n := |back| - 1;
      assert (front + more + back)[|front| + |more| + n] == back[n];
      assert (front + back)[|front| + n] == back[n];
      assert (front + more + back)[..|front| + |more| + n] == front + more + back[..n];
      assert (front + back)[..|front| + n] == front + back[..n];
      LastAttrValueIgnoresMiddle(front, more, back[..n], name);
    }
  }

  lemma {:induction false} LastElementIgnoresMiddle(front: seq<Node>, more: seq<Node>, back: seq<Node>, name: string)
    requires forall c :: c in more ==> !(c.Element? && NameIs(c.name, name))
    ensures LastElement(front + more + back, name) == LastElement(front + back, name)
  {
    if back == [] {
      assert front + more + back == front + more;
      assert front + back == front;
      LastElementIgnoresTail(front, more, name);
    } else {
      var n := |back| - 1;
      assert (front + more + back)[|front| + |more| + n] == back[n];
      assert (front + back)[|front| + n] == back[n];
      assert (front + more + back)[..|front| + |more| + n] == front + more + back[..n];
      assert (front + back)[..|front| + n] == front + back[..n];
      LastElementIgnoresMiddle(front, more, back[..n], name);
    }
  }

  /** With an attribute naming the axis, the child elements play no part
      for that axis: any other children give the same list, the one parsed
      from the last such attribute. */
  lemma AttributeWins(step: Node, axis: Axis, children: seq<Node>)
    requires step.Element? && LastAttrValue(step.attrs, AxisName(axis)).Some?
    ensures Requested(step.(children := children), axis) == Requested(step, axis)
    ensures Requested(step, axis) == Some(ParseFeaturesCsv(LastAttrValue(step.attrs, AxisName(axis)).value))
  {
  }

  lemma {:induction false} LastAttrValueIgnoresTail(attrs: seq<Attr>, more: seq<Attr>, name: string)
    requires forall a :: a in more ==> !NameIs(a.name, name)
    ensures LastAttrValue(attrs + more, name) == LastAttrValue(attrs, name)
  {
    if more != [] {
      var n := |more| - 1;
      assert (attrs + more)[..|attrs| + n] == attrs + more[..n];
      assert more[n] in more;
      LastAttrValueIgnoresTail(attrs, more[..n], name);
    } else {
      assert attrs + more == attrs;
    }
  }

  lemma {:induction false} LastElementIgnoresTail(children: seq<Node>, more: seq<Node>, name: string)
    requires forall c :: c in more ==> !(c.Element? && NameIs(c.name, name))
    ensures LastElement(children + more, name) == LastElement(children, name)
  {
    if more != [] {
      var n := |more| - 1;
      assert (children + more)[..|children| + n] == children + more[..n];
      assert more[n] in more;
      LastElementIgnoresTail(children, more[..n], name);
    } else {
      assert children + more == children;
    }
  }

  /** No name matches both axes. */
  lemma AxisNamesDisjoint(name: string)
    ensures !(NameIs(name, DisableName) && NameIs(name, EnableName))
  {
  }

  /**
   * The first `foreach` loop of `Execute`, over the attributes: each one
   * naming an axis overwrites that axis's list and sets its found flag;
   * any other is reported.
   */
  method ReadAttributes(attrs: seq<Attr>)
    returns (toDisable: Option<seq<string>>, toEnable: Option<seq<string>>, warnings: seq<string>)
    ensures toDisable == AttrRequest(attrs, DisableName)
    ensures toEnable == AttrRequest(attrs, EnableName)
    ensures warnings == UnknownAttrNames(attrs)
  {
    toDisable, toEnable, warnings := None, None, [];
    var i := 0;
    while i < |attrs|
      invariant 0 <= i <= |attrs|
      invariant toDisable == AttrRequest(attrs[..i], DisableName)
      invariant toEnable == AttrRequest(attrs[..i], EnableName)
      invariant warnings == UnknownAttrNames(attrs[..i])
    {
      var a := attrs[i];
      AttrStep(attrs, i);
      AxisNamesDisjoint(a.name);
      if NameIs(a.name, DisableName) {
        toDisable := Some(ParseFeaturesCsv(a.value));
      } else if NameIs(a.name, EnableName) {
        toEnable := Some(ParseFeaturesCsv(a.value));
      } else {
        warnings := warnings + [a.name];
      }
      i := i + 1;
      assert toDisable == AttrRequest(attrs[..i], DisableName);
      assert toEnable == AttrRequest(attrs[..i], EnableName);
      assert warnings == UnknownAttrNames(attrs[..i]);
    }
    assert attrs[..i] == attrs;
  }

  /** What one more attribute does to the lists and the warnings. */
  lemma AttrStep(attrs: seq<Attr>, i: nat)
    requires i < |attrs|
    ensures AttrRequest(attrs[..i + 1], DisableName)
            == if NameIs(attrs[i].name, DisableName) then Some(ParseFeaturesCsv(attrs[i].value))
               else AttrRequest(attrs[..i], DisableName)
    ensures AttrRequest(attrs[..i + 1], EnableName)
            == if NameIs(attrs[i].name, EnableName) then Some(ParseFeaturesCsv(attrs[i].value))
               else AttrRequest(attrs[..i], EnableName)
    ensures UnknownAttrNames(attrs[..i + 1])
            == UnknownAttrNames(attrs[..i]) + if IsAxisName(attrs[i].name) then [] else [attrs[i].name]
  {
    assert attrs[..i + 1][..i] == attrs[..i];
  }

  /**
   * The second `foreach` loop of `Execute`, over the child elements: one
   * naming an axis overwrites that axis's list unless the axis was found
   * among the attributes; any other is reported.
   */
  method ReadElements(children: seq<Node>, foundDisabled: bool, foundEnabled: bool,
                      disableBefore: Option<seq<string>>, enableBefore: Option<seq<string>>)
    returns (toDisable: Option<seq<string>>, toEnable: Option<seq<string>>, warnings: seq<string>)
    ensures toDisable == if foundDisabled then disableBefore else ElementRequest(children, DisableName)
    ensures toEnable == if foundEnabled then enableBefore else ElementRequest(children, EnableName)
    ensures warnings == UnknownElementNames(children)
  {
    toDisable := if foundDisabled then disableBefore else None;
    toEnable := if foundEnabled then enableBefore else None;
    warnings := [];
    var j := 0;
    while j < |children|
      invariant 0 <= j <= |children|
      invariant toDisable == if foundDisabled then disableBefore else ElementRequest(children[..j], DisableName)
      invariant toEnable == if foundEnabled then enableBefore else ElementRequest(children[..j], EnableName)
      invariant warnings == UnknownElementNames(children[..j])
    {
      var c := children[j];
      assert children[..j + 1][..j] == children[..j] && children[..j + 1][j] == c;
      if c.Element? {
        AxisNamesDisjoint(c.name);
        if NameIs(c.name, DisableName) {
          if !foundDisabled {
            toDisable := Some(ParseFeaturesElement(c));
          }
        } else if NameIs(c.name, EnableName) {
          if !foundEnabled {
            toEnable := Some(ParseFeaturesElement(c));
          }
        } else {
          warnings := warnings + [c.name];
        }
      }
      j := j + 1;
    }
    assert children[..j] == children;
  }

  // ---------------------------------------------------------------------
  // Validation

  /** The configuration error raised for a requested id that is not
      available. */
  datatype ImportError = FeatureNotFound(axis: Axis, id: string)

  /** The position of the first id in `ids` that is not available, if any
      (ordinal comparison). */
  function FirstMissing(ids: seq<string>, available: seq<string>): (k: Option<nat>)
    ensures k.None? <==> forall i :: 0 <= i < |ids| ==> ids[i] in available
    ensures k.Some? ==> k.value < |ids| && ids[k.value] !in available
                        && forall i :: 0 <= i < k.value ==> ids[i] in available
  {
    if ids == [] then None
    else if ids[0] !in available then Some(0)
    else match FirstMissing(ids[1..], available)
      case None => None
      case Some(k) => Some(k + 1)
  }

  /** The check of one axis's list: it fails on the first missing id. */
  function CheckIds(ids: Option<seq<string>>, available: seq<string>, axis: Axis): Outcome<ImportError> {
    match ids
    case None => Pass
    case Some(l) =>
      match FirstMissing(l, available)
      case None => Pass
      case Some(k) => Fail(FeatureNotFound(axis, l[k]))
  }

  /** The whole validation: the disable list first, then the enable list. */
  function Validate(available: seq<string>, toDisable: Option<seq<string>>, toEnable: Option<seq<string>>)
    : Outcome<ImportError>
  {
    var d := CheckIds(toDisable, available, Disable);
    if d.Fail? then d else CheckIds(toEnable, available, Enable)
  }

  /** `id` is the first id of `ids` that is not available. */
  ghost predicate FirstMissingIs(ids: seq<string>, available: seq<string>, id: string) {
    exists k :: 0 <= k < |ids| && ids[k] == id && id !in available
                && forall i :: 0 <= i < k ==> ids[i] in available
  }

  /** Validation passes exactly when every requested id is available; when
      it fails, it names the first missing disable id if there is one, and
      otherwise the first missing enable id. */
  lemma ValidateMeaning(available: seq<string>, toDisable: Option<seq<string>>, toEnable: Option<seq<string>>)
    ensures var r := Validate(available, toDisable, toEnable);
            && (r.Pass? <==> (toDisable.Some? ==> forall t :: t in toDisable.value ==> t in available)
                             && (toEnable.Some? ==> forall t :: t in toEnable.value ==> t in available))
            && (r.Fail? && r.error.axis == Disable ==>
                  toDisable.Some? && FirstMissingIs(toDisable.value, available, r.error.id))
            && (r.Fail? && r.error.axis == Enable ==>
                  (toDisable.Some? ==> forall t :: t in toDisable.value ==> t in available)
                  && toEnable.Some? && FirstMissingIs(toEnable.value, available, r.error.id))
  {
    if toDisable.Some? {
      var m := FirstMissing(toDisable.value, available);
      if m.Some? { assert toDisable.value[m.value] in toDisable.value; }
    }
    if toEnable.Some? {
      var m := FirstMissing(toEnable.value, available);
      if m.Some? { assert toEnable.value[m.value] in toEnable.value; }
    }
  }

  /** The validation loop for one axis. */
  method CheckAvailable(ids: Option<seq<string>>, available: seq<string>, axis: Axis)
    returns (r: Outcome<ImportError>)
    ensures r == CheckIds(ids, available, axis)
  {
    r := Pass;
    if ids.None? {
      return;
    }
    var l := ids.value;
    var i := 0;
    while i < |l|
      invariant 0 <= i <= |l|
      invariant forall k :: 0 <= k < i ==> l[k] in available
    {
      if l[i] !in available {
        r := Fail(FeatureNotFound(axis, l[i]));
        return;
      }
      i := i + 1;
    }
  }

  // ---------------------------------------------------------------------
  // Applying the step

  /** The calls made once validation passes: disable before enable, each
      only for a non-empty list, with the list as parsed and force set. */
  function ApplyCalls(toDisable: Option<seq<string>>, toEnable: Option<seq<string>>): seq<FeatureCall> {
    (if toDisable.Some? && toDisable.value != [] then [DisableCall(toDisable.value, true)] else [])
    + (if toEnable.Some? && toEnable.value != [] then [EnableCall(toEnable.value, true)] else [])
  }

  /** A step that names neither axis asks for nothing and cannot fail. */
  lemma EmptyStepDoesNothing(step: Node, available: seq<string>)
    requires step.Element?
    requires forall a :: a in step.attrs ==> !IsAxisName(a.name)
    requires forall c :: c in step.children ==> !(c.Element? && IsAxisName(c.name))
    ensures Requested(step, Disable) == None && Requested(step, Enable) == None
    ensures Validate(available, Requested(step, Disable), Requested(step, Enable)) == Pass
    ensures ApplyCalls(Requested(step, Disable), Requested(step, Enable)) == []
  {
    assert forall i :: 0 <= i < |step.attrs| ==> step.attrs[i] in step.attrs;
    assert forall i :: 0 <= i < |step.children| ==> step.children[i] in step.children;
    LastAttrValueMeaning(step.attrs, DisableName);
    LastAttrValueMeaning(step.attrs, EnableName);
    LastElementMeaning(step.children, DisableName);
    LastElementMeaning(step.children, EnableName);
  }

  /** The import step, holding the feature manager it acts on. */
  class ImportFeatureStep {
    const featureManager: FeatureManager

    constructor (featureManager: FeatureManager)
      ensures this.featureManager == featureManager
    {
      this.featureManager := featureManager;
    }

    /**
     * `Execute`: reads both lists, validates every id before any change,
     * then disables and enables. On a validation failure no call is made.
     * `warnings` are the skipped names the step logs.
     */
    method Execute(step: Node) returns (outcome: Outcome<ImportError>, warnings: seq<string>)
      requires step.Element?
      modifies featureManager`calls
      ensures outcome == Validate(featureManager.available, Requested(step, Disable), Requested(step, Enable))
      ensures outcome.Fail? ==> featureManager.calls == old(featureManager.calls)
      ensures outcome.Pass? ==>
                featureManager.calls == old(featureManager.calls)
                                        + ApplyCalls(Requested(step, Disable), Requested(step, Enable))
      ensures warnings == Unrecognized(step)
    {
      var disableAttr, enableAttr, w1 := ReadAttributes(step.attrs);
      var toDisable, toEnable, w2 := ReadElements(step.children, disableAttr.Some?, enableAttr.Some?,
                                                  disableAttr, enableAttr);
      warnings := w1 + w2;
      outcome := ValidateAndApply(toDisable, toEnable);
    }

    /** The validation loops followed by the two guarded manager calls. */
    method ValidateAndApply(toDisable: Option<seq<string>>, toEnable: Option<seq<string>>)
      returns (outcome: Outcome<ImportError>)
      modifies featureManager`calls
      ensures outcome == Validate(featureManager.available, toDisable, toEnable)
      ensures outcome.Fail? ==> featureManager.calls == old(featureManager.calls)
      ensures outcome.Pass? ==> featureManager.calls == old(featureManager.calls) + ApplyCalls(toDisable, toEnable)
    {
      var available := featureManager.available;
      outcome := CheckAvailable(toDisable, available, Disable);
      if outcome.Fail? {
        return;
      }
      outcome := CheckAvailable(toEnable, available, Enable);
      if outcome.Fail? {
        return;
      }
      if toDisable.Some? && |toDisable.value| > 0 {
        featureManager.DisableFeatures(toDisable.value, true);
      }
      if toEnable.Some? && |toEnable.value| > 0 {
        featureManager.EnableFeatures(toEnable.value, true);
      }
    }
  }
}
