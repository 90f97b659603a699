/**
 * The `QueryMemberBindings` recipe step on import: each `Binding` child of
 * the step becomes a member binding record, upserted into the record table
 * as though (Member, Type, DisplayName) were a unique key.
 */
module BindingExecution {
  import opened Wrappers
  import opened Xml
  import opened BindingBuilder

  // ---------------------------------------------------------------------
  // Records and bindings

  /** The four values a `Binding` element carries. */
  datatype Binding = Binding(member: string, typeName: string, displayName: string, description: string)

  /** A row of the member binding table. */
  datatype MemberBindingRecord =
    MemberBindingRecord(id: nat, member: string, typeName: string, displayName: string, description: string)

  /** The columns the step treats as a unique key. */
  datatype Key = Key(member: string, typeName: string, displayName: string)

  function KeyOf(r: MemberBindingRecord): Key {
    Key(r.member, r.typeName, r.displayName)
  }

  function BindingKey(b: Binding): Key {
    Key(b.member, b.typeName, b.displayName)
  }

  /** The record with id `id` and the values of `b`. */
  function WithBinding(id: nat, b: Binding): MemberBindingRecord {
    MemberBindingRecord(id, b.member, b.typeName, b.displayName, b.description)
  }

  // ---------------------------------------------------------------------
  // Reading the step

  /** The attribute a `Binding` element lacks; reading its value fails. */
  datatype BindingError = MissingAttribute(name: string)

  predicate HasAttribute(attrs: seq<Attr>, name: string) {
    exists i :: 0 <= i < |attrs| && attrs[i].name == name
  }

  /** `Attribute(name).Value`: the value of the first attribute with exactly
      that name, if there is one. */
  function AttributeValue(attrs: seq<Attr>, name: string): (v: Option<string>)
    ensures v.None? <==> !HasAttribute(attrs, name)
    ensures v.Some? ==> exists i :: 0 <= i < |attrs| && attrs[i].name == name && attrs[i].value == v.value
                                    && forall j :: 0 <= j < i ==> attrs[j].name != name
  {
    if attrs == [] then None
    else if attrs[0].name == name then Some(attrs[0].value)
    else
      var rest := AttributeValue(attrs[1..], name);
      assert forall i :: 0 < i < |attrs| ==> attrs[1..][i - 1] == attrs[i];
      rest
  }

  /** The binding an element describes, reading Member, Type, DisplayName
      and Description in that order; the first missing one is the error. */
  function ParseBinding(e: Node): (r: Result<Binding, BindingError>)
    requires e.Element?
    ensures r.Success? <==> HasAttribute(e.attrs, MemberName) && HasAttribute(e.attrs, TypeName)
                            && HasAttribute(e.attrs, DisplayNameName) && HasAttribute(e.attrs, DescriptionName)
    ensures r.Failure? ==> r.error == MissingAttribute(
              if !HasAttribute(e.attrs, MemberName) then MemberName
              else if !HasAttribute(e.attrs, TypeName) then TypeName
              else if !HasAttribute(e.attrs, DisplayNameName) then DisplayNameName
              else DescriptionName)
    ensures r.Success? ==> r.value == Binding(AttributeValue(e.attrs, MemberName).value,
                                              AttributeValue(e.attrs, TypeName).value,
                                              AttributeValue(e.attrs, DisplayNameName).value,
                                              AttributeValue(e.attrs, DescriptionName).value)
  {
    var member := AttributeValue(e.attrs, MemberName);
    var typeName := AttributeValue(e.attrs, TypeName);
    var displayName := AttributeValue(e.attrs, DisplayNameName);
    var description := AttributeValue(e.attrs, DescriptionName);
    if member.None? then Failure(MissingAttribute(MemberName))
    else if typeName.None? then Failure(MissingAttribute(TypeName))
    else if displayName.None? then Failure(MissingAttribute(DisplayNameName))
    else if description.None? then Failure(MissingAttribute(DescriptionName))
    else Success(Binding(member.value, typeName.value, displayName.value, description.value))
  }

  /** `Elements("Binding")` selects direct children with exactly this name. */
  predicate IsBindingElement(n: Node) {
    n.Element? && n.name == BindingElementName
  }

  /** The direct `Binding` children, in document order. */
  function BindingChildren(children: seq<Node>): seq<Node> {
    if children == [] then []
    else
      var n := |children| - 1;
      BindingChildren(children[..n]) + (if IsBindingElement(children[n]) then [children[n]] else [])
  }

  /** What the step reads: the bindings of the `Binding` children up to the
      first one that lacks an attribute, and that failure if there is one. */
  datatype Parsed = Parsed(bindings: seq<Binding>, outcome: Outcome<BindingError>)

  function StepBindings(children: seq<Node>): Parsed {
    if children == [] then Parsed([], Pass)
    else
      var n := |children| - 1;
      ReadChild(StepBindings(children[..n]), children[n])
  }

  /** What reading one more child adds: nothing after a failure or for a
      child that is not a `Binding` element; otherwise its binding, or the
      failure to read it. */
  function ReadChild(before: Parsed, child: Node): (after: Parsed)
    ensures |before.bindings| <= |after.bindings| <= |before.bindings| + 1
    ensures !IsBindingElement(child) ==> after == before
  {
    if before.outcome.Fail? || !IsBindingElement(child) then before
    else match ParseBinding(child)
      case Failure(e) => Parsed(before.bindings, Fail(e))
      case Success(b) => Parsed(before.bindings + [b], Pass)
  }

  /** `n` is a `Binding` element that reads as `b`. */
  predicate Reads(n: Node, b: Binding) {
    n.Element? && ParseBinding(n) == Success(b)
  }

  /** `n` is an element whose reading fails with `e`. */
  predicate Fails(n: Node, e: BindingError) {
    n.Element? && ParseBinding(n) == Failure(e)
  }

  /** `p` is what reading the `Binding` children `bs` gives. Its bindings
      are those of the first children in order. When it passes they cover
      every child; when it fails, the next child is the one that does not
      read, and its error is the outcome. */
  predicate ReadsAs(p: Parsed, bs: seq<Node>) {
    && (forall i :: 0 <= i < |p.bindings| && i < |bs| ==> Reads(bs[i], p.bindings[i]))
    && (p.outcome.Pass? ==> |p.bindings| == |bs|)
    && (p.outcome.Fail? ==> |p.bindings| < |bs| && Fails(bs[|p.bindings|], p.outcome.error))
  }

  /** What a step reads, child by child. When it passes, it holds the
      binding of every `Binding` child in document order. When it fails,
      it holds the bindings of the `Binding` children before the first one
      that does not read, and that one's error. */
  lemma {:induction false} StepBindingsMeaning(children: seq<Node>)
    ensures ReadsAs(StepBindings(children), BindingChildren(children))
  {
    if children != [] {
      var n := |children| - 1;
      StepBindingsMeaning(children[..n]);
      var bs := BindingChildren(children[..n]);
      if IsBindingElement(children[n]) {
        assert BindingChildren(children) == bs + [children[n]];
        ReadChildMeaning(StepBindings(children[..n]), bs, children[n]);
      } else {
        assert BindingChildren(children) == bs;
      }
    }
  }

  /** Every node of `bs` is an element that reads as a binding. */
  predicate AllRead(bs: seq<Node>) {
    forall i :: 0 <= i < |bs| ==> bs[i].Element? && ParseBinding(bs[i]).Success?
  }

  /** A step reads without failing exactly when every `Binding` child
      carries all four attributes. */
  lemma StepBindingsPassIff(children: seq<Node>)
    ensures StepBindings(children).outcome.Pass? <==> AllRead(BindingChildren(children))
  {
    StepBindingsMeaning(children);
    var p := StepBindings(children);
    var bs := BindingChildren(children);
    if p.outcome.Pass? {
      forall i | 0 <= i < |bs| ensures bs[i].Element? && ParseBinding(bs[i]).Success? {
        assert Reads(bs[i], p.bindings[i]);
      }
    } else {
      var k := |p.bindings|;
      assert Fails(bs[k], p.outcome.error);
      assert !AllRead(bs);
    }
  }

  /** Reading one more `Binding` child keeps `ReadsAs`. */
  lemma ReadChildMeaning(p: Parsed, bs: seq<Node>, child: Node)
    requires IsBindingElement(child) && ReadsAs(p, bs)
    ensures ReadsAs(ReadChild(p, child), bs + [child])
  {
    if p.outcome.Fail? {
      ReadAfterFailure(p, bs, child);
    } else {
      match ParseBinding(child)
      case Failure(e) => ReadFailing(p, bs, child, e);
      case Success(b) => ReadSucceeding(p, bs, child, b);
    }
  }

  lemma ReadAfterFailure(p: Parsed, bs: seq<Node>, child: Node)
    requires p.outcome.Fail? && ReadsAs(p, bs)
    ensures ReadsAs(p, bs + [child])
  {
    assert (bs + [child])[|p.bindings|] == bs[|p.bindings|];
  }

  lemma ReadFailing(p: Parsed, bs: seq<Node>, child: Node, e: BindingError)
    requires p.outcome.Pass? && ReadsAs(p, bs) && Fails(child, e)
    ensures ReadsAs(Parsed(p.bindings, Fail(e)), bs + [child])
  {
    assert (bs + [child])[|bs|] == child;
  }

  lemma ReadSucceeding(p: Parsed, bs: seq<Node>, child: Node, b: Binding)
    requires p.outcome.Pass? && ReadsAs(p, bs) && Reads(child, b)
    ensures ReadsAs(Parsed(p.bindings + [b], Pass), bs + [child])
  {
    forall i | 0 <= i < |bs| + 1 ensures Reads((bs + [child])[i], (p.bindings + [b])[i]) {
      if i < |bs| {
        assert (bs + [child])[i] == bs[i];
        assert (p.bindings + [b])[i] == p.bindings[i];
      }
    }
  }

  // ---------------------------------------------------------------------
  // The table and the upsert

  /** The member binding table and the id the next created record gets. */
  datatype Table = Table(records: seq<MemberBindingRecord>, nextId: nat)

  /** Ids are distinct and below `nextId`, as the table's identity column
      guarantees. */
  predicate ValidTable(t: Table) {
    && (forall i, j :: 0 <= i < j < |t.records| ==> t.records[i].id != t.records[j].id)
    && (forall i :: 0 <= i < |t.records| ==> t.records[i].id < t.nextId)
  }

  function Keys(records: seq<MemberBindingRecord>): (ks: seq<Key>)
    ensures |ks| == |records|
  {
    seq(|records|, i requires 0 <= i < |records| => KeyOf(records[i]))
  }

  /** `Fetch` with the key predicate: the records with key `k`, in table
      order. */
  function Matching(records: seq<MemberBindingRecord>, k: Key): seq<MemberBindingRecord> {
    if records == [] then []
    else
      var n := |records| - 1;
      Matching(records[..n], k) + (if KeyOf(records[n]) == k then [records[n]] else [])
  }

  /** `Update` of the record with the id of `r`: it takes the values of `r`. */
  function ReplaceById(records: seq<MemberBindingRecord>, r: MemberBindingRecord): seq<MemberBindingRecord> {
    seq(|records|, i requires 0 <= i < |records| => if records[i].id == r.id then r else records[i])
  }

  /** Every record with the key of `b` takes the values of `b` and keeps its
      id. */
  function Overwrite(records: seq<MemberBindingRecord>, b: Binding): seq<MemberBindingRecord> {
    seq(|records|, i requires 0 <= i < |records| =>
      if KeyOf(records[i]) == BindingKey(b) then WithBinding(records[i].id, b) else records[i])
  }

  /** One `Binding` element's effect: when no record has its key, a record
      with its values is created; otherwise every record with its key is
      updated. */
  function Upsert(t: Table, b: Binding): Table {
    if Matching(t.records, BindingKey(b)) == [] then Table(t.records + [WithBinding(t.nextId, b)], t.nextId + 1)
    else Table(Overwrite(t.records, b), t.nextId)
  }

  /** The upserts of `bs`, in order. */
  function UpsertAll(t: Table, bs: seq<Binding>): Table {
    if bs == [] then t
    else
      var n := |bs| - 1;
      Upsert(UpsertAll(t, bs[..n]), bs[n])
  }

  /** The effect of the whole step: the table after the bindings read, and
      the failure that stopped it, if any. Upserts made before a failing
      element stay. */
  datatype StepResult = StepResult(table: Table, outcome: Outcome<BindingError>)

  function ExecuteStep(t: Table, children: seq<Node>): StepResult {
    var p := StepBindings(children);
    StepResult(UpsertAll(t, p.bindings), p.outcome)
  }

  // ---------------------------------------------------------------------
  // Properties of one upsert

  lemma {:induction false} MatchingMeaning(records: seq<MemberBindingRecord>, k: Key)
    ensures forall r :: r in Matching(records, k) <==> r in records && KeyOf(r) == k
    ensures Matching(records, k) == [] <==> k !in Keys(records)
  {
    if records != [] {
      var n := |records| - 1;
      MatchingMeaning(records[..n], k);
      assert records == records[..n] + [records[n]];
      assert Keys(records) == Keys(records[..n]) + [KeyOf(records[n])];
    }
  }

  /** With distinct ids, a record's id is among the fetched ids exactly when
      the record has the key fetched. */
  lemma MatchingIds(records: seq<MemberBindingRecord>, k: Key)
    requires forall i, j :: 0 <= i < j < |records| ==> records[i].id != records[j].id
    ensures forall m :: 0 <= m < |records| ==>
              (records[m].id in IdsOf(Matching(records, k)) <==> KeyOf(records[m]) == k)
  {
    MatchingMeaning(records, k);
    forall m | 0 <= m < |records|
      ensures records[m].id in IdsOf(Matching(records, k)) ==> KeyOf(records[m]) == k
    {
      if records[m].id in IdsOf(Matching(records, k)) {
        var r :| r in Matching(records, k) && r.id == records[m].id;
        var p :| 0 <= p < |records| && records[p] == r;
        assert p == m;
      }
    }
  }

  function IdsOf(rs: seq<MemberBindingRecord>): set<nat> {
    set r | r in rs :: r.id
  }

  /** The upsert as the step promises it: without a record of the key,
      exactly one record is created, with the next id and the element's
      values; with such records, none is created and each of them keeps its
      id and takes the element's values. Records with another key are left
      untouched, and afterwards some record has the key and the element's
      description. */
  lemma UpsertMeaning(t: Table, b: Binding)
    ensures var u := Upsert(t, b);
            var k := BindingKey(b);
            && (k !in Keys(t.records) ==> |u.records| == |t.records| + 1 && u.records[|t.records|] == WithBinding(t.nextId, b)
                                          && u.nextId == t.nextId + 1)
            && (k in Keys(t.records) ==> |u.records| == |t.records| && u.nextId == t.nextId)
            && (forall i :: 0 <= i < |t.records| ==>
                  && u.records[i].id == t.records[i].id
                  && (KeyOf(t.records[i]) == k ==> u.records[i] == WithBinding(t.records[i].id, b))
                  && (KeyOf(t.records[i]) != k ==> u.records[i] == t.records[i]))
            && (exists i :: 0 <= i < |u.records| && KeyOf(u.records[i]) == k && u.records[i].description == b.description)
  {
    var k := BindingKey(b);
    MatchingMeaning(t.records, k);
    var u := Upsert(t, b);
    if k in Keys(t.records) {
      var i :| 0 <= i < |t.records| && Keys(t.records)[i] == k;
      assert KeyOf(u.records[i]) == k;
    } else {
      assert KeyOf(u.records[|t.records|]) == k;
    }
  }

  /** The upsert keeps ids distinct and below `nextId`. */
  lemma UpsertKeepsValid(t: Table, b: Binding)
    requires ValidTable(t)
    ensures ValidTable(Upsert(t, b))
  {
    UpsertMeaning(t, b);
  }

  lemma {:induction false} UpsertAllKeepsValid(t: Table, bs: seq<Binding>)
    requires ValidTable(t)
    ensures ValidTable(UpsertAll(t, bs))
  {
    if bs != [] {
      var n := |bs| - 1;
      UpsertAllKeepsValid(t, bs[..n]);
      UpsertKeepsValid(UpsertAll(t, bs[..n]), bs[n]);
    }
  }

  /** Each upsert adds at most one record. */
  lemma {:induction false} UpsertAllGrowth(t: Table, bs: seq<Binding>)
    ensures |t.records| <= |UpsertAll(t, bs).records| <= |t.records| + |bs|
  {
    if bs != [] {
      var n := |bs| - 1;
      UpsertAllGrowth(t, bs[..n]);
      UpsertMeaning(UpsertAll(t, bs[..n]), bs[n]);
    }
  }

  // ---------------------------------------------------------------------
  // Properties of the whole step

  /** Only the direct `Binding` children count, in document order: the
      step reads the same from them alone. */
  lemma {:induction false} OnlyBindingChildren(children: seq<Node>)
    ensures StepBindings(children) == StepBindings(BindingChildren(children))
    ensures |StepBindings(children).bindings| <= |BindingChildren(children)|
  {
    if children != [] {
      var n := |children| - 1;
      OnlyBindingChildren(children[..n]);
      var bc := BindingChildren(children[..n]);
      if IsBindingElement(children[n]) {
        assert BindingChildren(children) == bc + [children[n]];
        assert (bc + [children[n]])[..|bc|] == bc;
        assert StepBindings(BindingChildren(children)) == ReadChild(StepBindings(bc), children[n]);
      } else {
        assert BindingChildren(children) == bc;
      }
    }
  }

  /** The record count grows by at most one per `Binding` child, and the
      table stays valid. */
  lemma ExecuteStepGrowth(t: Table, children: seq<Node>)
    requires ValidTable(t)
    ensures var r := ExecuteStep(t, children);
            && ValidTable(r.table)
            && |t.records| <= |r.table.records| <= |t.records| + |BindingChildren(children)|
  {
    OnlyBindingChildren(children);
    UpsertAllGrowth(t, StepBindings(children).bindings);
    UpsertAllKeepsValid(t, StepBindings(children).bindings);
  }

  /** The last of `bs` with key `k`. */
  function Latest(bs: seq<Binding>, k: Key): (r: Option<Binding>)
    ensures r.Some? ==> BindingKey(r.value) == k
    ensures r.None? <==> forall j :: 0 <= j < |bs| ==> BindingKey(bs[j]) != k
  {
    if bs == [] then None
    else
      var n := |bs| - 1;
      if BindingKey(bs[n]) == k then Some(bs[n])
      else
        var r := Latest(bs[..n], k);
        assert forall j :: 0 <= j < n ==> bs[..n][j] == bs[j];
        r
  }

  /** After the bindings `bs`, every key they name has a record, and every
      record with such a key holds the values of the last binding with it. */
  predicate Settled(t: Table, bs: seq<Binding>) {
    && (forall i :: 0 <= i < |t.records| && Latest(bs, KeyOf(t.records[i])).Some? ==>
          t.records[i] == WithBinding(t.records[i].id, Latest(bs, KeyOf(t.records[i])).value))
    && (forall j :: 0 <= j < |bs| ==> BindingKey(bs[j]) in Keys(t.records))
  }

  /** Whatever the table held before, the upserts of `bs` settle it. */
  lemma {:induction false} UpsertAllSettles(t: Table, bs: seq<Binding>)
    ensures Settled(UpsertAll(t, bs), bs)
  {
    if bs != [] {
      var n := |bs| - 1;
      UpsertAllSettles(t, bs[..n]);
      assert bs == bs[..n] + [bs[n]];
      UpsertSettles(UpsertAll(t, bs[..n]), bs[..n], bs[n]);
    }
  }

  /** One more upsert extends what is settled by one binding. */
  lemma UpsertSettles(t: Table, bs: seq<Binding>, b: Binding)
    requires Settled(t, bs)
    ensures Settled(Upsert(t, b), bs + [b])
  {
    var after := Upsert(t, b);
    var bs' := bs + [b];
    UpsertMeaning(t, b);
    assert bs'[..|bs|] == bs;
    forall i | 0 <= i < |after.records| && Latest(bs', KeyOf(after.records[i])).Some?
      ensures after.records[i] == WithBinding(after.records[i].id, Latest(bs', KeyOf(after.records[i])).value)
    {
      if i < |t.records| && KeyOf(t.records[i]) != BindingKey(b) {
        assert after.records[i] == t.records[i];
      }
    }
    forall j | 0 <= j < |bs'| ensures BindingKey(bs'[j]) in Keys(after.records) {
      var k := BindingKey(bs'[j]);
      if j < |bs| {
        assert bs'[j] == bs[j];
      }
      assert k in Keys(t.records) || k == BindingKey(b);
      if k in Keys(t.records) {
        var m :| 0 <= m < |t.records| && Keys(t.records)[m] == k;
        assert Keys(after.records)[m] == k;
      } else {
        assert Keys(after.records)[|t.records|] == k;
      }
    }
  }

  /** Each record takes the values of the last of `bs` with its key, if any. */
  function Refresh(records: seq<MemberBindingRecord>, bs: seq<Binding>): seq<MemberBindingRecord> {
    seq(|records|, i requires 0 <= i < |records| =>
      match Latest(bs, KeyOf(records[i]))
      case None => records[i]
      case Some(b) => WithBinding(records[i].id, b))
  }

  /** When every key of `bs` already has a record, the upserts create
      nothing and leave each record with the values of the last binding with
      its key. */
  lemma {:induction false} UpsertAllWhenKeysPresent(t: Table, bs: seq<Binding>)
    requires forall j :: 0 <= j < |bs| ==> BindingKey(bs[j]) in Keys(t.records)
    ensures UpsertAll(t, bs) == Table(Refresh(t.records, bs), t.nextId)
  {
    if bs == [] {
      RefreshNothing(t.records);
    } else {
      var n := |bs| - 1;
      KeysPresentPrefix(t.records, bs, n);
      UpsertAllWhenKeysPresent(t, bs[..n]);
      assert bs == bs[..n] + [bs[n]];
      RefreshStep(t.records, t.nextId, bs[..n], bs[n]);
    }
  }

  lemma RefreshNothing(records: seq<MemberBindingRecord>)
    ensures Refresh(records, []) == records
  {
  }

  lemma KeysPresentPrefix(records: seq<MemberBindingRecord>, bs: seq<Binding>, n: nat)
    requires n <= |bs|
    requires forall j :: 0 <= j < |bs| ==> BindingKey(bs[j]) in Keys(records)
    ensures forall j :: 0 <= j < n ==> BindingKey(bs[..n][j]) in Keys(records)
  {
    forall j | 0 <= j < n ensures BindingKey(bs[..n][j]) in Keys(records) {
      assert bs[..n][j] == bs[j];
    }
  }

  /** Refreshing keeps every record's key, and with a key already present
      one more binding is an overwrite. */
  lemma RefreshStep(records: seq<MemberBindingRecord>, nextId: nat, bs: seq<Binding>, b: Binding)
    requires BindingKey(b) in Keys(records)
    ensures Upsert(Table(Refresh(records, bs), nextId), b) == Table(Refresh(records, bs + [b]), nextId)
  {
    var before := Refresh(records, bs);
    var bs' := bs + [b];
    assert bs'[..|bs|] == bs;
    assert Keys(before) == Keys(records) by {
      forall i | 0 <= i < |records| ensures KeyOf(before[i]) == KeyOf(records[i]) {
      }
    }
    MatchingMeaning(before, BindingKey(b));
    assert Overwrite(before, b) == Refresh(records, bs');
  }

  /** Re-executing a step changes nothing: the second run creates no record,
      changes no value and ends the same way. */
  lemma ExecuteStepIdempotent(t: Table, children: seq<Node>)
    ensures ExecuteStep(ExecuteStep(t, children).table, children) == ExecuteStep(t, children)
  {
    var bs := StepBindings(children).bindings;
    var once := UpsertAll(t, bs);
    UpsertAllSettles(t, bs);
    UpsertAllWhenKeysPresent(once, bs);
    assert Refresh(once.records, bs) == once.records;
  }

  // ---------------------------------------------------------------------
  // Export, then import

  /** The binding each item with a declaring type stands for. */
  function ItemBindings(items: seq<BindingItem>): seq<Binding> {
    if items == [] then []
    else
      var n := |items| - 1;
      var item := items[n];
      ItemBindings(items[..n])
        + (if item.declaringType.Some?
           then [Binding(item.propertyName, item.declaringType.value, item.displayName, item.description)]
           else [])
  }

  /** The four attribute names differ from one another. */
  lemma AttributeNamesDistinct()
    ensures MemberName != TypeName && MemberName != DisplayNameName && MemberName != DescriptionName
    ensures TypeName != DisplayNameName && TypeName != DescriptionName
    ensures DisplayNameName != DescriptionName
  {
    assert |TypeName| == 4 && |MemberName| == 6 && |DisplayNameName| == 11;
    assert DisplayNameName[1] != DescriptionName[1];
  }

  /** The value of the attribute at `i`, when no earlier one has its name. */
  lemma FirstWithName(attrs: seq<Attr>, name: string, i: nat)
    requires i < |attrs| && attrs[i].name == name
    requires forall j :: 0 <= j < i ==> attrs[j].name != name
    ensures AttributeValue(attrs, name) == Some(attrs[i].value)
  {
  }

  /** An element written on export reads back as its item's binding. */
  lemma ParseBindingElement(typeName: string, item: BindingItem)
    ensures ParseBinding(BindingElement(typeName, item))
            == Success(Binding(item.propertyName, typeName, item.displayName, item.description))
  {
    var attrs := BindingElement(typeName, item).attrs;
    AttributeNamesDistinct();
    FirstWithName(attrs, TypeName, 0);
    FirstWithName(attrs, MemberName, 1);
    FirstWithName(attrs, DisplayNameName, 2);
    FirstWithName(attrs, DescriptionName, 3);
  }

  /** Round trip: importing an exported step reads every item that has a
      declaring type, in order, and does not fail. */
  lemma {:induction false} ExportedBindingsReadBack(items: seq<BindingItem>)
    ensures StepBindings(BindingElements(items)) == Parsed(ItemBindings(items), Pass)
  {
    if items != [] {
      var n := |items| - 1;
      var item := items[n];
      ExportedBindingsReadBack(items[..n]);
      var es := BindingElements(items[..n]);
      if item.declaringType.Some? {
        var e := BindingElement(item.declaringType.value, item);
        assert BindingElements(items) == es + [e];
        assert (es + [e])[..|es|] == es;
        ReadExportedChild(StepBindings(es), item.declaringType.value, item);
      } else {
        assert BindingElements(items) == es;
        assert ItemBindings(items) == ItemBindings(items[..n]);
      }
    }
  }

  /** Reading an exported element after the earlier ones adds its binding. */
  lemma ReadExportedChild(before: Parsed, typeName: string, item: BindingItem)
    requires before.outcome == Pass
    ensures ReadChild(before, BindingElement(typeName, item))
            == Parsed(before.bindings + [Binding(item.propertyName, typeName, item.displayName, item.description)], Pass)
  {
    ParseBindingElement(typeName, item);
  }

  /** Exporting the items and importing the result into any table upserts
      their bindings in order. */
  lemma ExportThenImport(t: Table, items: seq<BindingItem>)
    ensures ExecuteStep(t, BindingElements(items)) == StepResult(UpsertAll(t, ItemBindings(items)), Pass)
  {
    ExportedBindingsReadBack(items);
  }

  // ---------------------------------------------------------------------
  // The repository and the step

  /** The member binding repository: the table's records and the id the
      next created record gets. */
  class BindingRepository {
    var records: seq<MemberBindingRecord>
    var nextId: nat

    function State(): Table
      reads this
    {
      Table(records, nextId)
    }

    predicate Valid()
      reads this
    {
      ValidTable(State())
    }

    constructor ()
      ensures records == [] && nextId == 1 && Valid()
    {
      records := [];
      nextId := 1;
    }

    /** `Fetch` with a key predicate. */
    method Fetch(k: Key) returns (q: seq<MemberBindingRecord>)
      ensures q == Matching(records, k)
    {
      q := Matching(records, k);
    }

    /** `Create`: the record gets the next id. */
    method Create(b: Binding) returns (id: nat)
      modifies this
      ensures id == old(nextId) && nextId == old(nextId) + 1
      ensures records == old(records) + [WithBinding(id, b)]
    {
      id := nextId;
      records := records + [WithBinding(id, b)];
      nextId := nextId + 1;
    }

    /** `Update`: the record with the same id takes the given values. */
    method Update(r: MemberBindingRecord)
      modifies this`records
      ensures records == ReplaceById(old(records), r)
    {
      records := ReplaceById(records, r);
    }
  }

  /** The import step over a repository. */
  class BindingExecutionStep {
    const repository: BindingRepository

    constructor (repository: BindingRepository)
      ensures this.repository == repository
    {
      this.repository := repository;
    }

    /**
     * `Execute`: for each `Binding` child in turn, read its four attributes
     * (failing on the first missing one), fetch the records with its key,
     * and create a record when there is none or update each fetched one
     * under its own id.
     */
    method Execute(step: Node) returns (outcome: Outcome<BindingError>)
      requires step.Element? && repository.Valid()
      modifies repository
      ensures repository.Valid()
      ensures repository.State() == ExecuteStep(old(repository.State()), step.children).table
      ensures outcome == ExecuteStep(old(repository.State()), step.children).outcome
    {
      var children := step.children;
      ghost var t0 := repository.State();
      var i := 0;
      while i < |children|
        invariant 0 <= i <= |children|
        invariant StepBindings(children[..i]).outcome == Pass
        invariant repository.State() == UpsertAll(t0, StepBindings(children[..i]).bindings)
        invariant repository.Valid()
      {
        ghost var before := StepBindings(children[..i]);
        ReadStep(children, i);
        var element := children[i];
        if IsBindingElement(element) {
          var parsed := ParseBinding(element);
          if parsed.Failure? {
            outcome := Fail(parsed.error);
            assert StepBindings(children[..i + 1]) == Parsed(before.bindings, outcome);
            FailureIsFinal(children, i + 1);
            return;
          }
          UpsertAllStep(t0, before.bindings, parsed.value);
          UpsertRecord(parsed.value);
        }
        i := i + 1;
        assert StepBindings(children[..i]).outcome == Pass;
        assert repository.State() == UpsertAll(t0, StepBindings(children[..i]).bindings);
      }
      assert children[..i] == children;
      outcome := Pass;
    }

    /** The upsert of one binding: fetch the records with its key, then
        create one or update each fetched one. */
    method UpsertRecord(b: Binding)
      requires repository.Valid()
      modifies repository
      ensures repository.Valid()
      ensures repository.State() == Upsert(old(repository.State()), b)
    {
      UpsertKeepsValid(repository.State(), b);
      var q := repository.Fetch(BindingKey(b));
      if q == [] {
        var _ := repository.Create(b);
      } else {
        UpdateEach(q, b);
      }
    }

    /** The inner loop of `Execute`: each fetched record, under its own id,
        takes the element's values. */
    method UpdateEach(q: seq<MemberBindingRecord>, b: Binding)
      requires repository.Valid() && q == Matching(repository.records, BindingKey(b))
      modifies repository`records
      ensures repository.records == Overwrite(old(repository.records), b)
    {
      ghost var before := repository.records;
      MatchingIds(before, BindingKey(b));
      var j := 0;
      while j < |q|
        invariant 0 <= j <= |q|
        invariant |repository.records| == |before|
        invariant forall m :: 0 <= m < |before| ==>
                    repository.records[m] == if before[m].id in IdsOf(q[..j]) then WithBinding(before[m].id, b) else before[m]
      {
        assert IdsOf(q[..j + 1]) == IdsOf(q[..j]) + {q[j].id} by {
          assert q[..j + 1] == q[..j] + [q[j]];
        }
        repository.Update(WithBinding(q[j].id, b));
        j := j + 1;
      }
      assert q[..j] == q;
    }
  }

  /** Reading one more child. */
  lemma ReadStep(children: seq<Node>, i: nat)
    requires i < |children|
    ensures StepBindings(children[..i + 1]) == ReadChild(StepBindings(children[..i]), children[i])
  {
    assert children[..i + 1][..i] == children[..i];
  }

  /** Upserting one more binding. */
  lemma UpsertAllStep(t: Table, bs: seq<Binding>, b: Binding)
    ensures UpsertAll(t, bs + [b]) == Upsert(UpsertAll(t, bs), b)
  {
    assert (bs + [b])[..|bs|] == bs;
  }

  /** Once an element fails, the rest of the step is not read. */
  lemma {:induction false} FailureIsFinal(children: seq<Node>, i: nat)
    requires i <= |children| && StepBindings(children[..i]).outcome.Fail?
    ensures StepBindings(children) == StepBindings(children[..i])
    decreases |children| - i
  {
    if i < |children| {
      assert children[..i + 1][..i] == children[..i];
      FailureIsFinal(children, i + 1);
    } else {
      assert children[..i] == children;
    }
  }
}
