/**
 * The `Feature` recipe step on export: appends to the document's `Orchard`
 * element one `Feature` element holding an `enable` list of the enabled
 * feature ids and/or a `disable` list of the disabled ones, each id in its
 * own `ID` element, in sorted order.
 */
module ExportFeature {
  import opened Wrappers
  import opened Text
  import opened Xml
  import opened Features
  import opened ImportFeature

  /** The `ID` element written for one feature id. */
  function IdElement(id: string): Node {
    Element(IdName, [], [Text(id)])
  }

  /** One `ID` element per id, in the order given. */
  function IdElements(ids: seq<string>): (r: seq<Node>)
    ensures |r| == |ids|
    ensures forall i :: 0 <= i < |ids| ==> r[i] == IdElement(ids[i])
  {
    seq(|ids|, i requires 0 <= i < |ids| => IdElement(ids[i]))
  }

  /** The list element `AddFeatures` builds: named `xName`, one `ID` child
      per feature, the ids sorted. */
  function FeatureList(xName: string, ids: seq<string>): Node {
    Element(xName, [], IdElements(SortIds(ids)))
  }

  /** The `Feature` element `Build` appends, given the two flags and the
      registry's enabled and disabled ids. */
  function FeatureElement(exportEnabled: bool, exportDisabled: bool,
                          enabledIds: seq<string>, disabledIds: seq<string>): Node
  {
    Element(FeatureName, [],
            (if exportEnabled then [FeatureList(EnableName, enabledIds)] else [])
            + (if exportDisabled then [FeatureList(DisableName, disabledIds)] else []))
  }

  /** `AddFeatures`: builds the list element for `ids` with one loop over
      the sorted ids, then adds it as the last child of `root`. */
  method AddFeatures(xName: string, root: Node, ids: seq<string>) returns (result: Node)
    requires root.Element?
    ensures result == root.(children := root.children + [FeatureList(xName, ids)])
  {
    var sorted := SortIds(ids);
    var children: seq<Node> := [];
    var i := 0;
    while i < |sorted|
      invariant 0 <= i <= |sorted|
      invariant children == IdElements(sorted[..i])
    {
      children := children + [IdElement(sorted[i])];
      i := i + 1;
    }
    assert sorted[..i] == sorted;
    result := root.(children := root.children + [Element(xName, [], children)]);
  }

  /** The export step and its two flags. */
  class ExportFeatureStep {
    const featureManager: FeatureManager
    var exportEnabledFeatures: bool
    var exportDisabledFeatures: bool

    /** Enabled features are exported unless configured otherwise; the
        disabled flag keeps its default, false. */
    constructor (featureManager: FeatureManager)
      ensures this.featureManager == featureManager
      ensures exportEnabledFeatures && !exportDisabledFeatures
    {
      this.featureManager := featureManager;
      exportEnabledFeatures := true;
      exportDisabledFeatures := false;
    }

    /** `Configure`: both flags come from the configuration element's
        `ExportEnabledFeatures` and `ExportDisabledFeatures` attributes,
        given here already read as booleans. */
    method Configure(exportEnabled: bool, exportDisabled: bool)
      modifies this
      ensures exportEnabledFeatures == exportEnabled && exportDisabledFeatures == exportDisabled
    {
      exportEnabledFeatures := exportEnabled;
      exportDisabledFeatures := exportDisabled;
    }

    /** `ConfigureDefault`: enabled features only. */
    method ConfigureDefault()
      modifies this
      ensures exportEnabledFeatures && !exportDisabledFeatures
    {
      exportEnabledFeatures := true;
      exportDisabledFeatures := false;
    }

    /**
     * `Build`: with neither flag set, or without a top-level `Orchard`
     * element, the document is left alone; otherwise the `Feature` element
     * is appended to the first `Orchard` element. The feature manager is
     * only read.
     */
    method Build(doc: RecipeDocument)
      modifies doc
      ensures featureManager.calls == old(featureManager.calls)
      ensures !exportEnabledFeatures && !exportDisabledFeatures ==> doc.nodes == old(doc.nodes)
      ensures FirstElement(old(doc.nodes), OrchardName).None? ==> doc.nodes == old(doc.nodes)
      ensures (exportEnabledFeatures || exportDisabledFeatures) && FirstElement(old(doc.nodes), OrchardName).Some? ==>
                doc.nodes == AppendChildAt(old(doc.nodes), FirstElement(old(doc.nodes), OrchardName).value,
                                           FeatureElement(exportEnabledFeatures, exportDisabledFeatures,
                                                          featureManager.enabled, featureManager.disabled))
    {
      if !exportEnabledFeatures && !exportDisabledFeatures {
        return;
      }
      var orchard := FirstElement(doc.nodes, OrchardName);
      if orchard.Some? {
        var root := Element(FeatureName, [], []);
        if exportEnabledFeatures {
          root := AddFeatures(EnableName, root, featureManager.enabled);
        }
        if exportDisabledFeatures {
          root := AddFeatures(DisableName, root, featureManager.disabled);
        }
        assert root.children == (if exportEnabledFeatures then [FeatureList(EnableName, featureManager.enabled)] else [])
                                + (if exportDisabledFeatures then [FeatureList(DisableName, featureManager.disabled)] else []);
        doc.nodes := AppendChildAt(doc.nodes, orchard.value, root);
      }
    }
  }

  // ---------------------------------------------------------------------
  // What the import step reads back

  /** The export list holds each registry id as often as it occurs, in
      sorted order. */
  lemma FeatureListContents(xName: string, ids: seq<string>)
    ensures var l := FeatureList(xName, ids);
            && |l.children| == |ids|
            && (forall i :: 0 <= i < |ids| ==> l.children[i].Element? && l.children[i].name == IdName
                                               && TextOf(l.children[i]) == SortIds(ids)[i])
            && Sorted(SortIds(ids)) && multiset(SortIds(ids)) == multiset(ids)
  {
    var sorted := SortIds(ids);
    forall i | 0 <= i < |ids| ensures TextOf(IdElements(sorted)[i]) == sorted[i] {
      TextOfIdText(sorted[i]);
    }
  }

  /** The element parser of the import step reads back the ids written. */
  lemma {:induction false} IdValuesOfIdElements(ids: seq<string>)
    requires CleanIds(ids)
    ensures IdValues(IdElements(ids)) == ids
  {
    if ids != [] {
      assert IdElements(ids)[1..] == IdElements(ids[1..]);
      assert CleanIds(ids[1..]) by {
        forall t | t in ids[1..] ensures t != [] && IsTrimmed(t) { assert t in ids; }
      }
      IdValuesOfIdElements(ids[1..]);
      TextOfIdText(ids[0]);
      assert ids[0] in ids;
      assert ids == [ids[0]] + ids[1..];
    }
  }

  /** Round trip: parsing an exported list yields the sorted ids. */
  lemma FeatureListRoundTrip(xName: string, ids: seq<string>)
    requires CleanIds(ids)
    ensures ParseFeaturesElement(FeatureList(xName, ids)) == SortIds(ids)
  {
    var sorted := SortIds(ids);
    assert CleanIds(sorted) by {
      forall t | t in sorted ensures t != [] && IsTrimmed(t) {
        assert t in multiset(sorted);
        assert t in ids;
      }
    }
    IdValuesOfIdElements(sorted);
  }

  /** Each axis name matches itself and not the other one. */
  lemma AxisNameFacts()
    ensures NameIs(EnableName, EnableName) && NameIs(DisableName, DisableName)
    ensures !NameIs(EnableName, DisableName) && !NameIs(DisableName, EnableName)
    ensures IsAxisName(EnableName) && IsAxisName(DisableName)
  {
    AxisNamesDisjoint(EnableName);
    AxisNamesDisjoint(DisableName);
  }

  /** The list element an attribute-free step holds for `axis`, if any. */
  lemma RequestedFromChildren(f: Node, axis: Axis)
    requires f.Element? && f.attrs == []
    ensures Requested(f, axis) == ElementRequest(f.children, AxisName(axis))
    ensures Unrecognized(f) == UnknownElementNames(f.children)
  {
  }

  /** A single list element is found under its own axis name only. */
  lemma SingleList(x: Node, name: string, other: string)
    requires x.Element? && NameIs(x.name, name) && !NameIs(x.name, other) && IsAxisName(x.name)
    ensures LastElement([x], name) == Some(x) && LastElement([x], other) == None
    ensures UnknownElementNames([x]) == []
  {
    assert [x][..0] == [];
  }

  /** Both lists, the enable list first. */
  lemma BothLists(le: Node, ld: Node)
    requires le.Element? && le.name == EnableName
    requires ld.Element? && ld.name == DisableName
    ensures LastElement([le] + [ld], EnableName) == Some(le)
    ensures LastElement([le] + [ld], DisableName) == Some(ld)
    ensures UnknownElementNames([le] + [ld]) == []
  {
    AxisNameFacts();
    SingleList(le, EnableName, DisableName);
    LastElementIgnoresTail([le], [ld], EnableName);
    assert ([le] + [ld])[..1] == [le];
  }

  /** The children of an exported `Feature` element, read back per axis. */
  lemma ExportedChildren(exportEnabled: bool, exportDisabled: bool, le: Node, ld: Node)
    requires le.Element? && le.name == EnableName
    requires ld.Element? && ld.name == DisableName
    ensures var cs := (if exportEnabled then [le] else []) + (if exportDisabled then [ld] else []);
            && LastElement(cs, EnableName) == (if exportEnabled then Some(le) else None)
            && LastElement(cs, DisableName) == (if exportDisabled then Some(ld) else None)
            && UnknownElementNames(cs) == []
  {
    AxisNameFacts();
    SingleList(le, EnableName, DisableName);
    SingleList(ld, DisableName, EnableName);
    var cs := (if exportEnabled then [le] else []) + (if exportDisabled then [ld] else []);
    if exportEnabled && exportDisabled {
      assert cs == [le] + [ld];
      BothLists(le, ld);
    } else if exportEnabled {
      assert cs == [le];
    } else if exportDisabled {
      assert cs == [ld];
    } else {
      assert cs == [];
    }
  }

  /** Round trip: the import step reads from an exported `Feature` element
      the sorted enabled ids for the enable axis exactly when they were
      exported, and likewise the sorted disabled ids; it warns about
      nothing. */
  lemma ExportedRequests(exportEnabled: bool, exportDisabled: bool,
                         enabledIds: seq<string>, disabledIds: seq<string>)
    requires CleanIds(enabledIds) && CleanIds(disabledIds)
    ensures var f := FeatureElement(exportEnabled, exportDisabled, enabledIds, disabledIds);
            && Requested(f, Enable) == (if exportEnabled then Some(SortIds(enabledIds)) else None)
            && Requested(f, Disable) == (if exportDisabled then Some(SortIds(disabledIds)) else None)
            && Unrecognized(f) == []
  {
    var f := FeatureElement(exportEnabled, exportDisabled, enabledIds, disabledIds);
    RequestedFromChildren(f, Enable);
    RequestedFromChildren(f, Disable);
    ExportedChildren(exportEnabled, exportDisabled, FeatureList(EnableName, enabledIds), FeatureList(DisableName, disabledIds));
    FeatureListRoundTrip(EnableName, enabledIds);
    FeatureListRoundTrip(DisableName, disabledIds);
  }

  /** Round trip of the whole step: when every exported id is available,
      importing the exported element passes validation and disables the
      sorted disabled ids, then enables the sorted enabled ids, each only
      when exported and non-empty. */
  lemma ExportThenImport(exportEnabled: bool, exportDisabled: bool,
                         enabledIds: seq<string>, disabledIds: seq<string>, available: seq<string>)
    requires CleanIds(enabledIds) && CleanIds(disabledIds)
    requires forall t :: t in enabledIds ==> t in available
    requires forall t :: t in disabledIds ==> t in available
    ensures var f := FeatureElement(exportEnabled, exportDisabled, enabledIds, disabledIds);
            var toDisable := Requested(f, Disable);
            var toEnable := Requested(f, Enable);
            && Validate(available, toDisable, toEnable) == Pass
            && ApplyCalls(toDisable, toEnable)
               == (if exportDisabled && disabledIds != [] then [DisableCall(SortIds(disabledIds), true)] else [])
                  + (if exportEnabled && enabledIds != [] then [EnableCall(SortIds(enabledIds), true)] else [])
  {
    ExportedRequests(exportEnabled, exportDisabled, enabledIds, disabledIds);
    var f := FeatureElement(exportEnabled, exportDisabled, enabledIds, disabledIds);
    SortedAvailable(enabledIds, available);
    SortedAvailable(disabledIds, available);
    ValidateMeaning(available, Requested(f, Disable), Requested(f, Enable));
  }

  /** Sorting keeps every id, and no more. */
  lemma SortedAvailable(ids: seq<string>, available: seq<string>)
    requires forall t :: t in ids ==> t in available
    ensures forall t :: t in SortIds(ids) ==> t in available
    ensures SortIds(ids) == [] <==> ids == []
  {
    forall t | t in SortIds(ids) ensures t in available {
      assert t in multiset(SortIds(ids));
    }
  }
}
