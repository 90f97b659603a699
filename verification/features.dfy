/**
 * The names shared by the feature export and import steps, and the
 * feature manager they talk to.
 */
module Features {

  const FeatureName: string := "Feature"
  const EnableName: string := "enable"
  const DisableName: string := "disable"
  const IdName: string := "ID"

  /** The two directions a recipe can move features in. */
  datatype Axis = Disable | Enable

  function AxisName(axis: Axis): string {
    match axis
    case Disable => DisableName
    case Enable => EnableName
  }

  /** One call the steps make into the feature manager. */
  datatype FeatureCall =
    | DisableCall(ids: seq<string>, force: bool)
    | EnableCall(ids: seq<string>, force: bool)

  /**
   * The feature manager as the steps see it: the ids of the available,
   * enabled and disabled features, and the log of enable and disable
   * requests made to it. What a request does to the features (dependency
   * resolution included) belongs to the manager and is not modelled.
   */
  class FeatureManager {
    var available: seq<string>
    var enabled: seq<string>
    var disabled: seq<string>
    var calls: seq<FeatureCall>

    constructor (available: seq<string>, enabled: seq<string>, disabled: seq<string>)
      ensures this.available == available && this.enabled == enabled && this.disabled == disabled
      ensures calls == []
    {
      this.available := available;
      this.enabled := enabled;
      this.disabled := disabled;
      calls := [];
    }

    method DisableFeatures(ids: seq<string>, force: bool)
      modifies this`calls
      ensures calls == old(calls) + [DisableCall(ids, force)]
    {
      calls := calls + [DisableCall(ids, force)];
    }

    method EnableFeatures(ids: seq<string>, force: bool)
      modifies this`calls
      ensures calls == old(calls) + [EnableCall(ids, force)]
    {
      calls := calls + [EnableCall(ids, force)];
    }
  }
}
