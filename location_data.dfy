/** LocationData: a story location read from a data file. The loader runs
    the base loader (the name), then sets the description from the
    "locationDescription" entries, the last one winning. The base record is
    held as `base`. */
module LocationData {
  import opened Wrappers
  import opened BaseData

  class LocationData {
    const base: BaseData
    var locationDescription: string

    constructor(guid: string)
      ensures fresh(base) && base.dataId == guid && base.dataName == "New Data"
      ensures locationDescription == "A serene park with lush greenery and a gentle breeze."
    {
      base := new BaseData(guid);
      locationDescription := "A serene park with lush greenery and a gentle breeze.";
    }

    /** `LoadFromResourcePath`: the base loader, then the description. */
    method LoadFromResourcePath(parsedData: seq<seq<string>>, userName: Option<string>)
      requires forall k :: 0 <= k < |parsedData| ==> |parsedData[k]| >= 1
      modifies this, base
      ensures base.dataName == LoadedValue(parsedData, "dataName", userName, old(base.dataName))
      ensures base.dataId == old(base.dataId)
      ensures locationDescription == LoadedValue(parsedData, "locationDescription", userName, old(locationDescription))
    {
      base.LoadFromResourcePath(parsedData, userName);
      var i := 0;
      while i < |parsedData|
        invariant 0 <= i <= |parsedData|
        invariant base.dataName == LoadedValue(parsedData, "dataName", userName, old(base.dataName))
        invariant base.dataId == old(base.dataId)
        invariant locationDescription == LoadedValue(parsedData[..i], "locationDescription", userName, old(locationDescription))
      {
        LoadedStepKey(parsedData, i, "locationDescription", userName, old(locationDescription));
        var entry := parsedData[i];
        if entry[0] == "locationDescription" {
          locationDescription := if |entry| > 1 then UserValue(entry[1], userName) else locationDescription;
        }
        i := i + 1;
      }
      assert parsedData[..i] == parsedData;
    }
  }
}
