/**
 * The buildings of the base: names from `Buildings.txt`, descriptions from
 * `Config/BuildingDescriptions.txt`, each with a built-in fallback.
 */
module Buildings {
  import opened Wrappers
  import opened Text
  import opened NameLists

  datatype BuildingInfo = BuildingInfo(name: string, description: string)

  /** `Config/BuildingDescriptions.txt`: absent, not deserialisable, or the
      list it deserialises to (`None` for a `null` document). */
  datatype DescriptionsFile = NoDescriptions | Unparsable | Parsed(list: Option<seq<BuildingInfo>>)

  /** The buildings used when `Buildings.txt` gives none. */
  const Fallback: seq<string> := ["Design Bureau", "Mech Factory", "Research Lab", "Sales Office", "Operations Office"]

  /** The names with empty descriptions (`ConvertAll`). */
  function WithoutDescriptions(names: seq<string>): (r: seq<BuildingInfo>)
    ensures |r| == |names| && forall i :: 0 <= i < |names| ==> r[i] == BuildingInfo(names[i], "")
  {
    seq(|names|, i requires 0 <= i < |names| => BuildingInfo(names[i], ""))
  }

  /** The building list `GetBuildingsWithDescriptions` returns. */
  function BuildingsWithDescriptions(d: DescriptionsFile, f: ListFile): (r: seq<BuildingInfo>)
    ensures forall i :: 0 <= i < |r| ==> (d.Parsed? && d.list.Some? && r[i] in d.list.value) || r[i].description == ""
    ensures !d.Parsed? ==> forall i :: 0 <= i < |r| ==> r[i].name in ListOrFallback(f, Fallback)
  {
    if d.Parsed? && d.list.Some? && |d.list.value| > 0 then d.list.value
    else WithoutDescriptions(ListOrFallback(f, Fallback))
  }

  /** The building names: the non-blank items of the file, or the fallback
      when the file is missing, not an array, unreadable or without one. */
  method GetBuildings(f: ListFile) returns (r: seq<string>)
    ensures r == ListOrFallback(f, Fallback)
    ensures |r| > 0 && forall i :: 0 <= i < |r| ==> !IsBlank(r[i])
  {
    r := ReadList(f, Fallback);
    ListOrFallbackNonEmpty(f, Fallback);
    BuildingNamesNonBlank(f);
  }

  /** The described buildings: a non-empty list from the descriptions file
      as it is; otherwise the building names with empty descriptions. */
  method GetBuildingsWithDescriptions(d: DescriptionsFile, f: ListFile) returns (r: seq<BuildingInfo>)
    ensures r == BuildingsWithDescriptions(d, f)
  {
    if d.Parsed? && d.list.Some? && |d.list.value| > 0 {
      return d.list.value;
    }
    var buildings := GetBuildings(f);
    r := WithoutDescriptions(buildings);
  }

  /** There is always at least one building, and without a usable
      descriptions file the buildings are exactly the listed names, in
      order, each with an empty description. */
  lemma BuildingsNeverEmpty(d: DescriptionsFile, f: ListFile)
    ensures |BuildingsWithDescriptions(d, f)| > 0
    ensures !(d.Parsed? && d.list.Some? && |d.list.value| > 0) ==>
      |BuildingsWithDescriptions(d, f)| == |ListOrFallback(f, Fallback)| &&
      forall i :: 0 <= i < |ListOrFallback(f, Fallback)| ==>
        BuildingsWithDescriptions(d, f)[i] == BuildingInfo(ListOrFallback(f, Fallback)[i], "")
  {
    ListOrFallbackNonEmpty(f, Fallback);
  }

  /** No building name is blank: the file's names are filtered, and none
      of the fallback names is blank either. */
  lemma BuildingNamesNonBlank(f: ListFile)
    ensures forall i :: 0 <= i < |ListOrFallback(f, Fallback)| ==> !IsBlank(ListOrFallback(f, Fallback)[i])
  {
    forall i | 0 <= i < |Fallback|
      ensures !IsBlank(Fallback[i])
    {
      assert !IsWhiteSpace(Fallback[i][0]);
    }
  }
}
