/**
 * Action definitions (`Config/Actions.txt`): a table from action name to
 * description, with names compared exactly.
 */
module Actions {
  import opened Wrappers
  import opened Text
  import opened Tables

  /** Action names are their own keys. */
  function Exact(s: string): string {
    s
  }

  class ActionsManager {
    /** `Config/Actions.txt` */
    var file: RecordsFile
    /** `_cache`: action name to description, once loaded. */
    var cache: Option<map<string, string>>

    ghost predicate Valid()
      reads this
    {
      cache.Some? ==> cache.value == FileTable(file, Exact)
    }

    constructor (file: RecordsFile)
      ensures Valid() && this.file == file && cache == None
    {
      this.file := file;
      cache := None;
    }

    /** Loads the table once: blank names skipped, a missing description
        stored as "", a later record overwriting an earlier one with the
        same name; no file gives an empty table. */
    method EnsureLoaded()
      requires Valid()
      modifies this
      ensures Valid() && file == old(file) && cache == Some(FileTable(file, Exact))
    {
      if cache.Some? {
        return;
      }
      if file.NoFile? {
        cache := Some(map[]);
        return;
      }
      var t := BuildTable(file.records, Exact);
      cache := Some(t);
    }

    /** Every action with its description. */
    method GetAll() returns (r: map<string, string>)
      requires Valid()
      modifies this
      ensures Valid() && file == old(file) && cache == Some(r)
      ensures r == FileTable(file, Exact)
    {
      EnsureLoaded();
      r := cache.value;
    }

    /** The description of the named action, if there is one. */
    method GetDescription(actionName: string) returns (r: Option<string>)
      requires Valid()
      modifies this
      ensures Valid() && file == old(file) && cache == Some(FileTable(file, Exact))
      ensures r == Lookup(FileTable(file, Exact), actionName)
    {
      EnsureLoaded();
      r := Lookup(cache.value, actionName);
    }
  }

  /** Record `i` is the last kept record carrying exactly `name`. */
  predicate LastNamed(rs: seq<NamedRecord>, i: nat, name: string)
    requires i < |rs|
  {
    Kept(rs[i]) && rs[i].name.value == name &&
    forall j :: i < j < |rs| && Kept(rs[j]) ==> rs[j].name.value != name
  }

  /** An action has a description exactly when a kept record carries its
      exact name, and then the description is the last such record's. */
  lemma ActionDescription(rs: seq<NamedRecord>, name: string)
    ensures Lookup(TableOf(rs, Exact), name).Some? <==>
      exists i :: 0 <= i < |rs| && Kept(rs[i]) && rs[i].name.value == name
    ensures forall i :: 0 <= i < |rs| && LastNamed(rs, i, name) ==>
      Lookup(TableOf(rs, Exact), name) == Some(rs[i].description.GetOr(""))
  {
    TableKeys(rs, Exact, name);
    forall i | 0 <= i < |rs| && LastNamed(rs, i, name)
      ensures Lookup(TableOf(rs, Exact), name) == Some(rs[i].description.GetOr(""))
    {
      LastWins(rs, Exact, i);
    }
  }
}
