/**
 * Name-to-description tables loaded from a JSON array of records
 * `{ "name": ..., "description": ... }` (the tags and actions files).
 * A record with a blank name is skipped, a missing description becomes
 * the empty string, and a later record overwrites an earlier one whose
 * key is the same.  The key of a name is `fold(name)`: the name itself
 * for a case-sensitive table, its lower-case form for one ignoring case.
 */
module Tables {
  import opened Wrappers
  import opened Text

  /** One item of the array; a `null` item has neither field. */
  datatype NamedRecord = NamedRecord(name: Option<string>, description: Option<string>)

  /** The records file: absent, or its items (a `null` document reads as none). */
  datatype RecordsFile = NoFile | Records(records: seq<NamedRecord>)

  type Fold = string -> string

  predicate Kept(r: NamedRecord) {
    !IsNullOrWhiteSpace(r.name)
  }

  /** The table the records build, one after the other. */
  function TableOf(rs: seq<NamedRecord>, fold: Fold): (t: map<string, string>)
    ensures |t| <= |rs|
  {
    if rs == [] then map[]
    else
      var t := TableOf(rs[..|rs| - 1], fold);
      var r := rs[|rs| - 1];
      if Kept(r) then t[fold(r.name.value) := r.description.GetOr("")] else t
  }

  /** The table a file builds: empty without a file. */
  function FileTable(f: RecordsFile, fold: Fold): map<string, string> {
    if f.NoFile? then map[] else TableOf(f.records, fold)
  }

  /** A key is present exactly when some kept record's name folds to it. */
  lemma {:induction false} TableKeys(rs: seq<NamedRecord>, fold: Fold, k: string)
    ensures k in TableOf(rs, fold) <==> exists i :: 0 <= i < |rs| && Kept(rs[i]) && fold(rs[i].name.value) == k
  {
    if rs != [] {
      var rs' := rs[..|rs| - 1];
      TableKeys(rs', fold, k);
      if exists i :: 0 <= i < |rs'| && Kept(rs'[i]) && fold(rs'[i].name.value) == k {
        var i :| 0 <= i < |rs'| && Kept(rs'[i]) && fold(rs'[i].name.value) == k;
        assert rs[i] == rs'[i];
      }
      if exists i :: 0 <= i < |rs| && Kept(rs[i]) && fold(rs[i].name.value) == k {
        var i :| 0 <= i < |rs| && Kept(rs[i]) && fold(rs[i].name.value) == k;
        if i < |rs'| {
          assert rs'[i] == rs[i];
        }
      }
    }
  }

  /** The description stored under a key is that of the last kept record
      whose name folds to the key. */
  lemma {:induction false} LastWins(rs: seq<NamedRecord>, fold: Fold, i: nat)
    requires i < |rs| && Kept(rs[i])
    requires forall j :: i < j < |rs| && Kept(rs[j]) ==> fold(rs[j].name.value) != fold(rs[i].name.value)
    ensures fold(rs[i].name.value) in TableOf(rs, fold)
    ensures TableOf(rs, fold)[fold(rs[i].name.value)] == rs[i].description.GetOr("")
  {
    if i < |rs| - 1 {
      var rs' := rs[..|rs| - 1];
      assert rs'[i] == rs[i];
      forall j | i < j < |rs'| && Kept(rs'[j])
        ensures fold(rs'[j].name.value) != fold(rs'[i].name.value)
      {
        assert rs'[j] == rs[j];
      }
      LastWins(rs', fold, i);
    }
  }

  /** The loading loop of both managers. */
  method BuildTable(rs: seq<NamedRecord>, fold: Fold) returns (t: map<string, string>)
    ensures t == TableOf(rs, fold)
  {
    t := map[];
    var i := 0;
    while i < |rs|
      invariant 0 <= i <= |rs|
      invariant t == TableOf(rs[..i], fold)
    {
      var node := rs[i];
      var name := node.name;
      var desc := node.description.GetOr("");
      if !IsNullOrWhiteSpace(name) {
        t := t[fold(name.value) := desc];
      }
      assert rs[..i + 1][..i] == rs[..i];
      i := i + 1;
    }
    assert rs[..|rs|] == rs;
  }

  /** `TryGetValue`: the stored description, when the key is present. */
  function Lookup(t: map<string, string>, k: string): (r: Option<string>)
    ensures r.Some? <==> k in t
    ensures r.Some? ==> r.value == t[k]
  {
    if k in t then Some(t[k]) else None
  }
}
