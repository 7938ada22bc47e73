/**
 * The set of researched part names (`Research.txt`), a set that compares
 * names ignoring case and keeps the spelling first added.  It is held as a
 * sequence in insertion order without two names equal ignoring case.
 * The sorted views take the ordering as a parameter `le`, a total preorder
 * standing for the culture-sensitive string comparison of `OrderBy`.
 */
module Research {
  import opened Wrappers
  import opened Text
  import opened NameLists
  import opened PartCatalog

  // ---------------------------------------------------------------------------
  // A set of names compared ignoring case
  // ---------------------------------------------------------------------------

  /** `HashSet<string>(StringComparer.OrdinalIgnoreCase).Contains` */
  predicate ContainsIgnoreCase(s: seq<string>, x: string) {
    exists i :: 0 <= i < |s| && EqualsIgnoreCase(s[i], x)
  }

  predicate DistinctIgnoreCase(s: seq<string>) {
    forall i, j :: 0 <= i < j < |s| ==> !EqualsIgnoreCase(s[i], s[j])
  }

  /** What the set holds at any time: distinct names, none of them blank. */
  predicate NameSet(s: seq<string>) {
    DistinctIgnoreCase(s) && forall i :: 0 <= i < |s| ==> !IsBlank(s[i])
  }

  /** `set.Add(x)`: a name not yet held ignoring case is added. */
  function AddName(s: seq<string>, x: string): (r: seq<string>)
    ensures |s| <= |r| <= |s| + 1 && r[..|s|] == s
    ensures |r| > |s| ==> r[|s|] == x
    ensures r == s <==> ContainsIgnoreCase(s, x)
  {
    if ContainsIgnoreCase(s, x) then s else s + [x]
  }

  /** `set.Remove(x)`: the name equal to `x` ignoring case goes. */
  function RemoveName(s: seq<string>, x: string): (r: seq<string>)
    ensures |r| <= |s|
  {
    if s == [] then []
    else RemoveName(s[..|s| - 1], x) + (if EqualsIgnoreCase(s[|s| - 1], x) then [] else [s[|s| - 1]])
  }

  /** Adding the names of `names` one after the other. */
  function AddAll(s: seq<string>, names: seq<string>): (r: seq<string>)
    ensures |s| <= |r| <= |s| + |names| && r[..|s|] == s
  {
    if names == [] then s else AddName(AddAll(s, names[..|names| - 1]), names[|names| - 1])
  }

  /** The set a research file holds when read. */
  function LoadedFrom(f: ListFile): seq<string> {
    if f.Items? then AddAll([], NonBlank(f.items)) else []
  }

  lemma AddNameMembers(s: seq<string>, x: string, y: string)
    ensures ContainsIgnoreCase(AddName(s, x), y) <==> EqualsIgnoreCase(x, y) || ContainsIgnoreCase(s, y)
  {
    if !ContainsIgnoreCase(s, x) {
      var s' := s + [x];
      assert s'[|s|] == x;
      if ContainsIgnoreCase(s', y) {
        var i :| 0 <= i < |s'| && EqualsIgnoreCase(s'[i], y);
        if i < |s| {
          assert s[i] == s'[i];
        }
      }
      if ContainsIgnoreCase(s, y) {
        var i :| 0 <= i < |s| && EqualsIgnoreCase(s[i], y);
        assert s'[i] == s[i];
      }
    }
  }

  lemma AddNameKeeps(s: seq<string>, x: string)
    requires NameSet(s) && !IsBlank(x)
    ensures NameSet(AddName(s, x))
  {
  }

  lemma {:induction false} RemoveNameExact(s: seq<string>, x: string, y: string)
    ensures y in RemoveName(s, x) <==> y in s && !EqualsIgnoreCase(y, x)
  {
    if s != [] {
      var s' := s[..|s| - 1];
      RemoveNameExact(s', x, y);
      assert s == s' + [s[|s| - 1]];
    }
  }

  lemma RemoveNameMembers(s: seq<string>, x: string, y: string)
    ensures ContainsIgnoreCase(RemoveName(s, x), y) <==> !EqualsIgnoreCase(x, y) && ContainsIgnoreCase(s, y)
  {
    var r := RemoveName(s, x);
    if ContainsIgnoreCase(r, y) {
      var i :| 0 <= i < |r| && EqualsIgnoreCase(r[i], y);
      RemoveNameExact(s, x, r[i]);
      var j :| 0 <= j < |s| && s[j] == r[i];
      assert EqualsIgnoreCase(s[j], y);
    }
    if !EqualsIgnoreCase(x, y) && ContainsIgnoreCase(s, y) {
      var i :| 0 <= i < |s| && EqualsIgnoreCase(s[i], y);
      RemoveNameExact(s, x, s[i]);
      var j :| 0 <= j < |r| && r[j] == s[i];
      assert EqualsIgnoreCase(r[j], y);
    }
  }

  /** Removing keeps a subsequence of the names, so still a name set. */
  lemma {:induction false} RemoveNameKeeps(s: seq<string>, x: string)
    requires NameSet(s)
    ensures NameSet(RemoveName(s, x))
  {
    if s != [] {
      var s' := s[..|s| - 1];
      var last := s[|s| - 1];
      assert NameSet(s') by {
        assert forall i :: 0 <= i < |s'| ==> s'[i] == s[i];
      }
      RemoveNameKeeps(s', x);
      var r' := RemoveName(s', x);
      if !EqualsIgnoreCase(last, x) {
        forall i | 0 <= i < |r'|
          ensures !EqualsIgnoreCase(r'[i], last)
        {
          RemoveNameExact(s', x, r'[i]);
          var j :| 0 <= j < |s'| && s'[j] == r'[i];
          assert s[j] == s'[j];
        }
        var r := r' + [last];
        assert forall i :: 0 <= i < |r'| ==> r[i] == r'[i];
      }
    }
  }

  lemma {:induction false} AddAllMembers(s: seq<string>, names: seq<string>, y: string)
    ensures ContainsIgnoreCase(AddAll(s, names), y) <==> ContainsIgnoreCase(s, y) || ContainsIgnoreCase(names, y)
  {
    if names != [] {
      var n' := names[..|names| - 1];
      var last := names[|names| - 1];
      AddAllMembers(s, n', y);
      AddNameMembers(AddAll(s, n'), last, y);
      if ContainsIgnoreCase(n', y) {
        var i :| 0 <= i < |n'| && EqualsIgnoreCase(n'[i], y);
        assert names[i] == n'[i];
      }
      if ContainsIgnoreCase(names, y) {
        var i :| 0 <= i < |names| && EqualsIgnoreCase(names[i], y);
        if i < |n'| {
          assert n'[i] == names[i];
        }
      }
    }
  }

  lemma {:induction false} AddAllKeeps(s: seq<string>, names: seq<string>)
    requires NameSet(s) && forall i :: 0 <= i < |names| ==> !IsBlank(names[i])
    ensures NameSet(AddAll(s, names))
  {
    if names != [] {
      AddAllKeeps(s, names[..|names| - 1]);
      AddNameKeeps(AddAll(s, names[..|names| - 1]), names[|names| - 1]);
    }
  }

  /** Adding names already distinct to the empty set gives them back in order. */
  lemma {:induction false} AddAllDistinct(names: seq<string>)
    requires DistinctIgnoreCase(names)
    ensures AddAll([], names) == names
  {
    if names != [] {
      var n' := names[..|names| - 1];
      var last := names[|names| - 1];
      AddAllDistinct(n');
      forall i | 0 <= i < |n'|
        ensures !EqualsIgnoreCase(n'[i], last)
      {
        assert names[i] == n'[i];
      }
    }
  }

  /** Whatever the file holds, reading it gives a name set. */
  lemma LoadedIsNameSet(f: ListFile)
    ensures NameSet(LoadedFrom(f))
  {
    if f.Items? {
      AddAllKeeps([], NonBlank(f.items));
    }
  }

  /** Saving a name set and reading the file back gives the same set. */
  lemma SaveLoadRoundTrip(s: seq<string>)
    requires NameSet(s)
    ensures LoadedFrom(Items(AsItems(s))) == s
  {
    NonBlankAsItems(s);
    AddAllDistinct(s);
  }

  // ---------------------------------------------------------------------------
  // Sorting (`OrderBy(s => s)`)
  // ---------------------------------------------------------------------------

  type Order = (string, string) -> bool

  ghost predicate TotalPreorder(le: Order) {
    && (forall a, b :: le(a, b) || le(b, a))
    && (forall a, b, c :: le(a, b) && le(b, c) ==> le(a, c))
  }

  predicate SortedBy(s: seq<string>, le: Order) {
    forall i, j :: 0 <= i < j < |s| ==> le(s[i], s[j])
  }

  /** Places `x` before the first name it is ranked at or below. */
  function Insert(x: string, s: seq<string>, le: Order): (r: seq<string>)
    ensures multiset(r) == multiset(s) + multiset{x}
  {
    if s == [] then [x]
    else if le(x, s[0]) then [x] + s
    else
      assert s == [s[0]] + s[1..];
      [s[0]] + Insert(x, s[1..], le)
  }

  /** A bound below `x` and below all of `s` is below all of the insertion. */
  lemma {:induction false} InsertBounded(x: string, s: seq<string>, le: Order, b: string)
    requires le(b, x) && forall k :: 0 <= k < |s| ==> le(b, s[k])
    ensures forall j :: 0 <= j < |Insert(x, s, le)| ==> le(b, Insert(x, s, le)[j])
  {
    if s != [] && !le(x, s[0]) {
      InsertBounded(x, s[1..], le, b);
    }
  }

  lemma {:induction false} InsertSorted(x: string, s: seq<string>, le: Order)
    requires TotalPreorder(le) && SortedBy(s, le)
    ensures SortedBy(Insert(x, s, le), le)
  {
    if s != [] {
      if le(x, s[0]) {
        assert forall j :: 0 < j < |s| ==> le(s[0], s[j]);
      } else {
        var r' := Insert(x, s[1..], le);
        InsertSorted(x, s[1..], le);
        assert le(s[0], x);
        InsertBounded(x, s[1..], le, s[0]);
        assert Insert(x, s, le) == [s[0]] + r';
      }
    }
  }

  /** The names in `le` order; the order of names `le` ranks equal is left open. */
  function SortBy(s: seq<string>, le: Order): (r: seq<string>)
    requires TotalPreorder(le)
    ensures SortedBy(r, le) && multiset(r) == multiset(s)
  {
    if s == [] then []
    else
      assert s == s[..|s| - 1] + [s[|s| - 1]];
      var sorted := SortBy(s[..|s| - 1], le);
      InsertSorted(s[|s| - 1], sorted, le);
      Insert(s[|s| - 1], sorted, le)
  }

  /** The names of `all` not in the researched set, in their order. */
  function Unresearched(all: seq<string>, researched: seq<string>): (r: seq<string>)
    ensures |r| <= |all|
    ensures forall i :: 0 <= i < |r| ==> !ContainsIgnoreCase(researched, r[i])
  {
    if all == [] then []
    else
      var p := all[|all| - 1];
      Unresearched(all[..|all| - 1], researched) + (if ContainsIgnoreCase(researched, p) then [] else [p])
  }

  lemma {:induction false} UnresearchedMembers(all: seq<string>, researched: seq<string>, y: string)
    ensures y in Unresearched(all, researched) <==> y in all && !ContainsIgnoreCase(researched, y)
  {
    if all != [] {
      UnresearchedMembers(all[..|all| - 1], researched, y);
      assert all == all[..|all| - 1] + [all[|all| - 1]];
    }
  }

  /** The names sorted are the names given, each as often. */
  lemma SortByMembers(s: seq<string>, le: Order, y: string)
    requires TotalPreorder(le)
    ensures y in SortBy(s, le) <==> y in s
  {
    assert y in SortBy(s, le) <==> y in multiset(SortBy(s, le));
  }

  // ---------------------------------------------------------------------------
  // ResearchManager
  // ---------------------------------------------------------------------------

  /** The names researched when `Config/DefaultResearch.txt` yields none. */
  const DefaultResearch: seq<string> :=
    ["Exosuit-Frame", "Gun", "Siege-Mount", "Joint", "Connector", "Hand", "Foot", "Turret"]

  class ResearchManager {
    /** `Research.txt` */
    var file: ListFile
    /** `Config/DefaultResearch.txt` */
    var defaultsFile: ListFile
    /** `_cache`: the set once loaded. */
    var cache: Option<seq<string>>

    ghost predicate Valid()
      reads this
    {
      cache.Some? ==> NameSet(cache.value)
    }

    /** The set as the next call sees it: the cache, or the file's contents. */
    function Stored(): seq<string>
      reads this
    {
      if cache.Some? then cache.value else LoadedFrom(file)
    }

    constructor (file: ListFile, defaultsFile: ListFile)
      ensures Valid() && this.file == file && this.defaultsFile == defaultsFile && cache == None
    {
      this.file := file;
      this.defaultsFile := defaultsFile;
      cache := None;
    }

    /** `Load`: the cached set, or else the non-blank names of the file; a
        missing, non-array or unreadable file gives the empty set. */
    method Load() returns (s: seq<string>)
      requires Valid()
      modifies this
      ensures Valid() && NameSet(s)
      ensures s == old(Stored()) && cache == Some(s)
      ensures file == old(file) && defaultsFile == old(defaultsFile)
    {
      LoadedIsNameSet(file);
      if cache.Some? {
        return cache.value;
      }
      if !file.Items? {
        cache := Some([]);
        return [];
      }
      var items := file.items;
      var loaded := [];
      var i := 0;
      while i < |items|
        invariant 0 <= i <= |items|
        invariant loaded == AddAll([], NonBlank(items[..i]))
      {
        var name := items[i];
        assert items[..i + 1][..i] == items[..i];
        var before := NonBlank(items[..i]);
        if !IsNullOrWhiteSpace(name) {
          assert NonBlank(items[..i + 1]) == before + [name.value];
          assert (before + [name.value])[..|before|] == before;
          loaded := AddName(loaded, name.value);
        } else {
          assert NonBlank(items[..i + 1]) == before;
        }
        i := i + 1;
      }
      assert items[..|items|] == items;
      cache := Some(loaded);
      s := loaded;
    }

    /** `Save`: writes the set, in its order, as a JSON array.  The set is
        loaded first, so a failed write leaves it cached and the file as it
        was. */
    method Save(writeSucceeds: bool)
      requires Valid()
      modifies this
      ensures Valid() && cache == Some(old(Stored())) && defaultsFile == old(defaultsFile)
      ensures writeSucceeds ==> file == Items(AsItems(cache.value))
      ensures !writeSucceeds ==> file == old(file)
    {
      var names := Load();
      var arr := [];
      var i := 0;
      while i < |names|
        invariant 0 <= i <= |names|
        invariant arr == AsItems(names[..i])
      {
        arr := arr + [Some(names[i])];
        i := i + 1;
      }
      assert names[..|names|] == names;
      if writeSucceeds {
        file := Items(arr);
      }
    }

    method IsResearched(partName: string) returns (b: bool)
      requires Valid()
      modifies this
      ensures Valid() && cache == Some(old(Stored())) && file == old(file) && defaultsFile == old(defaultsFile)
      ensures b == ContainsIgnoreCase(old(Stored()), partName)
    {
      var names := Load();
      b := exists i :: 0 <= i < |names| && EqualsIgnoreCase(names[i], partName);
    }

    /** Adds a non-blank name (in any casing it is then researched); the
        file is rewritten only when the set grew.  A blank name changes
        nothing, not even the cache.  When the write fails the cache has
        still grown and the file has not. */
    method Research(partName: string, writeSucceeds: bool)
      requires Valid()
      modifies this
      ensures Valid() && defaultsFile == old(defaultsFile)
      ensures IsBlank(partName) ==> cache == old(cache) && file == old(file)
      ensures !IsBlank(partName) ==> cache == Some(AddName(old(Stored()), partName))
      ensures !IsBlank(partName) && ContainsIgnoreCase(old(Stored()), partName) ==> file == old(file)
      ensures !IsBlank(partName) && !ContainsIgnoreCase(old(Stored()), partName) ==>
        file == (if writeSucceeds then Items(AsItems(cache.value)) else old(file))
    {
      if IsBlank(partName) {
        return;
      }
      var names := Load();
      if !ContainsIgnoreCase(names, partName) {
        AddNameKeeps(names, partName);
        cache := Some(names + [partName]);
        Save(writeSucceeds);
      }
    }

    /** Removes a non-blank name in any casing; the file is rewritten only
        when the set shrank.  A blank name changes nothing.  When the write
        fails the cache has still shrunk and the file has not. */
    method Unresearch(partName: string, writeSucceeds: bool)
      requires Valid()
      modifies this
      ensures Valid() && defaultsFile == old(defaultsFile)
      ensures IsBlank(partName) ==> cache == old(cache) && file == old(file)
      ensures !IsBlank(partName) ==> cache == Some(RemoveName(old(Stored()), partName))
      ensures !IsBlank(partName) && !ContainsIgnoreCase(old(Stored()), partName) ==> file == old(file)
      ensures !IsBlank(partName) && ContainsIgnoreCase(old(Stored()), partName) ==>
        file == (if writeSucceeds then Items(AsItems(cache.value)) else old(file))
    {
      if IsBlank(partName) {
        return;
      }
      var names := Load();
      RemoveNameKeeps(names, partName);
      if ContainsIgnoreCase(names, partName) {
        cache := Some(RemoveName(names, partName));
        Save(writeSucceeds);
      } else {
        NothingToRemove(names, partName);
      }
    }

    /** The researched names, sorted. */
    method GetResearched(le: Order) returns (r: seq<string>)
      requires Valid() && TotalPreorder(le)
      modifies this
      ensures Valid() && cache == Some(old(Stored())) && file == old(file) && defaultsFile == old(defaultsFile)
      ensures r == SortBy(old(Stored()), le)
    {
      var names := Load();
      r := SortBy(names, le);
    }

    /** The available parts not yet researched, sorted. */
    method GetUnresearchedParts(pm: PartManager, le: Order) returns (r: seq<string>)
      requires Valid() && pm.Valid() && TotalPreorder(le)
      modifies this, pm
      ensures Valid() && pm.Valid() && cache == Some(old(Stored())) && file == old(file) && defaultsFile == old(defaultsFile)
      ensures pm.catalog == old(pm.catalog)
      ensures r == SortBy(Unresearched(if pm.catalog.Missing? then [] else AllNames(pm.catalog.items), old(Stored())), le)
    {
      var all := pm.GetAvailableParts();
      var researched := Load();
      r := SortBy(Unresearched(all, researched), le);
    }

    /** The parts of one category not yet researched, sorted. */
    method GetUnresearchedByCategory(pm: PartManager, category: string, le: Order) returns (r: seq<string>)
      requires Valid() && TotalPreorder(le)
      modifies this
      ensures Valid() && cache == Some(old(Stored())) && file == old(file) && defaultsFile == old(defaultsFile)
      ensures r == SortBy(Unresearched(PartsOfType(pm.catalog, category), old(Stored())), le)
    {
      var list := pm.GetPartsByCategory(category);
      var researched := Load();
      r := SortBy(Unresearched(list, researched), le);
    }

    /** The names of the defaults file, or the built-in list. */
    method ReadDefaults() returns (r: seq<string>)
      ensures r == ListOrFallback(defaultsFile, DefaultResearch)
    {
      r := ReadList(defaultsFile, DefaultResearch);
    }

    /** Replaces the whole set by the defaults and saves it; a failed write
        leaves the file as it was. */
    method ApplyDefaultsOnStart(writeSucceeds: bool)
      requires Valid()
      modifies this
      ensures Valid() && defaultsFile == old(defaultsFile)
      ensures cache == Some(AddAll([], ListOrFallback(defaultsFile, DefaultResearch)))
      ensures writeSucceeds ==> file == Items(AsItems(cache.value))
      ensures !writeSucceeds ==> file == old(file)
    {
      var defaults := ReadDefaults();
      DefaultResearchNonBlank();
      AddAllKeeps([], defaults);
      cache := Some(AddAll([], defaults));
      Save(writeSucceeds);
    }
  }

  lemma DefaultResearchNonBlank()
    ensures forall i :: 0 <= i < |DefaultResearch| ==> !IsBlank(DefaultResearch[i])
  {
    forall i | 0 <= i < |DefaultResearch|
      ensures !IsBlank(DefaultResearch[i])
    {
      assert !IsWhiteSpace(DefaultResearch[i][0]);
    }
  }

  lemma {:induction false} NothingToRemove(s: seq<string>, x: string)
    requires !ContainsIgnoreCase(s, x)
    ensures RemoveName(s, x) == s
  {
    if s != [] {
      var s' := s[..|s| - 1];
      forall i | 0 <= i < |s'|
        ensures !EqualsIgnoreCase(s'[i], x)
      {
        assert s[i] == s'[i];
      }
      NothingToRemove(s', x);
      assert s == s' + [s[|s| - 1]];
    }
  }

  /** After `Research(x)`: `x` is researched in every casing, and every
      other name is researched exactly when it was before. */
  lemma ResearchEffect(s: seq<string>, x: string, y: string)
    requires !IsBlank(x)
    ensures ContainsIgnoreCase(AddName(s, x), y) <==> EqualsIgnoreCase(x, y) || ContainsIgnoreCase(s, y)
    ensures ContainsIgnoreCase(AddName(s, x), x)
  {
    AddNameMembers(s, x, y);
    AddNameMembers(s, x, x);
  }

  /** Researching a name already researched leaves the set as it was. */
  lemma ResearchIdempotent(s: seq<string>, x: string)
    ensures AddName(AddName(s, x), x) == AddName(s, x)
  {
    AddNameMembers(s, x, x);
  }

  /** After `Unresearch(x)`: `x` is no longer researched in any casing, and
      every other name is researched exactly when it was before. */
  lemma UnresearchEffect(s: seq<string>, x: string, y: string)
    ensures !ContainsIgnoreCase(RemoveName(s, x), x)
    ensures !EqualsIgnoreCase(x, y) ==> (ContainsIgnoreCase(RemoveName(s, x), y) <==> ContainsIgnoreCase(s, y))
  {
    RemoveNameMembers(s, x, x);
    RemoveNameMembers(s, x, y);
  }

  /** After applying the defaults, exactly the default names are researched. */
  lemma DefaultsEffect(defaults: seq<string>, y: string)
    ensures ContainsIgnoreCase(AddAll([], defaults), y) <==> ContainsIgnoreCase(defaults, y)
  {
    AddAllMembers([], defaults, y);
  }

  /** A name is offered as unresearched exactly when it is among the given
      parts and not researched in any casing. */
  lemma UnresearchedViewMembers(all: seq<string>, researched: seq<string>, le: Order, y: string)
    requires TotalPreorder(le)
    ensures y in SortBy(Unresearched(all, researched), le) <==> y in all && !ContainsIgnoreCase(researched, y)
  {
    SortByMembers(Unresearched(all, researched), le, y);
    UnresearchedMembers(all, researched, y);
  }
}
