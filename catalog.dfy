/**
 * The part catalog `Parts.txt`: a JSON array of part records carrying a
 * `name` and a `type` (the category).  The queries filter it, collect its
 * distinct categories and look up the type of a name, all comparing names
 * and types ignoring case; `GetAvailableParts` caches the list of names.
 */
module PartCatalog {
  import opened Wrappers
  import opened Text

  /** One item of the catalog array; a `null` item has neither field. */
  datatype CatalogEntry = CatalogEntry(name: Option<string>, partType: Option<string>)

  /** The catalog file: absent, or an array of items (a JSON `null`
      document reads as an empty array). */
  datatype PartsFile = Missing | Present(items: seq<CatalogEntry>)

  predicate OfType(e: CatalogEntry, t: string) {
    e.partType.Some? && EqualsIgnoreCase(e.partType.value, t)
  }

  predicate Named(e: CatalogEntry, n: string) {
    e.name.Some? && EqualsIgnoreCase(e.name.value, n)
  }

  // ---------------------------------------------------------------------------
  // Specification functions
  // ---------------------------------------------------------------------------

  /** The names of the entries of type `t`, in catalog order. */
  function NamesOfType(es: seq<CatalogEntry>, t: string): (r: seq<string>)
    ensures |r| <= |es|
  {
    if es == [] then []
    else
      var e := es[|es| - 1];
      NamesOfType(es[..|es| - 1], t) + (if OfType(e, t) && e.name.Some? then [e.name.value] else [])
  }

  /** Every name in the catalog, in catalog order. */
  function AllNames(es: seq<CatalogEntry>): (r: seq<string>)
    ensures |r| <= |es|
  {
    if es == [] then []
    else
      var e := es[|es| - 1];
      AllNames(es[..|es| - 1]) + (if e.name.Some? then [e.name.value] else [])
  }

  /** The non-empty types present in the catalog. */
  function TypeSet(es: seq<CatalogEntry>): (r: set<string>)
    ensures forall x :: x in r ==> x != ""
    ensures forall i :: 0 <= i < |es| && es[i].partType.Some? && es[i].partType.value != "" ==> es[i].partType.value in r
  {
    set e | e in es && e.partType.Some? && e.partType.value != "" :: e.partType.value
  }

  /** Index of the first entry named `n` ignoring case. */
  function FirstNamed(es: seq<CatalogEntry>, n: string): (r: Option<nat>)
    ensures r.Some? ==> r.value < |es| && Named(es[r.value], n) && forall j :: 0 <= j < r.value ==> !Named(es[j], n)
    ensures r.None? ==> forall j :: 0 <= j < |es| ==> !Named(es[j], n)
  {
    if es == [] then None
    else if Named(es[0], n) then Some(0)
    else match FirstNamed(es[1..], n)
      case None => None
      case Some(k) => Some(k + 1)
  }

  /** The type of a part name as the catalog states it: that of the first
      entry with the name, which may itself have no type. */
  function TypeFor(f: PartsFile, n: string): (r: Option<string>)
    ensures r.Some? ==> n != "" && f.Present?
    ensures r.Some? ==> exists i :: 0 <= i < |f.items| && Named(f.items[i], n) && f.items[i].partType == r
  {
    if n == "" || f.Missing? then None
    else match FirstNamed(f.items, n)
      case Some(i) => f.items[i].partType
      case None => None
  }

  /** The names listed under type `t`, or none without a catalog. */
  function PartsOfType(f: PartsFile, t: string): (r: seq<string>)
    ensures f.Missing? ==> r == []
    ensures f.Present? ==> |r| <= |f.items|
  {
    if f.Missing? then [] else NamesOfType(f.items, t)
  }

  // ---------------------------------------------------------------------------
  // What the specification functions mean
  // ---------------------------------------------------------------------------

  /** A name is listed under `t` exactly when some entry of type `t` carries it. */
  lemma {:induction false} NamesOfTypeMembers(es: seq<CatalogEntry>, t: string, x: string)
    ensures x in NamesOfType(es, t) <==> exists i :: 0 <= i < |es| && OfType(es[i], t) && es[i].name == Some(x)
  {
    if es != [] {
      var es' := es[..|es| - 1];
      NamesOfTypeMembers(es', t, x);
      if x in NamesOfType(es', t) {
        var i :| 0 <= i < |es'| && OfType(es'[i], t) && es'[i].name == Some(x);
        assert es[i] == es'[i];
      }
      if exists i :: 0 <= i < |es| && OfType(es[i], t) && es[i].name == Some(x) {
        var i :| 0 <= i < |es| && OfType(es[i], t) && es[i].name == Some(x);
        if i < |es'| {
          assert es'[i] == es[i];
        }
      }
    }
  }

  /** The type filter ignores the casing of its argument. */
  lemma {:induction false} NamesOfTypeIgnoresCase(es: seq<CatalogEntry>, t: string, u: string)
    requires EqualsIgnoreCase(t, u)
    ensures NamesOfType(es, t) == NamesOfType(es, u)
  {
    if es != [] {
      NamesOfTypeIgnoresCase(es[..|es| - 1], t, u);
    }
  }

  /** A name is available exactly when some entry carries it. */
  lemma {:induction false} AllNamesMembers(es: seq<CatalogEntry>, x: string)
    ensures x in AllNames(es) <==> exists i :: 0 <= i < |es| && es[i].name == Some(x)
  {
    if es != [] {
      var es' := es[..|es| - 1];
      AllNamesMembers(es', x);
      if x in AllNames(es') {
        var i :| 0 <= i < |es'| && es'[i].name == Some(x);
        assert es[i] == es'[i];
      }
      if exists i :: 0 <= i < |es| && es[i].name == Some(x) {
        var i :| 0 <= i < |es| && es[i].name == Some(x);
        if i < |es'| {
          assert es'[i] == es[i];
        }
      }
    }
  }

  /** Every part listed under some type is among the available parts. */
  lemma TypedPartsAvailable(es: seq<CatalogEntry>, t: string, x: string)
    requires x in NamesOfType(es, t)
    ensures x in AllNames(es)
  {
    NamesOfTypeMembers(es, t, x);
    AllNamesMembers(es, x);
  }

  // ---------------------------------------------------------------------------
  // PartManager: the static class, with its `_parts` cache
  // ---------------------------------------------------------------------------

  class PartManager {
    /** The contents of `Parts.txt`. */
    var catalog: PartsFile
    /** `_parts`: the names read by the first successful GetAvailableParts. */
    var parts: Option<seq<string>>

    ghost predicate Valid()
      reads this
    {
      parts.Some? ==> catalog.Present? && parts.value == AllNames(catalog.items)
    }

    constructor (catalog: PartsFile)
      ensures Valid() && this.catalog == catalog && parts == None
    {
      this.catalog := catalog;
      parts := None;
    }

    /** The names of the parts whose type equals `t` ignoring case, in
        catalog order; entries without a name are skipped. */
    method GetPartsByType(t: string) returns (r: seq<string>)
      ensures r == PartsOfType(catalog, t)
    {
      if catalog.Missing? {
        return [];
      }
      var items := catalog.items;
      r := [];
      var i := 0;
      while i < |items|
        invariant 0 <= i <= |items|
        invariant r == NamesOfType(items[..i], t)
      {
        var item := items[i];
        if item.partType.Some? && EqualsIgnoreCase(item.partType.value, t) {
          if item.name.Some? {
            r := r + [item.name.value];
          }
        }
        assert items[..i + 1][..i] == items[..i];
        i := i + 1;
      }
      assert items[..|items|] == items;
    }

    /** The same query under its other name: the category is the `type` field. */
    method GetPartsByCategory(category: string) returns (r: seq<string>)
      ensures r == PartsOfType(catalog, category)
    {
      r := GetPartsByType(category);
    }

    /** Each non-empty type exactly once (distinct as written, not ignoring
        case) and nothing else; the order is left open. */
    method GetAllCategories() returns (r: seq<string>)
      ensures catalog.Missing? ==> r == []
      ensures catalog.Present? ==> forall x :: x in r <==> x in TypeSet(catalog.items)
      ensures forall i, j :: 0 <= i < j < |r| ==> r[i] != r[j]
    {
      if catalog.Missing? {
        return [];
      }
      var items := catalog.items;
      var seen: set<string> := {};
      r := [];
      var i := 0;
      while i < |items|
        invariant 0 <= i <= |items|
        invariant seen == TypeSet(items[..i])
        invariant forall x :: x in r <==> x in seen
        invariant forall a, b :: 0 <= a < b < |r| ==> r[a] != r[b]
      {
        var item := items[i];
        assert items[..i + 1] == items[..i] + [item];
        if item.partType.Some? && item.partType.value != "" {
          if item.partType.value !in seen {
            r := r + [item.partType.value];
          }
          seen := seen + {item.partType.value};
        }
        i := i + 1;
      }
      assert items[..|items|] == items;
    }

    /** The type of the first entry whose name equals `partName` ignoring
        case; none for an empty name, a missing catalog or no match. */
    method GetTypeForName(partName: string) returns (r: Option<string>)
      ensures r == TypeFor(catalog, partName)
    {
      if partName == "" || catalog.Missing? {
        return None;
      }
      var items := catalog.items;
      var i := 0;
      while i < |items|
        invariant 0 <= i <= |items|
        invariant forall j :: 0 <= j < i ==> !Named(items[j], partName)
      {
        var item := items[i];
        if item.name.Some? && EqualsIgnoreCase(item.name.value, partName) {
          return item.partType;
        }
        i := i + 1;
      }
      return None;
    }

    /** All names in catalog order.  The first read of a present catalog is
        kept and returned by every later call; a missing catalog yields an
        empty list and leaves the cache unset. */
    method GetAvailableParts() returns (r: seq<string>)
      modifies this
      ensures catalog == old(catalog)
      ensures old(parts).Some? ==> r == old(parts).value && parts == old(parts)
      ensures old(parts).None? && catalog.Missing? ==> r == [] && parts == None
      ensures old(parts).None? && catalog.Present? ==> r == AllNames(catalog.items) && parts == Some(r)
      ensures old(Valid()) ==> Valid()
    {
      if parts.Some? {
        return parts.value;
      }
      if catalog.Missing? {
        return [];
      }
      var items := catalog.items;
      var result := [];
      var i := 0;
      while i < |items|
        invariant 0 <= i <= |items|
        invariant result == AllNames(items[..i])
      {
        if items[i].name.Some? {
          result := result + [items[i].name.value];
        }
        assert items[..i + 1][..i] == items[..i];
        i := i + 1;
      }
      assert items[..|items|] == items;
      parts := Some(result);
      r := result;
    }
  }
}
