/**
 * Lists of names read from a JSON array of strings (research defaults,
 * buildings): blank items are dropped, and a file that is missing, holds
 * no array, cannot be read, or yields no name at all gives a fallback list.
 */
module NameLists {
  import opened Wrappers
  import opened Text

  /** A file meant to hold a JSON array; `null` items are `None`, other
      items are their text. */
  datatype ListFile = Missing | NotAList | Unreadable | Items(items: seq<Option<string>>)

  /** The non-blank items, in file order. */
  function NonBlank(xs: seq<Option<string>>): (r: seq<string>)
    ensures |r| <= |xs|
    ensures forall i :: 0 <= i < |r| ==> !IsBlank(r[i])
  {
    if xs == [] then []
    else
      var x := xs[|xs| - 1];
      NonBlank(xs[..|xs| - 1]) + (if IsNullOrWhiteSpace(x) then [] else [x.value])
  }

  /** A name is kept exactly when some item is that name and is not blank. */
  lemma {:induction false} NonBlankMembers(xs: seq<Option<string>>, y: string)
    ensures y in NonBlank(xs) <==> !IsBlank(y) && exists i :: 0 <= i < |xs| && xs[i] == Some(y)
  {
    if xs != [] {
      var xs' := xs[..|xs| - 1];
      NonBlankMembers(xs', y);
      if y in NonBlank(xs') {
        var i :| 0 <= i < |xs'| && xs'[i] == Some(y);
        assert xs[i] == xs'[i];
      }
      if !IsBlank(y) && exists i :: 0 <= i < |xs| && xs[i] == Some(y) {
        var i :| 0 <= i < |xs| && xs[i] == Some(y);
        if i < |xs'| {
          assert xs'[i] == xs[i];
        }
      }
    }
  }

  /** The items a list of names is written as. */
  function AsItems(names: seq<string>): (xs: seq<Option<string>>)
    ensures |xs| == |names| && forall i :: 0 <= i < |names| ==> xs[i] == Some(names[i])
  {
    seq(|names|, i requires 0 <= i < |names| => Some(names[i]))
  }

  /** Writing non-blank names as an array and reading it back loses nothing. */
  lemma {:induction false} NonBlankAsItems(names: seq<string>)
    requires forall i :: 0 <= i < |names| ==> !IsBlank(names[i])
    ensures NonBlank(AsItems(names)) == names
  {
    if names != [] {
      var n' := names[..|names| - 1];
      assert AsItems(names)[..|names| - 1] == AsItems(n');
      NonBlankAsItems(n');
    }
  }

  /** The names a list file yields, `fallback` unless it has at least one. */
  function ListOrFallback(f: ListFile, fallback: seq<string>): (r: seq<string>)
    ensures r == fallback || (f.Items? && 0 < |r| <= |f.items| && forall i :: 0 <= i < |r| ==> !IsBlank(r[i]))
    ensures !f.Items? ==> r == fallback
  {
    if f.Items? && |NonBlank(f.items)| > 0 then NonBlank(f.items) else fallback
  }

  /** The result is never empty when the fallback is not. */
  lemma ListOrFallbackNonEmpty(f: ListFile, fallback: seq<string>)
    requires |fallback| > 0
    ensures |ListOrFallback(f, fallback)| > 0
  {
  }

  /** The fallback is used exactly when the file yields no non-blank name. */
  lemma ListOrFallbackCases(f: ListFile, fallback: seq<string>)
    ensures (!f.Items? || forall i :: 0 <= i < |f.items| ==> IsNullOrWhiteSpace(f.items[i])) ==>
      ListOrFallback(f, fallback) == fallback
    ensures f.Items? && (exists i :: 0 <= i < |f.items| && !IsNullOrWhiteSpace(f.items[i])) ==>
      ListOrFallback(f, fallback) == NonBlank(f.items)
  {
    if f.Items? {
      if exists i :: 0 <= i < |f.items| && !IsNullOrWhiteSpace(f.items[i]) {
        var i :| 0 <= i < |f.items| && !IsNullOrWhiteSpace(f.items[i]);
        NonBlankMembers(f.items, f.items[i].value);
      } else if |NonBlank(f.items)| > 0 {
        var y := NonBlank(f.items)[0];
        NonBlankMembers(f.items, y);
      }
    }
  }

  /** The loop both list readers run: the items that are not blank, in order. */
  method CollectNonBlank(xs: seq<Option<string>>) returns (r: seq<string>)
    ensures r == NonBlank(xs)
  {
    r := [];
    var i := 0;
    while i < |xs|
      invariant 0 <= i <= |xs|
      invariant r == NonBlank(xs[..i])
    {
      var name := xs[i];
      if !IsNullOrWhiteSpace(name) {
        r := r + [name.value];
      }
      assert xs[..i + 1][..i] == xs[..i];
      i := i + 1;
    }
    assert xs[..|xs|] == xs;
  }

  /** Reads a list file: the non-blank names, or `fallback` for a missing,
      non-array or unreadable file or one without a non-blank name. */
  method ReadList(f: ListFile, fallback: seq<string>) returns (r: seq<string>)
    ensures r == ListOrFallback(f, fallback)
  {
    if !f.Items? {
      return fallback;
    }
    var list := CollectNonBlank(f.items);
    r := if |list| > 0 then list else fallback;
  }
}
