/**
 * Tag definitions (`Config/Tags.txt`).  A tag may carry a value in
 * parentheses, as in `Energy(40)`; its description is found under the base
 * name, `Energy`, with names compared ignoring case.
 *
 * `GetBaseName` applies the pattern `^\s*([^\(]+)\s*(?:\((.*?)\))?\s*$`
 * and keeps group 1, trimmed.  The pattern is stated here as what a match
 * decomposes the tag into (`SplitMatches`), and the computation as an
 * index search (`BaseNameOf`); the lemmas show the two agree.
 */
module Tags {
  import opened Wrappers
  import opened Text
  import opened Tables

  predicate NoChar(s: string, c: char) {
    forall i :: 0 <= i < |s| ==> s[i] != c
  }

  // ---------------------------------------------------------------------------
  // The pattern, as the decompositions a match makes
  // ---------------------------------------------------------------------------

  /** `\s*\((.*?)\)\s*$` matches `tag[j..]`, with the parentheses at `l`
      and `m` (`.` does not match a line feed). */
  predicate ParenAt(tag: string, j: nat, l: nat, m: nat)
    requires j <= l < m < |tag|
  {
    IsBlank(tag[j..l]) && tag[l] == '(' && tag[m] == ')' && NoChar(tag[l + 1..m], '\n') && IsBlank(tag[m + 1..])
  }

  /** `\s*(?:\((.*?)\))?\s*$` matches `tag[j..]`. */
  predicate TailMatches(tag: string, j: nat)
    requires j <= |tag|
  {
    IsBlank(tag[j..]) || exists l, m :: j <= l < m < |tag| && ParenAt(tag, j, l, m)
  }

  /** The pattern matches with group 1 `[^\(]+` spanning `tag[k..j]`. */
  predicate SplitMatches(tag: string, k: nat, j: nat)
    requires k < j <= |tag|
  {
    IsBlank(tag[..k]) && NoChar(tag[k..j], '(') && TailMatches(tag, j)
  }

  predicate PatternMatches(tag: string): (r: bool)
    ensures r ==> |tag| > 0
  {
    exists k, j :: 0 <= k < j <= |tag| && SplitMatches(tag, k, j)
  }

  // ---------------------------------------------------------------------------
  // The same, computed from the first '(' and the last non-blank character
  // ---------------------------------------------------------------------------

  /** After the first '(' at `i`, the last non-blank character is a ')' with
      no line feed in between. */
  predicate ClosesAtEnd(tag: string, i: nat)
    requires i < |tag|
  {
    var e := BackOverWhiteSpace(tag, |tag|);
    i + 1 < e && tag[e - 1] == ')' && NoChar(tag[i + 1..e - 1], '\n')
  }

  function BaseNameOf(tag: string): (r: string)
    ensures |r| <= |tag|
    ensures r == [] || (!IsWhiteSpace(r[0]) && !IsWhiteSpace(r[|r| - 1]))
  {
    match IndexOf(tag, '(')
    case None => Trim(tag)
    case Some(i) => if i >= 1 && ClosesAtEnd(tag, i) then Trim(tag[..i]) else Trim(tag)
  }

  /** No '(' before `l` when `tag[..k]` and `tag[j..l]` are blank and
      `tag[k..j]` has none. */
  lemma NoParenBefore(tag: string, k: nat, j: nat, l: nat)
    requires k <= j <= l <= |tag|
    requires IsBlank(tag[..k]) && NoChar(tag[k..j], '(') && IsBlank(tag[j..l])
    ensures forall x :: 0 <= x < l ==> tag[x] != '('
  {
    forall x | 0 <= x < l
      ensures tag[x] != '('
    {
      if x < k {
        assert tag[x] == tag[..k][x];
      } else if x < j {
        assert tag[x] == tag[k..j][x - k];
      } else {
        assert tag[x] == tag[j..l][x - j];
      }
    }
  }

  /** Backing over the white space after a ')' stops just after it. */
  lemma BackToClose(tag: string, m: nat)
    requires m < |tag| && tag[m] == ')' && IsBlank(tag[m + 1..])
    ensures BackOverWhiteSpace(tag, |tag|) == m + 1
  {
    assert forall x :: m < x < |tag| ==> tag[x] == tag[m + 1..][x - m - 1];
    BackAt(tag, m + 1);
  }

  /** A match without parentheses: the tag has no '(' and group 1 is the
      tag less its blank ends. */
  lemma SplitBlankTail(tag: string, k: nat, j: nat)
    requires k < j <= |tag| && IsBlank(tag[..k]) && NoChar(tag[k..j], '(') && IsBlank(tag[j..])
    ensures IndexOf(tag, '(').None?
    ensures Trim(tag[k..j]) == Trim(tag)
  {
    assert tag[j..|tag|] == tag[j..];
    NoParenBefore(tag, k, j, |tag|);
    PaddedWindow(tag, k, j, |tag|);
    assert tag[..|tag|] == tag;
  }

  /** A match with parentheses at `l` and `m`: the first '(' is at `l` and
      the tag closes at its end. */
  lemma ParenFound(tag: string, k: nat, j: nat, l: nat, m: nat)
    requires k < j <= l < m < |tag| && IsBlank(tag[..k]) && NoChar(tag[k..j], '(') && ParenAt(tag, j, l, m)
    ensures IndexOf(tag, '(') == Some(l) && l >= 1 && ClosesAtEnd(tag, l)
  {
    NoParenBefore(tag, k, j, l);
    IndexOfFirst(tag, '(', l);
    BackToClose(tag, m);
  }

  /** Such a match has group 1 equal, trimmed, to `tag[..l]` trimmed. */
  lemma SplitParenTail(tag: string, k: nat, j: nat, l: nat, m: nat)
    requires k < j <= l < m < |tag| && IsBlank(tag[..k]) && NoChar(tag[k..j], '(') && ParenAt(tag, j, l, m)
    ensures IndexOf(tag, '(') == Some(l) && l >= 1 && ClosesAtEnd(tag, l)
    ensures Trim(tag[k..j]) == Trim(tag[..l])
  {
    ParenFound(tag, k, j, l, m);
    PaddedWindow(tag, k, j, l);
  }

  /** A window of `tag[..l]` with only white space around it trims as
      `tag[..l]` does. */
  lemma PaddedWindow(tag: string, k: nat, j: nat, l: nat)
    requires k <= j <= l <= |tag| && IsBlank(tag[..k]) && IsBlank(tag[j..l])
    ensures Trim(tag[k..j]) == Trim(tag[..l])
  {
    var s := tag[..l];
    assert forall i :: 0 <= i < k ==> s[i] == tag[..k][i];
    assert forall i :: 0 <= i < j - k ==> s[k + i] == tag[k..j][i];
    assert forall i :: j <= i < l ==> s[i] == tag[j..l][i - j];
    TrimShifted(s, k, tag[k..j]);
  }

  /** Every way the pattern can match yields, trimmed, the computed base name. */
  lemma SplitResult(tag: string, k: nat, j: nat)
    requires k < j <= |tag| && SplitMatches(tag, k, j)
    ensures Trim(tag[k..j]) == BaseNameOf(tag)
    ensures IndexOf(tag, '(').None? || (IndexOf(tag, '(').value >= 1 && ClosesAtEnd(tag, IndexOf(tag, '(').value))
  {
    if IsBlank(tag[j..]) {
      SplitBlankTail(tag, k, j);
    } else {
      var l, m :| j <= l < m < |tag| && ParenAt(tag, j, l, m);
      SplitParenTail(tag, k, j, l, m);
    }
  }

  /** Without a '(', the whole tag is a match of group 1. */
  lemma MatchWithoutParen(tag: string)
    requires !IsBlank(tag) && IndexOf(tag, '(').None?
    ensures SplitMatches(tag, 0, |tag|)
  {
    assert tag[..0] == [] && tag[0..|tag|] == tag && tag[|tag|..] == [];
  }

  /** With the first '(' at `i >= 1` closing at the end, `tag[..i]` is a
      match of group 1. */
  lemma MatchWithParen(tag: string, i: nat)
    requires IndexOf(tag, '(') == Some(i) && i >= 1 && ClosesAtEnd(tag, i)
    ensures SplitMatches(tag, 0, i)
  {
    var e := BackOverWhiteSpace(tag, |tag|);
    BackedWhite(tag, |tag|);
    assert tag[i..i] == [] && tag[..0] == [];
    assert forall x :: 0 <= x < i ==> tag[0..i][x] == tag[x];
    assert forall x :: e <= x < |tag| ==> tag[e..][x - e] == tag[x];
    assert ParenAt(tag, i, i, e - 1);
  }

  /** The pattern matches a non-blank tag exactly when there is no '(' or
      the first '(' has something before it and closes at the end. */
  lemma MatchIff(tag: string)
    requires !IsBlank(tag)
    ensures PatternMatches(tag) <==>
      IndexOf(tag, '(').None? || (IndexOf(tag, '(').value >= 1 && ClosesAtEnd(tag, IndexOf(tag, '(').value))
  {
    if PatternMatches(tag) {
      var k, j :| 0 <= k < j <= |tag| && SplitMatches(tag, k, j);
      SplitResult(tag, k, j);
    }
    match IndexOf(tag, '(')
    case None =>
      MatchWithoutParen(tag);
    case Some(i) =>
      if i >= 1 && ClosesAtEnd(tag, i) {
        MatchWithParen(tag, i);
      }
  }

  lemma AllSplitsAgree(tag: string)
    ensures forall k, j :: 0 <= k < j <= |tag| && SplitMatches(tag, k, j) ==> Trim(tag[k..j]) == BaseNameOf(tag)
  {
    forall k, j | 0 <= k < j <= |tag| && SplitMatches(tag, k, j)
      ensures Trim(tag[k..j]) == BaseNameOf(tag)
    {
      SplitResult(tag, k, j);
    }
  }

  /**
   * `TagsManager.GetBaseName`: a blank tag is returned as it is; when the
   * pattern matches, the result is group 1 trimmed, whichever way the
   * match splits the tag; otherwise it is the tag trimmed.
   */
  function GetBaseName(tag: string): (r: string)
    ensures IsBlank(tag) ==> r == tag
    ensures !IsBlank(tag) && !PatternMatches(tag) ==> r == Trim(tag)
    ensures !IsBlank(tag) ==> forall k, j :: 0 <= k < j <= |tag| && SplitMatches(tag, k, j) ==> r == Trim(tag[k..j])
  {
    if IsBlank(tag) then tag
    else
      MatchIff(tag);
      AllSplitsAgree(tag);
      BaseNameOf(tag)
  }

  // ---------------------------------------------------------------------------
  // The base-name rules by example shape
  // ---------------------------------------------------------------------------

  /** `Name(value)` has base name `Name`, trimmed, whenever `Name` is
      non-empty without '(' and `value` has no line feed. */
  lemma BaseNameOfValued(name: string, value: string)
    requires |name| > 0 && NoChar(name, '(') && NoChar(value, '\n')
    ensures GetBaseName(name + "(" + value + ")") == Trim(name)
  {
    var tag := name + "(" + value + ")";
    var l := |name|;
    var m := |tag| - 1;
    assert tag[l] == '(' && tag[m] == ')';
    assert tag[..l] == name && tag[l + 1..m] == value;
    assert tag[l..l] == [] && tag[m + 1..] == [];
    assert ParenAt(tag, l, l, m);
    assert tag[..0] == [] && tag[0..l] == name;
    assert SplitMatches(tag, 0, l);
    assert !IsBlank(tag) by {
      assert !IsWhiteSpace(tag[l]);
    }
  }

  /** A tag without '(' has the tag itself, trimmed, as base name. */
  lemma BaseNameWithoutParen(tag: string)
    requires NoChar(tag, '(')
    ensures GetBaseName(tag) == (if IsBlank(tag) then tag else Trim(tag))
  {
    if !IsBlank(tag) {
      assert tag[..0] == [] && tag[0..|tag|] == tag && tag[|tag|..] == [];
      assert SplitMatches(tag, 0, |tag|);
    }
  }

  /** When text other than white space follows the last ')', or there is no
      ')' after the first '(', the pattern fails and the tag is only trimmed. */
  lemma BaseNameUnclosed(tag: string, i: nat)
    requires i < |tag| && tag[i] == '(' && NoChar(tag[..i], '(')
    requires var e := BackOverWhiteSpace(tag, |tag|); e > 0 && tag[e - 1] != ')'
    ensures GetBaseName(tag) == Trim(tag)
  {
    assert !IsBlank(tag) by {
      assert !IsWhiteSpace(tag[i]);
    }
    assert forall x :: 0 <= x < i ==> tag[..i][x] == tag[x];
    IndexOfFirst(tag, '(', i);
    assert !ClosesAtEnd(tag, i);
    MatchIff(tag);
  }

  /** "Energy(40)" has base name "Energy"; "A(b)c" does not match and stays whole. */
  lemma BaseNameExamples()
    ensures GetBaseName("Energy" + "(" + "40" + ")") == "Energy"
    ensures GetBaseName("A" + "(b)c") == "A" + "(b)c"
  {
    BaseNameOfValued("Energy", "40");
    assert NoChar("Energy", '(');
    TrimUnchanged("Energy");
    var t := "A" + "(b)c";
    assert t[1] == '(' && t[4] == 'c';
    assert NoChar(t[..1], '(');
    assert BackOverWhiteSpace(t, 5) == 5;
    BaseNameUnclosed(t, 1);
    TrimUnchanged(t);
  }

  // ---------------------------------------------------------------------------
  // TagsManager
  // ---------------------------------------------------------------------------

  class TagsManager {
    /** `Config/Tags.txt` */
    var file: RecordsFile
    /** `_cache`: base name (ignoring case) to description, once loaded. */
    var cache: Option<map<string, string>>

    ghost predicate Valid()
      reads this
    {
      cache.Some? ==> cache.value == FileTable(file, Lower)
    }

    constructor (file: RecordsFile)
      ensures Valid() && this.file == file && cache == None
    {
      this.file := file;
      cache := None;
    }

    /** Loads the table once: blank names skipped, a missing description
        stored as "", a later record overwriting an earlier one with the
        same name in any casing; no file gives an empty table. */
    method EnsureLoaded()
      requires Valid()
      modifies this
      ensures Valid() && file == old(file) && cache == Some(FileTable(file, Lower))
    {
      if cache.Some? {
        return;
      }
      if file.NoFile? {
        cache := Some(map[]);
        return;
      }
      var t := BuildTable(file.records, Lower);
      cache := Some(t);
    }

    /** The description stored for the tag's base name, compared ignoring
        case; none when there is no such entry. */
    method GetDescription(tag: string) returns (r: Option<string>)
      requires Valid()
      modifies this
      ensures Valid() && file == old(file) && cache == Some(FileTable(file, Lower))
      ensures r == Lookup(FileTable(file, Lower), Lower(GetBaseName(tag)))
    {
      EnsureLoaded();
      var baseName := GetBaseName(tag);
      r := Lookup(cache.value, Lower(baseName));
    }
  }

  /** A description is found for a tag exactly when a kept record's name
      equals its base name ignoring case, and it is the last such record's. */
  lemma TagDescriptionFound(rs: seq<NamedRecord>, tag: string, i: nat)
    requires i < |rs| && Kept(rs[i]) && EqualsIgnoreCase(rs[i].name.value, GetBaseName(tag))
    requires forall j :: i < j < |rs| && Kept(rs[j]) ==> !EqualsIgnoreCase(rs[j].name.value, rs[i].name.value)
    ensures Lookup(TableOf(rs, Lower), Lower(GetBaseName(tag))) == Some(rs[i].description.GetOr(""))
  {
    LastWins(rs, Lower, i);
  }

  lemma TagDescriptionMissing(rs: seq<NamedRecord>, tag: string)
    requires forall j :: 0 <= j < |rs| && Kept(rs[j]) ==> !EqualsIgnoreCase(rs[j].name.value, GetBaseName(tag))
    ensures Lookup(TableOf(rs, Lower), Lower(GetBaseName(tag))) == None
  {
    TableKeys(rs, Lower, Lower(GetBaseName(tag)));
  }
}
