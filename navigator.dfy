/**
 * The console navigator over the template being built.  The current
 * object is addressed by a path (empty at the root object) and the
 * navigation stack holds the objects above it; one step reads a line of
 * input and either quits, goes up, adds a part below the current object,
 * or descends into one of its parts.
 */
module Navigation {
  import opened Wrappers
  import opened Text
  import opened PartTree
  import opened Templates
  import opened PartCatalog

  const GoUpKey: char := 'U'
  const AddPartKey: char := 'A'

  // ---------------------------------------------------------------------------
  // The input line
  // ---------------------------------------------------------------------------

  datatype Command = Quit | GoUp | AddNew | Select(number: nat) | Invalid

  /** A one-character line whose upper-case form is `key`. */
  predicate IsKey(input: Option<string>, key: char) {
    input.Some? && |input.value| == 1 && UpperChar(input.value[0]) == key
  }

  /** What a line means, in the order the step tests it: "q" in any case
      quits; the go-up key needs a non-empty stack; the add key needs the
      current object to accept a part; a number selects one of the listed
      parts, counted from 1. */
  function Classify(input: Option<string>, depth: nat, canAdd: bool, partCount: nat): (c: Command)
    ensures c.GoUp? ==> depth > 0
    ensures c.AddNew? ==> canAdd
    ensures c.Select? ==> 1 <= c.number <= partCount
    ensures input.None? ==> c == Invalid
  {
    if input.Some? && Lower(input.value) == "q" then Quit
    else if depth > 0 && IsKey(input, GoUpKey) then GoUp
    else if canAdd && IsKey(input, AddPartKey) then AddNew
    else if input.Some? && ParseInt32(input.value).Some? && 0 < ParseInt32(input.value).value <= partCount then
      Select(ParseInt32(input.value).value)
    else Invalid
  }

  /** Exactly "q" and "Q" quit. */
  lemma QuitAnyCase(s: string, depth: nat, canAdd: bool, partCount: nat)
    ensures Classify(Some(s), depth, canAdd, partCount) == Quit <==> s == "q" || s == "Q"
  {
    if Lower(s) == "q" {
      assert |s| == 1 && LowerChar(s[0]) == 'q';
      assert s == [s[0]];
    }
    if s == "Q" {
      assert Lower(s)[0] == LowerChar('Q');
    }
  }

  /** The decimal text of a listed part's number selects that part. */
  lemma NumberSelects(n: int32, depth: nat, canAdd: bool, partCount: nat)
    requires 1 <= n <= partCount
    ensures Classify(Some(IntToString(n)), depth, canAdd, partCount) == Select(n)
  {
    var s := IntToString(n);
    ParseFormatRoundTrip(n);
    assert ParseInt32(s) == Some(n);
    assert s == NatToString(n);
    assert IsDigit(s[0]) && UpperChar(s[0]) == s[0] && LowerChar(s[0]) == s[0];
    assert Lower(s) != "q" by {
      assert Lower(s)[0] == LowerChar(s[0]);
    }
    assert !IsKey(Some(s), GoUpKey) && !IsKey(Some(s), AddPartKey);
  }

  // ---------------------------------------------------------------------------
  // GetChildParts
  // ---------------------------------------------------------------------------

  /** The current object is the root or a part of the template. */
  predicate IsObject(t: Template, cursor: Path) {
    cursor == [] || ValidPath(Nodes(t), cursor)
  }

  /** The parts listed below the current object: the top-level parts at the
      root, the children of a part under it. */
  function ChildParts(t: Template, cursor: Path): (ps: seq<Path>)
    requires IsObject(t, cursor)
    ensures forall i :: 0 <= i < |ps| ==> |ps[i]| == |cursor| + 1 && ps[i][..|cursor|] == cursor
  {
    if cursor == [] then seq(|t|, i requires 0 <= i < |t| => [i])
    else seq(|At(Nodes(t), cursor).children|, i requires 0 <= i < |At(Nodes(t), cursor).children| => cursor + [i])
  }

  /** A path is listed exactly when it is a part one level below the
      current object; the listed parts are in order. */
  lemma ChildPartsExactly(t: Template, cursor: Path, s: Path)
    requires IsObject(t, cursor)
    ensures s in ChildParts(t, cursor) <==>
      ValidPath(Nodes(t), s) && |s| == |cursor| + 1 && s[..|cursor|] == cursor
    ensures forall i :: 0 <= i < |ChildParts(t, cursor)| ==> ChildParts(t, cursor)[i] == cursor + [i]
  {
    var ps := ChildParts(t, cursor);
    if cursor == [] {
      if ValidPath(Nodes(t), s) && |s| == 1 {
        assert s == [s[0]] && ps[s[0]] == s;
      }
      forall i | 0 <= i < |ps|
        ensures ValidPath(Nodes(t), ps[i])
      {
        assert ps[i] == [i] && [i][1..] == [];
      }
    } else {
      if ValidPath(Nodes(t), s) && |s| == |cursor| + 1 && s[..|cursor|] == cursor {
        var i := s[|cursor|];
        assert s == cursor + [i];
        ValidPathExtend(Nodes(t), cursor, i);
        assert ps[i] == s;
      }
      forall i | 0 <= i < |ps|
        ensures ValidPath(Nodes(t), ps[i]) && |ps[i]| == |cursor| + 1 && ps[i][..|cursor|] == cursor
      {
        ValidPathExtend(Nodes(t), cursor, i);
        assert (cursor + [i])[..|cursor|] == cursor;
      }
    }
  }

  /** Collects the parts below the current object. */
  method GetChildParts(t: Template, cursor: Path) returns (parts: seq<Path>)
    requires IsObject(t, cursor)
    ensures parts == ChildParts(t, cursor)
  {
    parts := [];
    if cursor == [] {
      // every root property is a part object carrying a PartID
      var i := 0;
      while i < |t|
        invariant 0 <= i <= |t|
        invariant parts == ChildParts(t, cursor)[..i]
      {
        parts := parts + [[i]];
        i := i + 1;
      }
    } else {
      // a part's own properties are scalars; its parts are in `children`
      var children := At(Nodes(t), cursor).children;
      var i := 0;
      while i < |children|
        invariant 0 <= i <= |children|
        invariant parts == ChildParts(t, cursor)[..i]
      {
        parts := parts + [cursor + [i]];
        i := i + 1;
      }
    }
  }

  // ---------------------------------------------------------------------------
  // What may be added
  // ---------------------------------------------------------------------------

  /** The categories other than "Frame" (ignoring case), in order. */
  function NonFrame(categories: seq<string>): (r: seq<string>)
    ensures forall x :: x in r <==> x in categories && !EqualsIgnoreCase(x, "Frame")
  {
    if categories == [] then []
    else
      var c := categories[|categories| - 1];
      NonFrame(categories[..|categories| - 1]) + (if EqualsIgnoreCase(c, "Frame") then [] else [c])
  }

  /** The part a number line picks from a list, counted from 1. */
  function PickFrom(available: seq<string>, input: string): (r: Option<string>)
    ensures r.Some? <==> ParseInt32(input).Some? && 0 < ParseInt32(input).value <= |available|
    ensures r.Some? ==> r.value in available
  {
    var k := ParseInt32(input);
    if k.Some? && 0 < k.value <= |available| then
      assert available[k.value - 1] in available;
      Some(available[k.value - 1])
    else None
  }

  /** A part that may be added below a part: a catalog part of some
      catalog category other than "Frame". */
  ghost predicate ChildOffer(f: PartsFile, name: string) {
    f.Present? && exists c :: c in TypeSet(f.items) && !EqualsIgnoreCase(c, "Frame") && name in PartsOfType(f, c)
  }

  /** The part a number line picks below a part: one of the parts of some
      catalog category other than "Frame", numbered by `partInput`. */
  ghost predicate ChildPick(f: PartsFile, partInput: string, name: string) {
    && f.Present?
    && exists c :: c in TypeSet(f.items) && !EqualsIgnoreCase(c, "Frame") && PickFrom(PartsOfType(f, c), partInput) == Some(name)
  }

  /** A list `GetAllCategories` may return for the catalog `f`: each
      non-empty type once, in an order left open. */
  ghost predicate CategoryList(f: PartsFile, cats: seq<string>) {
    && f.Present?
    && (forall x :: x in cats <==> x in TypeSet(f.items))
    && forall i, j :: 0 <= i < j < |cats| ==> cats[i] != cats[j]
  }

  /** The part the add dialogue below a part picks when the categories are
      listed as `cats`: `catInput` numbers one of the categories other than
      "Frame", and `partInput` one of that category's parts. */
  function ChildChoice(f: PartsFile, cats: seq<string>, catInput: string, partInput: string): (r: Option<string>)
    ensures r.Some? ==> exists c :: c in cats && !EqualsIgnoreCase(c, "Frame") && PickFrom(PartsOfType(f, c), partInput) == r
  {
    var fl := NonFrame(cats);
    var k := ParseInt32(catInput);
    if k.Some? && 1 <= k.value <= |fl| then
      assert fl[k.value - 1] in fl;
      PickFrom(PartsOfType(f, fl[k.value - 1]), partInput)
    else None
  }

  /** The template after the manager places a new part named `name` below
      the current object. */
  function Added(t: Template, counter: nat, cursor: Path, name: string): (r: Template)
    requires IsObject(t, cursor)
    ensures cursor == [] ==> |r| == |t| + 1 && r[..|t|] == t && r[|t|].key == PartKey(counter + 1)
    ensures cursor != [] ==> |r| == |t| && forall i :: 0 <= i < |t| ==> r[i].key == t[i].key
  {
    var part := Node(Some(name), counter + 1, map[], []);
    if cursor == [] then t + [Entry(PartKey(counter + 1), part)] else AppendChild(t, cursor, part)
  }

  /** The PartID text of the current object; none at the root. */
  function ParentPartID(t: Template, cursor: Path): (r: Option<string>)
    requires IsObject(t, cursor)
    ensures r.None? <==> cursor == []
    ensures r.Some? ==> r.value == NatToString(At(Nodes(t), cursor).partID)
  {
    if cursor == [] then None else Some(IdText(At(Nodes(t), cursor)))
  }

  /** Whether the current object accepts a new part (`CanAdd`). */
  predicate CanAddAt(t: Template, cursor: Path): (r: bool)
    requires IsObject(t, cursor)
    ensures cursor != [] || t == [] ==> r
    ensures !r ==> exists i :: 0 <= i < |t| && IsFrameNamed(t[i].part)
  {
    cursor != [] || forall i :: 0 <= i < |t| ==> !IsFrameNamed(t[i].part)
  }

  // ---------------------------------------------------------------------------
  // The navigator
  // ---------------------------------------------------------------------------

  /** The objects above the one at `p`, the root first: its proper prefixes. */
  function Above(p: Path): (r: seq<Path>)
    ensures |r| == |p| && forall k :: 0 <= k < |p| ==> r[k] == p[..k]
  {
    if p == [] then [] else Above(p[..|p| - 1]) + [p[..|p| - 1]]
  }

  class Navigator {
    var manager: TemplateManager
    var catalog: PartManager
    /** `currentObject` */
    var cursor: Path
    /** `navigationStack`, bottom first */
    var stack: seq<Path>

    /** The stack holds exactly the objects above the current one, the root
        at the bottom. */
    ghost predicate Valid()
      reads this, manager
    {
      manager.Valid() && manager.managedTemplate.Some? &&
      IsObject(manager.managedTemplate.value, cursor) &&
      stack == Above(cursor)
    }

    function Tree(): Template
      reads this, manager
      requires manager.managedTemplate.Some?
    {
      manager.managedTemplate.value
    }

    constructor (manager: TemplateManager, catalog: PartManager)
      requires manager.Valid() && manager.managedTemplate.Some?
      ensures Valid() && this.manager == manager && this.catalog == catalog
      ensures cursor == [] && stack == []
    {
      this.manager := manager;
      this.catalog := catalog;
      cursor := [];
      stack := [];
    }

    /**
     * The part the add action picks: at the root the user numbers one of
     * the catalog's Frame parts; below a part the user first numbers a
     * category other than "Frame" and then one of its parts.  None when a
     * list is empty or a number is out of range.
     */
    method ChooseNewPart(atRoot: bool, catInput: string, partInput: string) returns (name: Option<string>)
      ensures atRoot ==> name == PickFrom(PartsOfType(catalog.catalog, "Frame"), partInput)
      ensures !atRoot && name.Some? ==> ChildOffer(catalog.catalog, name.value)
      ensures !atRoot && name.Some? ==> ChildPick(catalog.catalog, partInput, name.value)
      ensures !atRoot && catalog.catalog.Missing? ==> name.None?
      ensures !atRoot && catalog.catalog.Present? ==>
        exists cats :: CategoryList(catalog.catalog, cats) && name == ChildChoice(catalog.catalog, cats, catInput, partInput)
    {
      var available: seq<string>;
      ghost var cats: seq<string> := [];
      if atRoot {
        available := catalog.GetPartsByType("Frame");
      } else {
        var categories := catalog.GetAllCategories();
        cats := categories;
        if |categories| == 0 {
          assert catalog.catalog.Present? ==> CategoryList(catalog.catalog, cats);
          return None;
        }
        var filtered := NonFrame(categories);
        if |filtered| == 0 {
          assert CategoryList(catalog.catalog, cats);
          return None;
        }
        var catIndex := ParseInt32(catInput);
        if catIndex.None? || catIndex.value < 1 || catIndex.value > |filtered| {
          assert CategoryList(catalog.catalog, cats);
          return None;
        }
        var selectedCategory := filtered[catIndex.value - 1];
        assert selectedCategory in filtered;
        available := catalog.GetPartsByCategory(selectedCategory);
        assert CategoryList(catalog.catalog, cats);
      }
      if |available| == 0 {
        return None;
      }
      name := PickFrom(available, partInput);
    }

    /**
     * One navigation step on the line `input` (with `catInput` and
     * `partInput` the lines read by the add dialogue).  Returns true to
     * quit, and the name of the part the step added, if any; `cmd` is what
     * the line meant.  Going up pops the stack; selecting a part pushes the
     * current object and moves to that part; adding leaves the position
     * alone.
     */
    method NavigationStep(input: Option<string>, catInput: string, partInput: string)
      returns (quit: bool, added: Option<string>, ghost cmd: Command)
      requires Valid()
      modifies this, manager
      ensures Valid() && manager == old(manager) && catalog == old(catalog)
      ensures cmd == Classify(input, |old(stack)|, CanAddAt(old(Tree()), old(cursor)), |ChildParts(old(Tree()), old(cursor))|)
      ensures quit <==> cmd.Quit?
      ensures cmd.Quit? || cmd.Invalid? || cmd.AddNew? ==> cursor == old(cursor) && stack == old(stack)
      ensures !cmd.AddNew? ==> added.None?
      ensures cmd.GoUp? ==> stack == old(stack)[..|old(stack)| - 1] && cursor == old(stack)[|old(stack)| - 1]
      ensures cmd.Select? ==> stack == old(stack) + [old(cursor)] && cursor == old(cursor) + [cmd.number - 1]
      ensures added.None? ==> Tree() == old(Tree()) && manager.idCounter == old(manager.idCounter)
      ensures added.Some? ==>
        Tree() == Added(old(Tree()), old(manager.idCounter), cursor, added.value) &&
        manager.idCounter == old(manager.idCounter) + 1
      ensures added.Some? && cursor == [] ==> PickFrom(PartsOfType(catalog.catalog, "Frame"), partInput) == added
      ensures added.Some? && cursor != [] ==> ChildOffer(catalog.catalog, added.value)
      ensures cmd.AddNew? && old(cursor) == [] ==> added == PickFrom(PartsOfType(catalog.catalog, "Frame"), partInput)
      ensures cmd.AddNew? && old(cursor) != [] && added.Some? ==> ChildPick(catalog.catalog, partInput, added.value)
      ensures cmd.AddNew? && old(cursor) != [] && catalog.catalog.Missing? ==> added.None?
      ensures cmd.AddNew? && old(cursor) != [] && catalog.catalog.Present? ==>
        exists cats :: CategoryList(catalog.catalog, cats) && added == ChildChoice(catalog.catalog, cats, catInput, partInput)
    {
      var t := manager.GetTemplate();
      var tree := t.value;
      var parts := GetChildParts(tree, cursor);
      var parentPartID := ParentPartID(tree, cursor);
      var canAdd := manager.CanAdd(parentPartID);
      var c := Classify(input, |stack|, canAdd, |parts|);
      assert canAdd == CanAddAt(tree, cursor);
      cmd := c;
      quit, added := Perform(c, parts, parentPartID, catInput, partInput);
    }

    /** Carries out a classified command. */
    method Perform(cmd: Command, parts: seq<Path>, parentPartID: Option<string>, catInput: string, partInput: string)
      returns (quit: bool, added: Option<string>)
      requires Valid() && parts == ChildParts(Tree(), cursor) && parentPartID == ParentPartID(Tree(), cursor)
      requires cmd.GoUp? ==> |stack| > 0
      requires cmd.Select? ==> 0 < cmd.number <= |parts|
      modifies this, manager
      ensures Valid() && manager == old(manager) && catalog == old(catalog)
      ensures (quit <==> cmd.Quit?)
      ensures cmd.Quit? || cmd.Invalid? || cmd.AddNew? ==> cursor == old(cursor) && stack == old(stack)
      ensures !cmd.AddNew? ==> added.None?
      ensures cmd.GoUp? ==> stack == old(stack)[..|old(stack)| - 1] && cursor == old(stack)[|old(stack)| - 1]
      ensures cmd.Select? ==> stack == old(stack) + [old(cursor)] && cursor == old(cursor) + [cmd.number - 1]
      ensures added.None? ==> Tree() == old(Tree()) && manager.idCounter == old(manager.idCounter)
      ensures added.Some? ==>
        Tree() == Added(old(Tree()), old(manager.idCounter), cursor, added.value) &&
        manager.idCounter == old(manager.idCounter) + 1
      ensures added.Some? && cursor == [] ==> PickFrom(PartsOfType(catalog.catalog, "Frame"), partInput) == added
      ensures added.Some? && cursor != [] ==> ChildOffer(catalog.catalog, added.value)
      ensures cmd.AddNew? && old(cursor) == [] ==> added == PickFrom(PartsOfType(catalog.catalog, "Frame"), partInput)
      ensures cmd.AddNew? && old(cursor) != [] && added.Some? ==> ChildPick(catalog.catalog, partInput, added.value)
      ensures cmd.AddNew? && old(cursor) != [] && catalog.catalog.Missing? ==> added.None?
      ensures cmd.AddNew? && old(cursor) != [] && catalog.catalog.Present? ==>
        exists cats :: CategoryList(catalog.catalog, cats) && added == ChildChoice(catalog.catalog, cats, catInput, partInput)
    {
      quit, added := false, None;
      match cmd
      case Quit =>
        quit := true;
      case GoUp =>
        GoUpStep();
      case AddNew =>
        added := AddStep(parentPartID, catInput, partInput);
      case Select(selection) =>
        SelectStep(parts, selection);
      case Invalid =>
    }

    /** Pops the stack: the object above becomes the current one. */
    method GoUpStep()
      requires Valid() && |stack| > 0
      modifies this
      ensures Valid() && manager == old(manager) && catalog == old(catalog)
      ensures stack == old(stack)[..|old(stack)| - 1] && cursor == old(stack)[|old(stack)| - 1]
    {
      GoUpValid(Tree(), cursor);
      assert cursor[..|cursor| - 1][..|cursor| - 1] == cursor[..|cursor| - 1];
      cursor := stack[|stack| - 1];
      stack := stack[..|stack| - 1];
    }

    /** Pushes the current object and moves to the `selection`-th listed part. */
    method SelectStep(parts: seq<Path>, selection: nat)
      requires Valid() && parts == ChildParts(Tree(), cursor) && 0 < selection <= |parts|
      modifies this
      ensures Valid() && manager == old(manager) && catalog == old(catalog)
      ensures stack == old(stack) + [old(cursor)] && cursor == old(cursor) + [selection - 1]
    {
      ChildPartsExactly(Tree(), cursor, parts[selection - 1]);
      assert parts[selection - 1] == cursor + [selection - 1];
      stack := stack + [cursor];
      cursor := parts[selection - 1];
      assert cursor[..|cursor| - 1] == old(cursor);
    }

    /**
     * The add branch of a step: the chosen part, if any, is handed to the
     * manager with the current object's PartID as parent, so it lands as
     * the current object's last part; otherwise nothing changes.
     */
    method AddStep(parentPartID: Option<string>, catInput: string, partInput: string) returns (added: Option<string>)
      requires Valid() && parentPartID == ParentPartID(Tree(), cursor)
      modifies manager
      ensures Valid()
      ensures added.None? ==> Tree() == old(Tree()) && manager.idCounter == old(manager.idCounter)
      ensures added.Some? ==>
        Tree() == Added(old(Tree()), old(manager.idCounter), cursor, added.value) &&
        manager.idCounter == old(manager.idCounter) + 1
      ensures cursor == [] ==> added == PickFrom(PartsOfType(catalog.catalog, "Frame"), partInput)
      ensures added.Some? && cursor != [] ==> ChildOffer(catalog.catalog, added.value)
      ensures added.Some? && cursor != [] ==> ChildPick(catalog.catalog, partInput, added.value)
      ensures cursor != [] && catalog.catalog.Missing? ==> added.None?
      ensures cursor != [] && catalog.catalog.Present? ==>
        exists cats :: CategoryList(catalog.catalog, cats) && added == ChildChoice(catalog.catalog, cats, catInput, partInput)
    {
      added := ChooseNewPart(parentPartID.None?, catInput, partInput);
      if added.None? {
        return;
      }
      PlaceNewPart(added.value, parentPartID);
    }

    /** `AddPart` of a part carrying only `name`, below the current object. */
    method PlaceNewPart(name: string, parentPartID: Option<string>)
      requires Valid() && parentPartID == ParentPartID(Tree(), cursor)
      modifies manager
      ensures Valid()
      ensures Tree() == Added(old(Tree()), old(manager.idCounter), cursor, name)
      ensures manager.idCounter == old(manager.idCounter) + 1
    {
      AddedHere(Tree(), manager.idCounter, cursor, name);
      var id := manager.AddPart(Some(name), map[], parentPartID);
    }
  }

  /** What `AddPart` does when given the current object's PartID: the
      current object is the part found, and it stays an object of the
      grown template. */
  lemma AddedHere(t: Template, counter: nat, cursor: Path, name: string)
    requires WellFormed(t, counter) && IsObject(t, cursor)
    ensures cursor != [] ==> FindPartByID(t, ParentPartID(t, cursor).value) == Some(cursor)
    ensures IsObject(Added(t, counter, cursor, name), cursor)
    ensures var part := Node(Some(name), counter + 1, map[], []);
      match ParentPartID(t, cursor)
      case None => Added(t, counter, cursor, name) == t + [Entry(PartKey(counter + 1), part)]
      case Some(q) => Added(t, counter, cursor, name) == AppendChild(t, FindPartByID(t, q).value, part)
  {
    if cursor != [] {
      FindsOwnPart(t, counter, cursor);
      AppendChildKeeps(t, cursor, Node(Some(name), counter + 1, map[], []), cursor);
    }
  }

  /** Going up keeps the current object an object of the template. */
  lemma GoUpValid(t: Template, cursor: Path)
    requires IsObject(t, cursor) && |cursor| > 0
    ensures IsObject(t, cursor[..|cursor| - 1])
  {
    var q := cursor[..|cursor| - 1];
    if q != [] {
      assert cursor == q + [cursor[|cursor| - 1]];
      ValidPathExtend(Nodes(t), q, cursor[|cursor| - 1]);
    }
  }

  /** Below a part, only parts of non-Frame categories are ever offered. */
  lemma ChildOfferNotFrame(f: PartsFile, name: string)
    requires ChildOffer(f, name)
    ensures exists i :: (0 <= i < |f.items| && f.items[i].name == Some(name) &&
      f.items[i].partType.Some? && !EqualsIgnoreCase(f.items[i].partType.value, "Frame"))
  {
    var c :| c in TypeSet(f.items) && !EqualsIgnoreCase(c, "Frame") && name in PartsOfType(f, c);
    NamesOfTypeMembers(f.items, c, name);
    var i :| 0 <= i < |f.items| && OfType(f.items[i], c) && f.items[i].name == Some(name);
    assert EqualsIgnoreCase(f.items[i].partType.value, c);
  }

  /** At the root, only parts the catalog types as Frame are offered. */
  lemma RootOfferIsFrame(f: PartsFile, input: string, name: string)
    requires PickFrom(PartsOfType(f, "Frame"), input) == Some(name)
    ensures f.Present? && exists i :: 0 <= i < |f.items| && f.items[i].name == Some(name) && OfType(f.items[i], "Frame")
  {
    NamesOfTypeMembers(f.items, "Frame", name);
  }
}
