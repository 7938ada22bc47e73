/**
 * The template manager: the template being built and the PartID counter.
 * `CanAdd` holds the root rule (at most one frame), `AddPart` hands out the
 * next PartID and inserts the part at the root or under a parent part.
 */
module Templates {
  import opened Wrappers
  import opened Text
  import opened PartTree

  /** The root rule's notion of a frame: the lower-cased name contains
      "frame".  It looks at the name only, never at the catalog type. */
  predicate IsFrameNamed(n: Node)
    ensures IsFrameNamed(n) ==> n.name.Some? && |n.name.value| >= 5
  {
    n.name.Some? && Contains(Lower(n.name.value), "frame")
  }

  /** The name test ignores case, and a part whose name lacks the word is
      no frame to it, whatever its catalog type. */
  lemma FrameNameExamples()
    ensures IsFrameNamed(Node(Some("Exosuit-" + "Frame"), 1, map[], []))
    ensures !IsFrameNamed(Node(Some("Gun"), 2, map[], []))
  {
    NamedWithFrame("Exosuit-", "");
    assert "Exosuit-" + "Frame" + "" == "Exosuit-" + "Frame";
    ShortNameNoFrame("Gun");
  }

  /** A name shorter than the word "frame" cannot hold it. */
  lemma ShortNameNoFrame(name: string)
    requires |name| < 5
    ensures !IsFrameNamed(Node(Some(name), 0, map[], []))
  {
  }

  /** A name holding "Frame" anywhere makes a frame-named part. */
  lemma NamedWithFrame(before: string, after: string)
    ensures Contains(Lower(before + "Frame" + after), "frame")
  {
    var l := Lower(before + "Frame" + after);
    LowerAppend(before + "Frame", after);
    LowerAppend(before, "Frame");
    var f := Lower("Frame");
    assert f[0] == LowerChar('F') == 'f';
    assert f == "frame";
    assert l[|before|..|before| + 5] == "frame";
    assert OccursAt(l, "frame", |before|);
  }

  class TemplateManager {
    /** `managedTemplate`: null until CreateBlankTemplate. */
    var managedTemplate: Option<Template>
    /** `IDCounter`: the last PartID handed out. */
    var idCounter: nat

    ghost predicate Valid()
      reads this
    {
      managedTemplate.Some? ==> WellFormed(managedTemplate.value, idCounter)
    }

    constructor ()
      ensures Valid() && managedTemplate == None && idCounter == 0
    {
      managedTemplate := None;
      idCounter := 0;
    }

    /** Starts an empty template; the counter carries on where it was. */
    method CreateBlankTemplate() returns (t: Template)
      requires Valid()
      modifies this
      ensures Valid()
      ensures t == [] && managedTemplate == Some([]) && idCounter == old(idCounter)
    {
      managedTemplate := Some([]);
      EmptyWellFormed(idCounter);
      t := [];
    }

    method GetTemplate() returns (t: Option<Template>)
      ensures t == managedTemplate
    {
      t := managedTemplate;
    }

    /** The root accepts a part only while no top-level part is frame-named;
        every other layer always accepts one. */
    method CanAdd(parentPartID: Option<string>) returns (ok: bool)
      requires parentPartID.None? ==> managedTemplate.Some?
      ensures parentPartID.Some? ==> ok
      ensures parentPartID.None? ==>
        (ok <==> forall i :: 0 <= i < |managedTemplate.value| ==> !IsFrameNamed(managedTemplate.value[i].part))
    {
      if parentPartID.Some? {
        return true;
      }
      var t := managedTemplate.value;
      var frameCount := 0;
      var i := 0;
      while i < |t|
        invariant 0 <= i <= |t|
        invariant frameCount >= 0
        invariant frameCount == 0 <==> forall j :: 0 <= j < i ==> !IsFrameNamed(t[j].part)
      {
        if IsFrameNamed(t[i].part) {
          frameCount := frameCount + 1;
        }
        i := i + 1;
      }
      ok := frameCount < 1;
    }

    /**
     * Hands out the next PartID and places a new childless part named `name`:
     * at the root under key `Part_<id>` when there is no parent, or as the last
     * child of the first part whose PartID text is `parentPartID`.  When no such
     * part exists the tree is left alone, yet the counter has still advanced
     * and the new PartID is still returned.
     */
    method AddPart(name: Option<string>, props: map<string, string>, parentPartID: Option<string>) returns (id: nat)
      requires Valid() && managedTemplate.Some?
      modifies this
      ensures Valid() && managedTemplate.Some?
      ensures idCounter == old(idCounter) + 1 && id == idCounter
      ensures var part := Node(name, id, props, []);
        match parentPartID
        case None =>
          managedTemplate.value == old(managedTemplate.value) + [Entry(PartKey(id), part)]
        case Some(q) =>
          match FindPartByID(old(managedTemplate.value), q)
          case Some(p) => managedTemplate.value == AppendChild(old(managedTemplate.value), p, part)
          case None => managedTemplate == old(managedTemplate)
    {
      var t := managedTemplate.value;
      idCounter := idCounter + 1;
      var part := Node(name, idCounter, props, []);
      if parentPartID.None? {
        var key := PartKey(idCounter);
        FreshKey(t, idCounter - 1);
        managedTemplate := Some(SetKey(t, key, part));
        RootAddWellFormed(t, idCounter - 1, part);
        return idCounter;
      }
      var targetParent := FindPartByID(t, parentPartID.value);
      if targetParent.Some? {
        managedTemplate := Some(AppendChild(t, targetParent.value, part));
        ChildAddWellFormed(t, idCounter - 1, targetParent.value, part);
      }
      id := idCounter;
    }
  }

  /** From a fresh manager the first part gets PartID 1 under key `Part_1`
      and the next one PartID 2; once a frame-named part sits at the root
      the root is closed, while a part can still be added below it. */
  method AddPartScenario() returns (first: nat, second: nat, rootOpen: bool, childOpen: bool)
    ensures first == 1 && second == 2
    ensures !rootOpen && childOpen
  {
    var m := new TemplateManager();
    var t := m.CreateBlankTemplate();
    var frameNode := Node(Some("Exosuit-" + "Frame"), 1, map[], []);
    var frame := m.AddPart(Some("Exosuit-" + "Frame"), map[], None);
    assert frame == 1;
    var t1 := m.managedTemplate.value;
    assert t1 == [Entry(PartKey(1), frameNode)];
    assert t1[0].part == frameNode;
    FrameNameExamples();
    assert !(forall i :: 0 <= i < |t1| ==> !IsFrameNamed(t1[i].part));
    var canAddRoot := m.CanAdd(None);
    assert !canAddRoot;
    var canAddChild := m.CanAdd(Some(IdText(frameNode)));
    assert canAddChild;
    var gun := m.AddPart(Some("Gun"), map[], Some(IdText(frameNode)));
    first, second, rootOpen, childOpen := frame, gun, canAddRoot, canAddChild;
  }
}
