/**
 * The part tree of a mech template, as a typed value.
 *
 * The template is a JSON object whose properties `Part_<id>` hold the
 * top-level parts, in insertion order; every part object carries a `name`,
 * its `PartID`, possibly further scalar properties, and an ordered
 * `children` array of parts.  A part is addressed by a path: the index of
 * its top-level entry, then child indices downwards.
 */
module PartTree {
  import opened Wrappers
  import opened Text

  /** A placed part. `props` holds its scalar properties other than
      `name`, `PartID` and `children` (for instance `Scale`). */
  datatype Node = Node(name: Option<string>, partID: nat, props: map<string, string>, children: seq<Node>)

  /** One property of the root object: key `Part_<id>` and the part. */
  datatype Entry = Entry(key: string, part: Node)

  type Template = seq<Entry>

  type Path = seq<nat>

  /** The top-level parts, in property order. */
  function Nodes(t: Template): (ns: seq<Node>)
    ensures |ns| == |t| && forall i :: 0 <= i < |t| ==> ns[i] == t[i].part
  {
    seq(|t|, i requires 0 <= i < |t| => t[i].part)
  }

  /** `part["PartID"]?.ToString()` */
  function IdText(n: Node): string {
    NatToString(n.partID)
  }

  /** The root key a part is stored under: `Part_{id}`. */
  function PartKey(id: nat): string {
    "Part_" + NatToString(id)
  }

  lemma PartKeyInjective(a: nat, b: nat)
    ensures PartKey(a) == PartKey(b) ==> a == b
  {
    if PartKey(a) == PartKey(b) {
      assert NatToString(a) == PartKey(a)[5..];
      assert NatToString(b) == PartKey(b)[5..];
      NatToStringInjective(a, b);
    }
  }

  // ---------------------------------------------------------------------------
  // Paths
  // ---------------------------------------------------------------------------

  /** `p` leads from `n` down through children to some part. */
  predicate ValidIn(n: Node, p: Path)
    decreases |p|
  {
    |p| == 0 || (p[0] < |n.children| && ValidIn(n.children[p[0]], p[1..]))
  }

  function NodeAt(n: Node, p: Path): Node
    requires ValidIn(n, p)
    decreases |p|
  {
    if |p| == 0 then n else NodeAt(n.children[p[0]], p[1..])
  }

  /** `p` addresses a part in the forest `ns`; its first index picks the tree. */
  predicate ValidPath(ns: seq<Node>, p: Path) {
    |p| > 0 && p[0] < |ns| && ValidIn(ns[p[0]], p[1..])
  }

  function At(ns: seq<Node>, p: Path): Node
    requires ValidPath(ns, p)
  {
    NodeAt(ns[p[0]], p[1..])
  }

  /** One more step down: `p + [i]` leads to the `i`-th child of the part at `p`. */
  lemma {:induction false} ValidInExtend(n: Node, p: Path, i: nat)
    ensures ValidIn(n, p + [i]) <==> (ValidIn(n, p) && i < |NodeAt(n, p).children|)
    ensures ValidIn(n, p + [i]) ==> NodeAt(n, p + [i]) == NodeAt(n, p).children[i]
    decreases |p|
  {
    if |p| == 0 {
      assert p + [i] == [i] && [i][1..] == [];
    } else {
      assert (p + [i])[0] == p[0] && (p + [i])[1..] == p[1..] + [i];
      if p[0] < |n.children| {
        ValidInExtend(n.children[p[0]], p[1..], i);
      }
    }
  }

  lemma ValidPathExtend(ns: seq<Node>, p: Path, i: nat)
    requires |p| > 0
    ensures ValidPath(ns, p + [i]) <==> (ValidPath(ns, p) && i < |At(ns, p).children|)
    ensures ValidPath(ns, p + [i]) ==> At(ns, p + [i]) == At(ns, p).children[i]
  {
    assert (p + [i])[0] == p[0] && (p + [i])[1..] == p[1..] + [i];
    if p[0] < |ns| {
      ValidInExtend(ns[p[0]], p[1..], i);
    }
  }

  predicate IsPrefix(a: Path, b: Path) {
    |a| <= |b| && b[..|a|] == a
  }

  /** Depth-first visiting order: `a` is visited before `b` (an ancestor
      before its descendants, an earlier sibling's subtree before a later one). */
  predicate Before(a: Path, b: Path)
    decreases |b|
  {
    |b| > 0 && (|a| == 0 || a[0] < b[0] || (a[0] == b[0] && Before(a[1..], b[1..])))
  }

  // ---------------------------------------------------------------------------
  // FindPartByID: depth-first search for the first part with a given PartID text
  // ---------------------------------------------------------------------------

  /** Search of one part object: the object itself, then its children. */
  function FindInNode(n: Node, q: string): Option<Path>
    decreases n, 0
  {
    if IdText(n) == q then Some([])
    else FindIn(n.children, 0, q)
  }

  /** Search of the items `ns[i..]` of an array, in order. */
  function FindIn(ns: seq<Node>, i: nat, q: string): Option<Path>
    decreases ns, |ns| - i
  {
    if i >= |ns| then None
    else match FindInNode(ns[i], q)
      case Some(r) => Some([i] + r)
      case None => FindIn(ns, i + 1, q)
  }


  /** A path visited before `[i] + r` that does not start left of `i` lies
      in the same tree, at or before `r` there. */
  lemma BeforeUnder(i: nat, r: Path, s: Path)
    requires |s| > 0 && s[0] >= i && Before(s, [i] + r)
    ensures s[0] == i && (|s[1..]| == 0 || Before(s[1..], r))
  {
    assert ([i] + r)[0] == i && ([i] + r)[1..] == r;
  }

  lemma {:induction false} FindInNodeCorrect(n: Node, q: string)
    ensures FindInNode(n, q).Some? ==>
      var r := FindInNode(n, q).value;
      ValidIn(n, r) && IdText(NodeAt(n, r)) == q &&
      forall s :: ValidIn(n, s) && Before(s, r) ==> IdText(NodeAt(n, s)) != q
    ensures FindInNode(n, q).None? ==>
      forall s :: ValidIn(n, s) ==> IdText(NodeAt(n, s)) != q
    decreases n, 0
  {
    if IdText(n) != q {
      FindInCorrect(n.children, 0, q);
      forall s | ValidIn(n, s) && |s| > 0
        ensures ValidPath(n.children, s) && NodeAt(n, s) == At(n.children, s)
      {
      }
    }
  }

  lemma {:induction false} FindInCorrect(ns: seq<Node>, i: nat, q: string)
    ensures FindIn(ns, i, q).Some? ==>
      var r := FindIn(ns, i, q).value;
      ValidPath(ns, r) && r[0] >= i && IdText(At(ns, r)) == q &&
      forall s :: ValidPath(ns, s) && s[0] >= i && Before(s, r) ==> IdText(At(ns, s)) != q
    ensures FindIn(ns, i, q).None? ==>
      forall s :: ValidPath(ns, s) && s[0] >= i ==> IdText(At(ns, s)) != q
    decreases ns, |ns| - i
  {
    if i < |ns| {
      FindInNodeCorrect(ns[i], q);
      match FindInNode(ns[i], q)
      case Some(r) =>
        var p := [i] + r;
        assert p[0] == i && p[1..] == r;
        forall s | ValidPath(ns, s) && s[0] >= i && Before(s, p)
          ensures IdText(At(ns, s)) != q
        {
          BeforeUnder(i, r, s);
        }
      case None =>
        FindInCorrect(ns, i + 1, q);
    }
  }

  /**
   * `FindPartByID(managedTemplate, q)`: the root object carries no PartID,
   * so the search starts with its properties, in order.  The result is a part
   * whose PartID text is `q` with no such part visited before it, and there is
   * no result exactly when no part has that PartID text.
   */
  function FindPartByID(t: Template, q: string): (r: Option<Path>)
    ensures r.Some? ==>
      ValidPath(Nodes(t), r.value) && IdText(At(Nodes(t), r.value)) == q &&
      forall s :: ValidPath(Nodes(t), s) && Before(s, r.value) ==> IdText(At(Nodes(t), s)) != q
    ensures r.None? <==> forall s :: ValidPath(Nodes(t), s) ==> IdText(At(Nodes(t), s)) != q
  {
    FindInCorrect(Nodes(t), 0, q);
    FindIn(Nodes(t), 0, q)
  }

  // ---------------------------------------------------------------------------
  // Appending a child: `targetParent["children"].AsArray().Add(part)`
  // ---------------------------------------------------------------------------

  function AppendIn(n: Node, p: Path, c: Node): (r: Node)
    requires ValidIn(n, p)
    ensures r.name == n.name && r.partID == n.partID && r.props == n.props
    decreases |p|
  {
    if |p| == 0 then n.(children := n.children + [c])
    else n.(children := n.children[p[0] := AppendIn(n.children[p[0]], p[1..], c)])
  }

  /** The template after appending `c` to the children of the part at `p`. */
  function AppendChild(t: Template, p: Path, c: Node): (r: Template)
    requires ValidPath(Nodes(t), p)
    ensures |r| == |t| && forall i :: 0 <= i < |t| ==> r[i].key == t[i].key && (i != p[0] ==> r[i] == t[i])
  {
    t[p[0] := t[p[0]].(part := AppendIn(t[p[0]].part, p[1..], c))]
  }

  /** Every part keeps its place, PartID, name and properties; a part that is
      not an ancestor-or-self of the parent is entirely unchanged. */
  lemma {:induction false} AppendInKeeps(n: Node, p: Path, c: Node, s: Path)
    requires ValidIn(n, p) && ValidIn(n, s)
    ensures ValidIn(AppendIn(n, p, c), s)
    ensures var m, m' := NodeAt(n, s), NodeAt(AppendIn(n, p, c), s);
      m'.name == m.name && m'.partID == m.partID && m'.props == m.props
    ensures !IsPrefix(s, p) ==> NodeAt(AppendIn(n, p, c), s) == NodeAt(n, s)
    decreases |s|
  {
    var n' := AppendIn(n, p, c);
    if |s| > 0 {
      if |p| > 0 && s[0] == p[0] {
        AppendInKeeps(n.children[p[0]], p[1..], c, s[1..]);
        if IsPrefix(s[1..], p[1..]) {
          assert p[..|s|] == [p[0]] + p[1..][..|s| - 1];
          assert s == [s[0]] + s[1..];
        }
      } else {
        assert n'.children[s[0]] == n.children[s[0]];
      }
    }
  }

  /** The parent gains exactly `c`, as its last child. */
  lemma {:induction false} AppendInAt(n: Node, p: Path, c: Node)
    requires ValidIn(n, p)
    ensures ValidIn(AppendIn(n, p, c), p)
    ensures NodeAt(AppendIn(n, p, c), p) == NodeAt(n, p).(children := NodeAt(n, p).children + [c])
    ensures ValidIn(AppendIn(n, p, c), p + [|NodeAt(n, p).children|])
    ensures NodeAt(AppendIn(n, p, c), p + [|NodeAt(n, p).children|]) == c
    decreases |p|
  {
    var k := |NodeAt(n, p).children|;
    if |p| > 0 {
      AppendInAt(n.children[p[0]], p[1..], c);
      assert (p + [k])[0] == p[0] && (p + [k])[1..] == p[1..] + [k];
    } else {
      assert p + [k] == [k];
    }
  }

  /** A childless `c` is the only part the append adds. */
  lemma {:induction false} AppendInOnly(n: Node, p: Path, c: Node, s: Path)
    requires ValidIn(n, p) && c.children == []
    requires ValidIn(AppendIn(n, p, c), s)
    ensures ValidIn(n, s) || s == p + [|NodeAt(n, p).children|]
    decreases |s|
  {
    var n' := AppendIn(n, p, c);
    if |s| > 0 {
      if |p| == 0 {
        if s[0] == |n.children| {
          assert n'.children[s[0]] == c;
          assert s == [s[0]];
        } else {
          assert n'.children[s[0]] == n.children[s[0]];
        }
      } else if s[0] == p[0] {
        AppendInOnly(n.children[p[0]], p[1..], c, s[1..]);
        assert s == [s[0]] + s[1..];
      } else {
        assert n'.children[s[0]] == n.children[s[0]];
      }
    }
  }

  lemma AppendChildNodes(t: Template, p: Path, c: Node)
    requires ValidPath(Nodes(t), p)
    ensures Nodes(AppendChild(t, p, c)) == Nodes(t)[p[0] := AppendIn(t[p[0]].part, p[1..], c)]
  {
  }

  /** Forest form of AppendInKeeps, AppendInAt and AppendInOnly: appending
      under the part at `p` changes nothing but that part's children. */
  lemma AppendChildEffect(t: Template, p: Path, c: Node)
    requires ValidPath(Nodes(t), p)
    ensures var t' := AppendChild(t, p, c);
      && |t'| == |t|
      && (forall i :: 0 <= i < |t| ==> t'[i].key == t[i].key)
      && (forall i :: 0 <= i < |t| && i != p[0] ==> t'[i] == t[i])
      && ValidPath(Nodes(t'), p)
      && At(Nodes(t'), p) == At(Nodes(t), p).(children := At(Nodes(t), p).children + [c])
      && ValidPath(Nodes(t'), p + [|At(Nodes(t), p).children|])
      && At(Nodes(t'), p + [|At(Nodes(t), p).children|]) == c
  {
    var k := |At(Nodes(t), p).children|;
    AppendChildNodes(t, p, c);
    AppendInAt(t[p[0]].part, p[1..], c);
    assert (p + [k])[0] == p[0] && (p + [k])[1..] == p[1..] + [k];
  }

  lemma AppendChildKeeps(t: Template, p: Path, c: Node, s: Path)
    requires ValidPath(Nodes(t), p) && ValidPath(Nodes(t), s)
    ensures var ns' := Nodes(AppendChild(t, p, c));
      && ValidPath(ns', s)
      && At(ns', s).partID == At(Nodes(t), s).partID
      && At(ns', s).name == At(Nodes(t), s).name
      && (!IsPrefix(s, p) ==> At(ns', s) == At(Nodes(t), s))
  {
    AppendChildNodes(t, p, c);
    if s[0] == p[0] {
      AppendInKeeps(t[p[0]].part, p[1..], c, s[1..]);
      if IsPrefix(s[1..], p[1..]) {
        assert p[..|s|] == [p[0]] + p[1..][..|s| - 1];
        assert s == [s[0]] + s[1..];
      }
    }
  }

  lemma AppendChildOnly(t: Template, p: Path, c: Node, s: Path)
    requires ValidPath(Nodes(t), p) && c.children == []
    requires ValidPath(Nodes(AppendChild(t, p, c)), s)
    ensures ValidPath(Nodes(t), s) || s == p + [|At(Nodes(t), p).children|]
  {
    AppendChildNodes(t, p, c);
    if s[0] == p[0] {
      AppendInOnly(t[p[0]].part, p[1..], c, s[1..]);
      assert s == [s[0]] + s[1..];
    }
  }

  // ---------------------------------------------------------------------------
  // Root insertion: `managedTemplate[key] = part`
  // ---------------------------------------------------------------------------

  /** Index of the root property named `k`, if there is one. */
  function KeyIndex(t: Template, k: string): (r: Option<nat>)
    ensures r.Some? ==> r.value < |t| && t[r.value].key == k
    ensures r.None? ==> forall i :: 0 <= i < |t| ==> t[i].key != k
  {
    if t == [] then None
    else if t[|t| - 1].key == k then Some(|t| - 1)
    else KeyIndex(t[..|t| - 1], k)
  }

  /** JSON object indexer assignment: an existing property keeps its place
      and gets the new value; a new property goes last. */
  function SetKey(t: Template, k: string, n: Node): (r: Template)
    ensures (forall i :: 0 <= i < |t| ==> t[i].key != k) ==> r == t + [Entry(k, n)]
  {
    match KeyIndex(t, k)
    case Some(i) => t[i := Entry(k, n)]
    case None => t + [Entry(k, n)]
  }

  lemma RootAppendPaths(t: Template, e: Entry, s: Path)
    requires e.part.children == []
    ensures Nodes(t + [e]) == Nodes(t) + [e.part]
    ensures ValidPath(Nodes(t), s) ==> ValidPath(Nodes(t + [e]), s) && At(Nodes(t + [e]), s) == At(Nodes(t), s)
    ensures ValidPath(Nodes(t + [e]), s) ==> ValidPath(Nodes(t), s) || s == [|t|]
    ensures ValidPath(Nodes(t + [e]), [|t|]) && At(Nodes(t + [e]), [|t|]) == e.part
  {
    assert Nodes(t + [e]) == Nodes(t) + [e.part];
    if |s| > 0 && s[0] == |t| && ValidPath(Nodes(t + [e]), s) {
      assert s == [s[0]];
    }
  }

  // ---------------------------------------------------------------------------
  // The invariant every template built by AddPart keeps
  // ---------------------------------------------------------------------------

  /** Each root key is `Part_<PartID>` of the part it holds. */
  ghost predicate KeysMatchIds(t: Template) {
    forall i :: 0 <= i < |t| ==> t[i].key == PartKey(t[i].part.partID)
  }

  /** Every PartID in the tree was handed out by a counter now at `counter`. */
  ghost predicate IdsIssued(t: Template, counter: nat) {
    forall p :: ValidPath(Nodes(t), p) ==> 1 <= At(Nodes(t), p).partID <= counter
  }

  /** No two parts anywhere in the tree share a PartID. */
  ghost predicate IdsUnique(t: Template) {
    forall p, q :: ValidPath(Nodes(t), p) && ValidPath(Nodes(t), q) && At(Nodes(t), p).partID == At(Nodes(t), q).partID ==> p == q
  }

  ghost predicate WellFormed(t: Template, counter: nat) {
    KeysMatchIds(t) && IdsIssued(t, counter) && IdsUnique(t)
  }

  lemma EmptyWellFormed(counter: nat)
    ensures WellFormed([], counter)
  {
  }

  /** The next root key is not yet taken, so the indexer appends. */
  lemma FreshKey(t: Template, counter: nat)
    requires WellFormed(t, counter)
    ensures forall i :: 0 <= i < |t| ==> t[i].key != PartKey(counter + 1)
  {
    forall i | 0 <= i < |t|
      ensures t[i].key != PartKey(counter + 1)
    {
      assert ValidPath(Nodes(t), [i]);
      PartKeyInjective(t[i].part.partID, counter + 1);
    }
  }

  lemma RootAddWellFormed(t: Template, counter: nat, c: Node)
    requires WellFormed(t, counter)
    requires c.partID == counter + 1 && c.children == []
    ensures WellFormed(t + [Entry(PartKey(c.partID), c)], counter + 1)
  {
    var e := Entry(PartKey(c.partID), c);
    var t' := t + [e];
    forall s | ValidPath(Nodes(t'), s)
      ensures 1 <= At(Nodes(t'), s).partID <= counter + 1
    {
      RootAppendPaths(t, e, s);
    }
    forall s1, s2 | ValidPath(Nodes(t'), s1) && ValidPath(Nodes(t'), s2) && At(Nodes(t'), s1).partID == At(Nodes(t'), s2).partID
      ensures s1 == s2
    {
      RootAppendPaths(t, e, s1);
      RootAppendPaths(t, e, s2);
    }
  }

  lemma ChildAddWellFormed(t: Template, counter: nat, p: Path, c: Node)
    requires WellFormed(t, counter) && ValidPath(Nodes(t), p)
    requires c.partID == counter + 1 && c.children == []
    ensures WellFormed(AppendChild(t, p, c), counter + 1)
  {
    var t' := AppendChild(t, p, c);
    var k := |At(Nodes(t), p).children|;
    AppendChildEffect(t, p, c);
    forall i | 0 <= i < |t'|
      ensures t'[i].key == PartKey(t'[i].part.partID)
    {
      assert ValidPath(Nodes(t), [i]);
      AppendChildKeeps(t, p, c, [i]);
    }
    forall s | ValidPath(Nodes(t'), s)
      ensures 1 <= At(Nodes(t'), s).partID <= counter + 1
    {
      AppendChildOnly(t, p, c, s);
      if ValidPath(Nodes(t), s) {
        AppendChildKeeps(t, p, c, s);
      }
    }
    forall s1, s2 | ValidPath(Nodes(t'), s1) && ValidPath(Nodes(t'), s2) && At(Nodes(t'), s1).partID == At(Nodes(t'), s2).partID
      ensures s1 == s2
    {
      AppendChildOnly(t, p, c, s1);
      AppendChildOnly(t, p, c, s2);
      if ValidPath(Nodes(t), s1) {
        AppendChildKeeps(t, p, c, s1);
      }
      if ValidPath(Nodes(t), s2) {
        AppendChildKeeps(t, p, c, s2);
      }
    }
  }

  /** With unique PartIDs, searching for a part's own PartID finds that part. */
  lemma FindsOwnPart(t: Template, counter: nat, p: Path)
    requires WellFormed(t, counter) && ValidPath(Nodes(t), p)
    ensures FindPartByID(t, IdText(At(Nodes(t), p))) == Some(p)
  {
    var q := IdText(At(Nodes(t), p));
    var r := FindPartByID(t, q).value;
    NatToStringInjective(At(Nodes(t), r).partID, At(Nodes(t), p).partID);
  }
}
