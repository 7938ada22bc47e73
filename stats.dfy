/**
 * Stats derived from a template: the weight limit set by the first
 * top-level catalog Frame, and the total weight of the parts, where a
 * Frame (by catalog type) weighs nothing itself but its children count.
 *
 * The catalog's part definitions and the per-part weight formula live
 * outside this model; they are the parameters `definition` and `weightOf`.
 */
module Stats {
  import opened Wrappers
  import opened Text
  import opened PartTree
  import opened PartCatalog

  /** `PartManager.GetPartDefinition(name)`: the definition's properties,
      each as its text, or none. */
  type Definitions = string -> Option<map<string, string>>

  /** `PartManager.GetWeightForPart(name, scale)`. */
  type WeightFormula = (string, string) -> int

  predicate IsFrameType(ty: Option<string>) {
    ty.Some? && EqualsIgnoreCase(ty.value, "Frame")
  }

  /** `int.TryParse(def["WeightLimit"]?.ToString())` on a found definition. */
  function LimitIn(def: Option<map<string, string>>): Option<int32> {
    if def.Some? && "WeightLimit" in def.value then ParseInt32(def.value["WeightLimit"]) else None
  }

  /** The limit a top-level part sets: it needs a non-empty name whose
      catalog type is Frame ignoring case and a definition with an integer
      `WeightLimit`. */
  function PartLimit(n: Node, cat: PartsFile, definition: Definitions): (r: Option<int32>)
    ensures r.Some? ==> n.name.Some? && n.name.value != "" && IsFrameType(TypeFor(cat, n.name.value))
    ensures r.Some? ==> definition(n.name.value).Some? && "WeightLimit" in definition(n.name.value).value
  {
    if n.name.Some? && n.name.value != "" && IsFrameType(TypeFor(cat, n.name.value))
    then LimitIn(definition(n.name.value))
    else None
  }

  /** The limit of the first top-level part, in order, that sets one; 0 when none does. */
  function WeightLimitOf(ns: seq<Node>, cat: PartsFile, definition: Definitions): (r: int32)
    ensures r != 0 ==> exists i :: 0 <= i < |ns| && PartLimit(ns[i], cat, definition) == Some(r)
  {
    if ns == [] then 0
    else match PartLimit(ns[0], cat, definition)
      case Some(l) => l
      case None => WeightLimitOf(ns[1..], cat, definition)
  }

  /** The part's `Scale` property text, when it has one. */
  function ScaleOf(n: Node): (r: Option<string>)
    ensures r.Some? <==> "Scale" in n.props
    ensures r.Some? ==> r.value == n.props["Scale"]
  {
    if "Scale" in n.props then Some(n.props["Scale"]) else None
  }

  /** A part weighs something itself when it has a non-empty name and
      `Scale` and its catalog type is unknown or not Frame. */
  predicate Weighs(n: Node, cat: PartsFile) {
    && n.name.Some? && n.name.value != ""
    && ScaleOf(n).Some? && ScaleOf(n).value != ""
    && !IsFrameType(TypeFor(cat, n.name.value))
  }

  function OwnWeight(n: Node, cat: PartsFile, weightOf: WeightFormula): (r: int)
    ensures r != 0 ==> n.name.Some? && n.name.value != "" && ScaleOf(n).Some? && ScaleOf(n).value != ""
    ensures r != 0 ==> !IsFrameType(TypeFor(cat, n.name.value))
  {
    if Weighs(n, cat) then weightOf(n.name.value, ScaleOf(n).value) else 0
  }

  /** `CalculatePartWeight`: the part's own weight plus that of its subtree. */
  function NodeWeight(n: Node, cat: PartsFile, weightOf: WeightFormula): (r: int)
    ensures n.children == [] ==> r == OwnWeight(n, cat, weightOf)
    decreases n, 1
  {
    OwnWeight(n, cat, weightOf) + ForestWeight(n.children, |n.children|, cat, weightOf)
  }

  /** The summed weights of the parts `ns[..k]`. */
  function ForestWeight(ns: seq<Node>, k: nat, cat: PartsFile, weightOf: WeightFormula): (w: int)
    requires k <= |ns|
    ensures k == 1 ==> w == NodeWeight(ns[0], cat, weightOf)
    decreases ns, k
  {
    if k == 0 then 0 else ForestWeight(ns, k - 1, cat, weightOf) + NodeWeight(ns[k - 1], cat, weightOf)
  }

  function TotalWeightOf(template: Option<Template>, cat: PartsFile, weightOf: WeightFormula): (w: int)
    ensures template.None? || template.value == [] ==> w == 0
    ensures template.Some? && |template.value| == 1 ==> w == NodeWeight(template.value[0].part, cat, weightOf)
  {
    if template.None? then 0
    else ForestWeight(Nodes(template.value), |template.value|, cat, weightOf)
  }

  // ---------------------------------------------------------------------------
  // The methods
  // ---------------------------------------------------------------------------

  /** `StatCalc.GetWeightLimit`: scans the top-level parts in order and
      returns the first Frame's integer `WeightLimit`; 0 for a null template
      or when no top-level part provides one. */
  method GetWeightLimit(template: Option<Template>, pm: PartManager, definition: Definitions) returns (limit: int32)
    ensures limit == (if template.None? then 0 else WeightLimitOf(Nodes(template.value), pm.catalog, definition))
  {
    if template.None? {
      return 0;
    }
    var ns := Nodes(template.value);
    var i := 0;
    while i < |ns|
      invariant 0 <= i <= |ns|
      invariant WeightLimitOf(ns, pm.catalog, definition) == WeightLimitOf(ns[i..], pm.catalog, definition)
    {
      var obj := ns[i];
      assert ns[i..][0] == obj && ns[i..][1..] == ns[i + 1..];
      if obj.name.Some? && obj.name.value != "" {
        var name := obj.name.value;
        var ty := pm.GetTypeForName(name);
        if ty.Some? && EqualsIgnoreCase(ty.value, "Frame") {
          var def := definition(name);
          if def.Some? {
            var wl := if "WeightLimit" in def.value then Some(def.value["WeightLimit"]) else None;
            if wl.Some? {
              var parsed := ParseInt32(wl.value);
              if parsed.Some? {
                assert PartLimit(obj, pm.catalog, definition) == parsed;
                return parsed.value;
              }
            }
          }
        }
      }
      assert PartLimit(obj, pm.catalog, definition).None?;
      i := i + 1;
    }
    return 0;
  }

  /** `StatCalc.CalculatePartWeight`, recursing into the children in order. */
  method CalculatePartWeight(part: Node, pm: PartManager, weightOf: WeightFormula) returns (weight: int)
    ensures weight == NodeWeight(part, pm.catalog, weightOf)
    decreases part
  {
    weight := 0;
    var partName := part.name;
    var scale := ScaleOf(part);
    if partName.Some? && partName.value != "" && scale.Some? && scale.value != "" {
      var partType := pm.GetTypeForName(partName.value);
      if partType.None? || !EqualsIgnoreCase(partType.value, "Frame") {
        weight := weightOf(partName.value, scale.value);
      }
    }
    assert weight == OwnWeight(part, pm.catalog, weightOf);
    var children := part.children;
    var i := 0;
    while i < |children|
      invariant 0 <= i <= |children|
      invariant weight == OwnWeight(part, pm.catalog, weightOf) + ForestWeight(children, i, pm.catalog, weightOf)
    {
      var w := CalculatePartWeight(children[i], pm, weightOf);
      weight := weight + w;
      i := i + 1;
    }
  }

  /** `StatCalc.CalculateTotalWeight`: the sum over the top-level parts. */
  method CalculateTotalWeight(template: Option<Template>, pm: PartManager, weightOf: WeightFormula) returns (total: int)
    ensures total == TotalWeightOf(template, pm.catalog, weightOf)
  {
    if template.None? {
      return 0;
    }
    var ns := Nodes(template.value);
    total := 0;
    var i := 0;
    while i < |ns|
      invariant 0 <= i <= |ns|
      invariant total == ForestWeight(ns, i, pm.catalog, weightOf)
    {
      var w := CalculatePartWeight(ns[i], pm, weightOf);
      total := total + w;
      i := i + 1;
    }
  }

  // ---------------------------------------------------------------------------
  // Properties of the weight limit
  // ---------------------------------------------------------------------------

  /** The limit is that of the first part setting one, and 0 when none does. */
  lemma {:induction false} WeightLimitFirst(ns: seq<Node>, cat: PartsFile, definition: Definitions)
    ensures (forall i :: 0 <= i < |ns| ==> PartLimit(ns[i], cat, definition).None?) ==>
      WeightLimitOf(ns, cat, definition) == 0
    ensures forall i :: (0 <= i < |ns| && PartLimit(ns[i], cat, definition).Some? &&
      (forall j :: 0 <= j < i ==> PartLimit(ns[j], cat, definition).None?)) ==>
      WeightLimitOf(ns, cat, definition) == PartLimit(ns[i], cat, definition).value
  {
    if ns != [] {
      WeightLimitFirst(ns[1..], cat, definition);
      forall i | 0 <= i < |ns| && PartLimit(ns[i], cat, definition).Some? &&
        (forall j :: 0 <= j < i ==> PartLimit(ns[j], cat, definition).None?)
        ensures WeightLimitOf(ns, cat, definition) == PartLimit(ns[i], cat, definition).value
      {
        if i > 0 {
          assert ns[1..][i - 1] == ns[i];
          assert forall j :: 0 <= j < i - 1 ==> ns[1..][j] == ns[j + 1];
        }
      }
    }
  }

  /** Only the names of the top-level parts matter: parts nested below the
      root, Frames or not, never change the limit. */
  lemma {:induction false} WeightLimitTopLevelOnly(ns: seq<Node>, ms: seq<Node>, cat: PartsFile, definition: Definitions)
    requires |ns| == |ms| && forall i :: 0 <= i < |ns| ==> ns[i].name == ms[i].name
    ensures WeightLimitOf(ns, cat, definition) == WeightLimitOf(ms, cat, definition)
  {
    if ns != [] {
      assert PartLimit(ns[0], cat, definition) == PartLimit(ms[0], cat, definition);
      WeightLimitTopLevelOnly(ns[1..], ms[1..], cat, definition);
    }
  }

  // ---------------------------------------------------------------------------
  // Properties of the total weight
  // ---------------------------------------------------------------------------

  /** The parts of a forest in depth-first order: each part, then its subtree. */
  function Preorder(ns: seq<Node>, k: nat): seq<Node>
    requires k <= |ns|
    decreases ns, k
  {
    if k == 0 then [] else Preorder(ns, k - 1) + NodePreorder(ns[k - 1])
  }

  function NodePreorder(n: Node): seq<Node>
    decreases n, 1
  {
    [n] + Preorder(n.children, |n.children|)
  }

  function SumOwn(s: seq<Node>, cat: PartsFile, weightOf: WeightFormula): int {
    if s == [] then 0 else SumOwn(s[..|s| - 1], cat, weightOf) + OwnWeight(s[|s| - 1], cat, weightOf)
  }

  lemma {:induction false} SumOwnAppend(a: seq<Node>, b: seq<Node>, cat: PartsFile, weightOf: WeightFormula)
    ensures SumOwn(a + b, cat, weightOf) == SumOwn(a, cat, weightOf) + SumOwn(b, cat, weightOf)
    decreases |b|
  {
    if b == [] {
      assert a + b == a;
    } else {
      assert (a + b)[..|a + b| - 1] == a + b[..|b| - 1];
      assert (a + b)[|a + b| - 1] == b[|b| - 1];
      SumOwnAppend(a, b[..|b| - 1], cat, weightOf);
    }
  }

  /** The weight of a subtree is the sum of the own weights of all its
      parts, at every depth: the recursion drops no part and counts none twice. */
  lemma {:induction false} NodeWeightIsSum(n: Node, cat: PartsFile, weightOf: WeightFormula)
    ensures NodeWeight(n, cat, weightOf) == SumOwn(NodePreorder(n), cat, weightOf)
    decreases n, 1
  {
    ForestWeightIsSum(n.children, |n.children|, cat, weightOf);
    SumOwnAppend([n], Preorder(n.children, |n.children|), cat, weightOf);
    assert SumOwn([n], cat, weightOf) == OwnWeight(n, cat, weightOf) by {
      assert [n][..0] == [];
    }
  }

  lemma {:induction false} ForestWeightIsSum(ns: seq<Node>, k: nat, cat: PartsFile, weightOf: WeightFormula)
    requires k <= |ns|
    ensures ForestWeight(ns, k, cat, weightOf) == SumOwn(Preorder(ns, k), cat, weightOf)
    decreases ns, k
  {
    if k > 0 {
      ForestWeightIsSum(ns, k - 1, cat, weightOf);
      NodeWeightIsSum(ns[k - 1], cat, weightOf);
      SumOwnAppend(Preorder(ns, k - 1), NodePreorder(ns[k - 1]), cat, weightOf);
    }
  }

  /** The total weight of a template sums the own weights of its parts in
      depth-first order, and is 0 for a null template. */
  lemma TotalWeightIsSum(template: Option<Template>, cat: PartsFile, weightOf: WeightFormula)
    ensures template.None? ==> TotalWeightOf(template, cat, weightOf) == 0
    ensures template.Some? ==>
      TotalWeightOf(template, cat, weightOf) == SumOwn(Preorder(Nodes(template.value), |template.value|), cat, weightOf)
  {
    if template.Some? {
      ForestWeightIsSum(Nodes(template.value), |template.value|, cat, weightOf);
    }
  }

  /** A catalog Frame adds only the weight of what hangs below it. */
  lemma FrameWeighsItsChildren(n: Node, cat: PartsFile, weightOf: WeightFormula)
    requires n.name.Some? && IsFrameType(TypeFor(cat, n.name.value))
    ensures NodeWeight(n, cat, weightOf) == ForestWeight(n.children, |n.children|, cat, weightOf)
  {
  }

  /** Parts lacking a name or a `Scale` weigh nothing themselves. */
  lemma UnscaledWeighsItsChildren(n: Node, cat: PartsFile, weightOf: WeightFormula)
    requires n.name.None? || ScaleOf(n).None? || ScaleOf(n) == Some("")
    ensures NodeWeight(n, cat, weightOf) == ForestWeight(n.children, |n.children|, cat, weightOf)
  {
  }

  /** A template of nothing but childless Frames, and an empty one, weigh 0. */
  lemma {:induction false} ChildlessFramesWeighNothing(ns: seq<Node>, k: nat, cat: PartsFile, weightOf: WeightFormula)
    requires k <= |ns|
    requires forall i :: 0 <= i < k ==> ns[i].children == [] && ns[i].name.Some? && IsFrameType(TypeFor(cat, ns[i].name.value))
    ensures ForestWeight(ns, k, cat, weightOf) == 0
  {
    forall i | 0 <= i < k
      ensures NodeWeight(ns[i], cat, weightOf) == 0
    {
      ChildlessFrameWeighsNothing(ns[i], cat, weightOf);
    }
    WeightlessForest(ns, k, cat, weightOf);
  }

  lemma ChildlessFrameWeighsNothing(n: Node, cat: PartsFile, weightOf: WeightFormula)
    requires n.children == [] && n.name.Some? && IsFrameType(TypeFor(cat, n.name.value))
    ensures NodeWeight(n, cat, weightOf) == 0
  {
    assert !Weighs(n, cat);
    assert ForestWeight(n.children, 0, cat, weightOf) == 0;
  }

  /** Parts that each weigh nothing weigh nothing together. */
  lemma {:induction false} WeightlessForest(ns: seq<Node>, k: nat, cat: PartsFile, weightOf: WeightFormula)
    requires k <= |ns| && forall i :: 0 <= i < k ==> NodeWeight(ns[i], cat, weightOf) == 0
    ensures ForestWeight(ns, k, cat, weightOf) == 0
  {
    if k > 0 {
      WeightlessForest(ns, k - 1, cat, weightOf);
    }
  }
}
