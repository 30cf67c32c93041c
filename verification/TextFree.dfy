/**
 The static test that lets string extraction skip a schema branch. Schemas may
 refer to their own nodes in cycles, so the search gives up, conservatively, at
 a fixed depth.
 */
module TextFree {
  import opened Wire
  import opened Schema

  const MAX_DEPTH: nat := 128
  const LOCALIZED := "localized"

  /** The node tree of one record signature, if the schema package has one. */
  function Lookup(root: Option<SchemaNode>, path: string): Option<SchemaNode> {
    match root
    case None => None
    case Some(n) => FirstNode(n, path)
  }

  predicate IsTranslatable(n: SchemaNode) {
    n.kind.Primitive? && n.kind.primitive.StringPrimitive?
    && (n.kind.primitive.localized || n.kind.primitive.encoding == LOCALIZED)
  }

  predicate CanContainStrings(root: Option<SchemaNode>, n: SchemaNode, depth: nat)
    decreases MAX_DEPTH + 1 - depth
  {
    if depth > MAX_DEPTH then true
    else
      match n.kind
      case Primitive(_) => IsTranslatable(n)
      case Custom => true
      case Reference(target) =>
        var found := Lookup(root, target);
        found.None? || CanContainStrings(root, found.value, depth + 1)
      case _ => exists c :: c in Children(n) && CanContainStrings(root, c, depth + 1)
  }

  // --------------------------------------------------------------------------
  // Paths through child and reference edges
  // --------------------------------------------------------------------------

  ghost predicate Edge(root: Option<SchemaNode>, a: SchemaNode, b: SchemaNode) {
    b in Children(a) || (a.kind.Reference? && Lookup(root, a.kind.target) == Some(b))
  }

  ghost predicate IsPath(root: Option<SchemaNode>, p: seq<SchemaNode>) {
    p != [] && forall i :: 0 <= i < |p| - 1 ==> Edge(root, p[i], p[i + 1])
  }

  /** A node whose values may hold text: a translatable string, a custom decoder, a dangling reference. */
  predicate MayHoldText(root: Option<SchemaNode>, n: SchemaNode) {
    IsTranslatable(n) || n.kind.Custom? || (n.kind.Reference? && Lookup(root, n.kind.target).None?)
  }

  /** No path from `n` has more than `edges` edges or ends in a node that may hold text. */
  ghost predicate AllPathsClean(root: Option<SchemaNode>, n: SchemaNode, edges: int) {
    forall p :: IsPath(root, p) && p[0] == n ==> |p| - 1 <= edges && !MayHoldText(root, p[|p| - 1])
  }

  /**
   The answer is "no strings" exactly when every path from the node, of
   whatever length, has at most as many edges as the remaining depth and meets
   nothing that may hold text.
   */
  lemma {:induction false} TextFreeExactly(root: Option<SchemaNode>, n: SchemaNode, depth: nat)
    ensures !CanContainStrings(root, n, depth) <==> AllPathsClean(root, n, MAX_DEPTH - depth)
    decreases MAX_DEPTH + 1 - depth
  {
    hide Children, Lookup, IsTranslatable, CanContainStrings;
    assert IsPath(root, [n]);
    if depth > MAX_DEPTH {
      TooDeep(root, n, depth);
    } else if CanContainStrings(root, n, depth) {
      if !MayHoldText(root, n) {
        var c := NextWithText(root, n, depth);
        TextFreeExactly(root, c, depth + 1);
        var p :| IsPath(root, p) && p[0] == c && !(|p| - 1 <= MAX_DEPTH - (depth + 1) && !MayHoldText(root, p[|p| - 1]));
        PathCons(root, n, p);
        assert ([n] + p)[|[n] + p| - 1] == p[|p| - 1];
      }
    } else {
      NoTextHere(root, n, depth);
      forall p | IsPath(root, p) && p[0] == n
        ensures |p| - 1 <= MAX_DEPTH - depth && !MayHoldText(root, p[|p| - 1])
      {
        if |p| > 1 {
          PathTail(root, p);
          NextTextFree(root, n, p[1], depth);
          TextFreeExactly(root, p[1], depth + 1);
          assert p[1..][|p[1..]| - 1] == p[|p| - 1];
        }
      }
    }
  }

  lemma TooDeep(root: Option<SchemaNode>, n: SchemaNode, depth: nat)
    requires depth > MAX_DEPTH
    ensures CanContainStrings(root, n, depth)
  {
  }

  lemma PathCons(root: Option<SchemaNode>, n: SchemaNode, p: seq<SchemaNode>)
    requires IsPath(root, p) && Edge(root, n, p[0])
    ensures IsPath(root, [n] + p)
  {
    hide Edge;
    var q := [n] + p;
    forall i | 0 <= i < |q| - 1
      ensures Edge(root, q[i], q[i + 1])
    {
      if i > 0 {
        assert Edge(root, p[i - 1], p[i]);
      }
    }
  }

  lemma PathTail(root: Option<SchemaNode>, p: seq<SchemaNode>)
    requires IsPath(root, p) && |p| > 1
    ensures IsPath(root, p[1..]) && p[1..][0] == p[1] && Edge(root, p[0], p[1])
  {
    hide Edge;
    var q := p[1..];
    forall i | 0 <= i < |q| - 1
      ensures Edge(root, q[i], q[i + 1])
    {
      assert Edge(root, p[i + 1], p[i + 2]);
    }
  }

  lemma NextWithText(root: Option<SchemaNode>, n: SchemaNode, depth: nat) returns (c: SchemaNode)
    requires depth <= MAX_DEPTH && CanContainStrings(root, n, depth) && !MayHoldText(root, n)
    ensures Edge(root, n, c) && CanContainStrings(root, c, depth + 1)
  {
    hide Lookup, IsTranslatable;
    if n.kind.Reference? {
      c := Lookup(root, n.kind.target).value;
    } else {
      c :| c in Children(n) && CanContainStrings(root, c, depth + 1);
    }
  }

  lemma NoTextHere(root: Option<SchemaNode>, n: SchemaNode, depth: nat)
    requires depth <= MAX_DEPTH && !CanContainStrings(root, n, depth)
    ensures !MayHoldText(root, n)
  {
    hide Lookup;
  }

  lemma NextTextFree(root: Option<SchemaNode>, n: SchemaNode, c: SchemaNode, depth: nat)
    requires depth <= MAX_DEPTH && !CanContainStrings(root, n, depth) && Edge(root, n, c)
    ensures !CanContainStrings(root, c, depth + 1)
  {
    hide Lookup, IsTranslatable;
  }

  /** A branch reported free of text can be skipped: no path of any length reaches text. */
  lemma TextFreeIsSound(root: Option<SchemaNode>, n: SchemaNode, p: seq<SchemaNode>)
    requires !CanContainStrings(root, n, 0) && IsPath(root, p) && p[0] == n
    ensures !MayHoldText(root, p[|p| - 1])
  {
    TextFreeExactly(root, n, 0);
  }

  // --------------------------------------------------------------------------
  // Cycles
  // --------------------------------------------------------------------------

  lemma JoinPaths(root: Option<SchemaNode>, p: seq<SchemaNode>, q: seq<SchemaNode>)
    requires IsPath(root, p) && IsPath(root, q) && p[|p| - 1] == q[0]
    ensures IsPath(root, p + q[1..]) && (p + q[1..])[0] == p[0] && (p + q[1..])[|p + q[1..]| - 1] == q[|q| - 1]
  {
    hide Edge;
    var r := p + q[1..];
    forall i | 0 <= i < |r| - 1
      ensures Edge(root, r[i], r[i + 1])
    {
      if i < |p| - 1 {
        assert Edge(root, p[i], p[i + 1]);
      } else {
        assert r[i] == q[i - (|p| - 1)] && r[i + 1] == q[i + 1 - (|p| - 1)];
        assert Edge(root, q[i - (|p| - 1)], q[i - (|p| - 1) + 1]);
      }
    }
  }

  /** A path around a cycle can be made as long as one likes. */
  lemma {:induction false} Around(root: Option<SchemaNode>, cycle: seq<SchemaNode>, k: nat) returns (p: seq<SchemaNode>)
    requires IsPath(root, cycle) && |cycle| > 1 && cycle[0] == cycle[|cycle| - 1]
    ensures IsPath(root, p) && p[0] == p[|p| - 1] == cycle[0] && |p| > k
    decreases k
  {
    hide Edge;
    if k == 0 {
      p := cycle;
    } else {
      var q := Around(root, cycle, k - 1);
      JoinPaths(root, q, cycle);
      p := q + cycle[1..];
    }
  }

  /** Whatever can reach a cycle of references is treated as if it held text. */
  lemma CyclesAreConservative(root: Option<SchemaNode>, n: SchemaNode, lead: seq<SchemaNode>, cycle: seq<SchemaNode>, depth: nat)
    requires IsPath(root, lead) && lead[0] == n
    requires IsPath(root, cycle) && |cycle| > 1 && lead[|lead| - 1] == cycle[0] == cycle[|cycle| - 1]
    ensures CanContainStrings(root, n, depth)
  {
    hide Edge, CanContainStrings;
    var around := Around(root, cycle, MAX_DEPTH + 1);
    JoinPaths(root, lead, around);
    TextFreeExactly(root, n, depth);
    assert |lead + around[1..]| - 1 > MAX_DEPTH;
  }

  // --------------------------------------------------------------------------
  // Looking through wrappers
  // --------------------------------------------------------------------------

  predicate IsWrapper(root: Option<SchemaNode>, n: SchemaNode) {
    n.kind.Subrecord? || n.kind.Compressed? || n.kind.Terminated?
    || (n.kind.Reference? && Lookup(root, n.kind.target).Some?)
  }

  /**
   Steps through payload wrappers and references, up to the depth limit. The
   result is reached by a path, and only the limit leaves it a wrapper.
   */
  method PayloadNode(root: Option<SchemaNode>, start: SchemaNode) returns (node: SchemaNode, ghost path: seq<SchemaNode>)
    ensures IsPath(root, path) && path[0] == start && path[|path| - 1] == node
    ensures forall i :: 0 <= i < |path| - 1 ==> IsWrapper(root, path[i])
    ensures IsWrapper(root, node) ==> |path| == MAX_DEPTH + 1
  {
    hide Lookup;
    node, path := start, [start];
    for i := 0 to MAX_DEPTH
      invariant IsPath(root, path) && path[0] == start && path[|path| - 1] == node && |path| == i + 1
      invariant forall j :: 0 <= j < |path| - 1 ==> IsWrapper(root, path[j])
    {
      var next: SchemaNode;
      match node.kind {
        case Subrecord(payload) => next := payload;
        case Compressed(child) => next := child;
        case Terminated(child) => next := child;
        case Reference(target) =>
          var found := Lookup(root, target);
          if found.None? {
            return;
          }
          next := found.value;
        case _ => return;
      }
      var longer := path + [next];
      forall j | 0 <= j < |longer| - 1
        ensures Edge(root, longer[j], longer[j + 1]) && IsWrapper(root, longer[j])
      {
        if j < |path| - 1 {
          assert Edge(root, path[j], path[j + 1]);
        }
      }
      node, path := next, longer;
    }
  }

  /** Looking through wrappers never turns a text-free branch into one that may hold text. */
  lemma PayloadStaysTextFree(root: Option<SchemaNode>, n: SchemaNode, path: seq<SchemaNode>)
    requires !CanContainStrings(root, n, 0) && IsPath(root, path) && path[0] == n
    ensures !CanContainStrings(root, path[|path| - 1], 0)
  {
    hide CanContainStrings, Edge;
    TextFreeExactly(root, n, 0);
    var m := path[|path| - 1];
    forall p | IsPath(root, p) && p[0] == m
      ensures |p| - 1 <= MAX_DEPTH && !MayHoldText(root, p[|p| - 1])
    {
      JoinPaths(root, path, p);
    }
    TextFreeExactly(root, m, 0);
  }

  /** What counts as text, and how deep a branch may go, in edges, to be reported free of it. */
  lemma TextLimits(root: Option<SchemaNode>, n: SchemaNode)
    ensures IsTranslatable(n) <==> exists localized, encoding: string ::
              n.kind == Primitive(StringPrimitive(localized, encoding)) && (localized || encoding == "localized")
    ensures !CanContainStrings(root, n, 0) <==> AllPathsClean(root, n, 128)
  {
    hide CanContainStrings, AllPathsClean;
    TextFreeExactly(root, n, 0);
    if IsTranslatable(n) {
      var s := n.kind.primitive;
      assert n.kind == Primitive(StringPrimitive(s.localized, s.encoding));
    }
  }
}
