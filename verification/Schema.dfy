/**
 The schema tree, the lookup of its nodes by path, and the route table that
 makes the lookup fast.
 */
module Schema {
  import opened Wire

  datatype PrimitiveType = StringPrimitive(localized: bool, encoding: string) | OtherPrimitive

  datatype SchemaNodeKind =
    | Sequence(children: seq<SchemaNode>)
    | Unordered(children: seq<SchemaNode>)
    | Choice(alternatives: seq<SchemaNode>)
    | SelectedChoice(alternatives: seq<SchemaNode>)
    | Repeat(child: SchemaNode)
    | Subrecord(payload: SchemaNode)
    | Primitive(primitive: PrimitiveType)
    | Struct(fields: seq<SchemaNode>)
    | OptionalStruct(fields: seq<SchemaNode>)
    | Array(element: SchemaNode)
    | Union(variants: seq<SchemaNode>)
    | Custom
    | Compressed(child: SchemaNode)
    | Terminated(child: SchemaNode)
    | Reference(target: string)

  datatype SchemaNode = SchemaNode(path: string, kind: SchemaNodeKind)

  function Children(n: SchemaNode): (cs: seq<SchemaNode>)
    ensures forall c :: c in cs ==> c < n
  {
    match n.kind
    case Sequence(cs) => cs
    case Unordered(cs) => cs
    case Choice(cs) => cs
    case SelectedChoice(cs) => cs
    case Struct(cs) => cs
    case OptionalStruct(cs) => cs
    case Union(cs) => cs
    case Repeat(c) => [c]
    case Subrecord(c) => [c]
    case Array(c) => [c]
    case Compressed(c) => [c]
    case Terminated(c) => [c]
    case Primitive(_) => []
    case Custom => []
    case Reference(_) => []
  }

  // --------------------------------------------------------------------------
  // Lookup by path
  // --------------------------------------------------------------------------

  /** All nodes of a subtree, parents first, children in order. */
  function Preorder(n: SchemaNode): (ns: seq<SchemaNode>)
    decreases n, 0
  {
    [n] + PreorderFrom(n, 0)
  }

  function PreorderFrom(n: SchemaNode, i: nat): seq<SchemaNode>
    decreases n, 0, |Children(n)| - i
  {
    if i >= |Children(n)| then [] else Preorder(Children(n)[i]) + PreorderFrom(n, i + 1)
  }

  function FirstAt(ns: seq<SchemaNode>, path: string): Option<SchemaNode> {
    if ns == [] then None else if ns[0].path == path then Some(ns[0]) else FirstAt(ns[1..], path)
  }

  /** The first node of the tree, parents before children, that carries `path`. */
  function FirstNode(root: SchemaNode, path: string): Option<SchemaNode> {
    FirstAt(Preorder(root), path)
  }

  lemma {:induction false} FirstAtConcat(a: seq<SchemaNode>, b: seq<SchemaNode>, path: string)
    ensures FirstAt(a + b, path) == if FirstAt(a, path).Some? then FirstAt(a, path) else FirstAt(b, path)
    decreases |a|
  {
    if a == [] {
      assert a + b == b;
    } else {
      assert (a + b)[1..] == a[1..] + b;
      FirstAtConcat(a[1..], b, path);
    }
  }

  /** The nodes directly inside a node of each kind, in order. */
  lemma DirectlyInside(path: string, cs: seq<SchemaNode>, c: SchemaNode, p: PrimitiveType, target: string)
    ensures forall kind :: kind in {Sequence(cs), Unordered(cs), Choice(cs), SelectedChoice(cs), Struct(cs), OptionalStruct(cs), Union(cs)}
              ==> Children(SchemaNode(path, kind)) == cs
    ensures forall kind :: kind in {Repeat(c), Subrecord(c), Array(c), Compressed(c), Terminated(c)} ==> Children(SchemaNode(path, kind)) == [c]
    ensures forall kind :: kind in {Primitive(p), Custom, Reference(target)} ==> Children(SchemaNode(path, kind)) == []
  {
  }
}
