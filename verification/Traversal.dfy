/**
 Walking a group tree: its records in document order, the explicit-stack
 iterator that yields them, and the linear lookup by FormID.
 */
module Traversal {
  import opened Wire
  import opened Records
  import opened Groups
  import opened Plugins

  /** All groups and records of a list, at every depth. */
  function NodeCount(cs: seq<Child>): nat
    decreases cs, 0
  {
    if cs == [] then 0 else ChildCount(cs[0]) + NodeCount(cs[1..])
  }

  function ChildCount(c: Child): nat
    decreases c, 0
  {
    match c
    case RecordChild(_) => 1
    case GroupChild(g) => 1 + NodeCount(g.children)
  }

  /** A nested group holds fewer nodes than the list around it. */
  lemma {:induction false} NestedCount(cs: seq<Child>, i: nat)
    requires i < |cs| && cs[i].GroupChild?
    ensures NodeCount(cs[i].group.children) < NodeCount(cs)
    decreases |cs|
  {
    if i > 0 {
      assert cs[1..][i - 1] == cs[i];
      NestedCount(cs[1..], i - 1);
    }
  }

  /** All records of a list in document order, at every depth. */
  function Flatten(cs: seq<Child>): seq<Record>
    decreases cs, 0
  {
    if cs == [] then [] else FlattenChild(cs[0]) + Flatten(cs[1..])
  }

  function FlattenChild(c: Child): seq<Record>
    decreases c, 0
  {
    match c
    case RecordChild(r) => [r]
    case GroupChild(g) => Flatten(g.children)
  }

  lemma {:induction false} FlattenConcat(a: seq<Child>, b: seq<Child>)
    ensures Flatten(a + b) == Flatten(a) + Flatten(b)
    decreases |a|
  {
    hide FlattenChild;
    if a == [] {
      assert a + b == b;
    } else {
      assert (a + b)[0] == a[0] && (a + b)[1..] == a[1..] + b;
      FlattenConcat(a[1..], b);
    }
  }

  // --------------------------------------------------------------------------
  // The explicit-stack iterator
  // --------------------------------------------------------------------------

  /** The records still to come: the rest of the innermost list, then of the lists around it. */
  ghost function Rest(stack: seq<seq<Child>>, pos: seq<nat>): seq<Record>
    requires Positions(stack, pos)
    decreases |stack|
  {
    if stack == [] then []
    else
      var d := |stack| - 1;
      Flatten(stack[d][pos[d]..]) + Rest(stack[..d], pos[..d])
  }

  ghost predicate Positions(stack: seq<seq<Child>>, pos: seq<nat>) {
    |pos| == |stack| && forall i :: 0 <= i < |stack| ==> pos[i] <= |stack[i]|
  }

  /** Work left: two steps for every node not yet visited, one for every open list. */
  ghost function Fuel(stack: seq<seq<Child>>, pos: seq<nat>): nat
    requires Positions(stack, pos)
    decreases |stack|
  {
    if stack == [] then 0
    else
      var d := |stack| - 1;
      2 * NodeCount(stack[d][pos[d]..]) + 1 + Fuel(stack[..d], pos[..d])
  }

  lemma NoRest()
    ensures Rest([], []) == []
  {
  }

  lemma PopStep(stack: seq<seq<Child>>, pos: seq<nat>)
    requires Positions(stack, pos) && stack != [] && pos[|stack| - 1] == |stack[|stack| - 1]|
    ensures var d := |stack| - 1;
            Rest(stack, pos) == Rest(stack[..d], pos[..d]) && Fuel(stack, pos) == 1 + Fuel(stack[..d], pos[..d])
  {
    ListDone(stack[|stack| - 1]);
  }

  lemma AdvanceStep(stack: seq<seq<Child>>, pos: seq<nat>)
    requires Positions(stack, pos) && stack != [] && pos[|stack| - 1] < |stack[|stack| - 1]|
    ensures var d := |stack| - 1;
            var c, next := stack[d][pos[d]], pos[d := pos[d] + 1];
            Positions(stack, next) && Rest(stack, pos) == FlattenChild(c) + Rest(stack, next)
            && Fuel(stack, pos) == 2 * ChildCount(c) + Fuel(stack, next)
  {
    hide FlattenChild, ChildCount;
    var d := |stack| - 1;
    var cs, i, next := stack[d], pos[d], pos[d := pos[d] + 1];
    ListStep(cs, i);
    assert next[..d] == pos[..d];
    Assoc(FlattenChild(cs[i]), Flatten(cs[i + 1..]), Rest(stack[..d], pos[..d]));
  }

  lemma PushStep(stack: seq<seq<Child>>, pos: seq<nat>, cs: seq<Child>)
    requires Positions(stack, pos)
    ensures Positions(stack + [cs], pos + [0])
    ensures Rest(stack + [cs], pos + [0]) == Flatten(cs) + Rest(stack, pos)
    ensures Fuel(stack + [cs], pos + [0]) == 2 * NodeCount(cs) + 1 + Fuel(stack, pos)
  {
    var s, p, d := stack + [cs], pos + [0], |stack|;
    assert s[..d] == stack && p[..d] == pos && s[d][p[d]..] == cs;
  }

  lemma ChildOfRecord(r: Record)
    ensures FlattenChild(RecordChild(r)) == [r]
  {
  }

  lemma ChildOfGroup(g: Group)
    ensures FlattenChild(GroupChild(g)) == Flatten(g.children) && ChildCount(GroupChild(g)) == 1 + NodeCount(g.children)
  {
  }

  class RecordsIter {
    var stack: seq<seq<Child>>
    var pos: seq<nat>

    ghost predicate Valid()
      reads this
    {
      Positions(stack, pos)
    }

    ghost function Remaining(): seq<Record>
      requires Valid()
      reads this
    {
      Rest(stack, pos)
    }

    constructor (group: Group)
      ensures Valid() && Remaining() == FlattenChild(GroupChild(group))
    {
      stack := [group.children];
      pos := [0];
      new;
      assert group.children[0..] == group.children;
      assert Rest([], []) == [];
      assert Rest(stack, pos) == Flatten(group.children) + Rest(stack[..0], pos[..0]);
    }

    /** Yields the next record in document order, or nothing once all are out. */
    method Next() returns (r: Option<Record>)
      requires Valid()
      modifies this
      ensures Valid()
      ensures r.None? <==> old(Remaining()) == []
      ensures r.Some? ==> old(Remaining()) == [r.value] + Remaining()
      ensures r.None? ==> Remaining() == []
    {
      ghost var whole := Remaining();
      while true
        invariant Valid() && Remaining() == whole
        decreases Fuel(stack, pos)
      {
        hide Rest, Fuel, FlattenChild, ChildCount;
        if |stack| == 0 {
          NoRest();
          return None;
        }
        var depth := |stack| - 1;
        var idx := pos[depth];
        var children := stack[depth];
        if idx >= |children| {
          PopStep(stack, pos);
          stack := stack[..depth];
          pos := pos[..depth];
          continue;
        }
        AdvanceStep(stack, pos);
        pos := pos[depth := idx + 1];
        match children[idx] {
          case RecordChild(record) =>
            ChildOfRecord(record);
            return Some(record);
          case GroupChild(g) =>
            ChildOfGroup(g);
            PushStep(stack, pos, g.children);
            stack := stack + [g.children];
            pos := pos + [0];
        }
      }
      assert false;
    }
  }

  lemma ListDone(cs: seq<Child>)
    ensures Flatten(cs[|cs|..]) == [] && NodeCount(cs[|cs|..]) == 0
  {
  }

  lemma ListStep(cs: seq<Child>, i: nat)
    requires i < |cs|
    ensures Flatten(cs[i..]) == FlattenChild(cs[i]) + Flatten(cs[i + 1..])
    ensures NodeCount(cs[i..]) == ChildCount(cs[i]) + NodeCount(cs[i + 1..])
  {
    assert cs[i..][0] == cs[i] && cs[i..][1..] == cs[i + 1..];
  }

  // --------------------------------------------------------------------------
  // Linear lookup
  // --------------------------------------------------------------------------

  function FirstWith(rs: seq<Record>, id: FormId): Option<Record> {
    if rs == [] then None
    else if rs[0].header.formId == id then Some(rs[0])
    else FirstWith(rs[1..], id)
  }

  lemma {:induction false} FirstWithConcat(a: seq<Record>, b: seq<Record>, id: FormId)
    ensures FirstWith(a + b, id) == if FirstWith(a, id).Some? then FirstWith(a, id) else FirstWith(b, id)
    decreases |a|
  {
    if a == [] {
      assert a + b == b;
    } else {
      assert (a + b)[1..] == a[1..] + b;
      FirstWithConcat(a[1..], b, id);
    }
  }

  lemma {:induction false} FirstWithMeaning(rs: seq<Record>, id: FormId)
    ensures FirstWith(rs, id).Some? <==> exists r :: r in rs && r.header.formId == id
    ensures FirstWith(rs, id).Some? ==> FirstWith(rs, id).value in rs && FirstWith(rs, id).value.header.formId == id
    decreases |rs|
  {
    if rs != [] {
      FirstWithMeaning(rs[1..], id);
      assert rs == [rs[0]] + rs[1..];
    }
  }

  /** The first record of the plugin with the raw FormID `id`, in document order. */
  method FindRecord(groups: seq<Group>, id: FormId) returns (r: Option<Record>)
    ensures r == FirstWith(Flatten(AsChildren(groups)), id)
  {
    hide Flatten, FirstWith, FlattenChild;
    ghost var cs := AsChildren(groups);
    assert cs[0..] == cs;
    for i := 0 to |groups|
      invariant FirstWith(Flatten(cs[i..]), id) == FirstWith(Flatten(cs), id)
    {
      ListStep(cs, i);
      var iter := new RecordsIter(groups[i]);
      ghost var all := FlattenChild(cs[i]);
      FirstWithConcat(all, Flatten(cs[i + 1..]), id);
      var next := iter.Next();
      FirstOfNothing(id);
      while next.Some?
        invariant iter.Valid() && fresh(iter)
        invariant next.None? ==> FirstWith(all, id) == None
        invariant next.Some? ==> FirstWith(all, id) == FirstWith([next.value] + iter.Remaining(), id)
        decreases next.Some?, if next.Some? then |iter.Remaining()| else 0
      {
        FirstOfCons(next.value, iter.Remaining(), id);
        if next.value.header.formId == id {
          return next;
        }
        FirstOfNothing(id);
        next := iter.Next();
      }
    }
    ListDone(cs);
    FirstOfNothing(id);
    return None;
  }

  lemma FirstOfCons(r: Record, rest: seq<Record>, id: FormId)
    ensures FirstWith([r] + rest, id) == if r.header.formId == id then Some(r) else FirstWith(rest, id)
  {
    assert ([r] + rest)[1..] == rest;
  }

  lemma FirstOfNothing(id: FormId)
    ensures FirstWith([], id) == None
  {
  }
}
