/**
 The resumable cursor: a root group and a stack of positions that stand for the
 records still to come, and the batch call that works on them.
 */
module StringCursor {
  import opened Wire
  import opened Records
  import opened Groups
  import opened Plugins
  import opened Traversal
  import opened StringBatches

  // --------------------------------------------------------------------------
  // What a stack of positions stands for
  // --------------------------------------------------------------------------

  /**
   Every position but the last is one past the child group that the next
   position is in; the last is the next child to visit.
   */
  ghost predicate Leads(g: Group, ps: seq<nat>)
    decreases |ps|
  {
    ps != [] && ps[0] <= |g.children|
    && (|ps| > 1 ==> ps[0] > 0 && g.children[ps[0] - 1].GroupChild? && Leads(g.children[ps[0] - 1].group, ps[1..]))
  }

  /** The records behind the positions, innermost group first. */
  ghost function RestOf(g: Group, ps: seq<nat>): seq<Record>
    requires Leads(g, ps)
    decreases |ps|
  {
    (if |ps| > 1 then RestOf(g.children[ps[0] - 1].group, ps[1..]) else []) + Flatten(g.children[ps[0]..])
  }

  ghost function Work(g: Group, ps: seq<nat>): nat
    requires Leads(g, ps)
    decreases |ps|
  {
    (if |ps| > 1 then Work(g.children[ps[0] - 1].group, ps[1..]) else 0) + 2 * NodeCount(g.children[ps[0]..]) + 1
  }

  /** The innermost group. */
  ghost function Innermost(g: Group, ps: seq<nat>): Group
    requires Leads(g, ps)
    decreases |ps|
  {
    if |ps| > 1 then Innermost(g.children[ps[0] - 1].group, ps[1..]) else g
  }

  /** A single position: the rest of one list. */
  lemma One(g: Group, p: nat)
    ensures Leads(g, [p]) <==> p <= |g.children|
    ensures p <= |g.children| ==>
              RestOf(g, [p]) == Flatten(g.children[p..]) && Work(g, [p]) == 2 * NodeCount(g.children[p..]) + 1
              && Innermost(g, [p]) == g
  {
    if p <= |g.children| {
      assert RestOf(g, [p]) == [] + Flatten(g.children[p..]);
    }
  }

  /** A position in front of others: the rest of the inner group, then the rest of the list around it. */
  lemma Nested(g: Group, p: nat, qs: seq<nat>)
    requires 0 < p <= |g.children| && g.children[p - 1].GroupChild? && qs != []
    ensures var inner := g.children[p - 1].group;
            (Leads(g, [p] + qs) <==> Leads(inner, qs))
            && (Leads(inner, qs) ==>
                  RestOf(g, [p] + qs) == RestOf(inner, qs) + Flatten(g.children[p..])
                  && Work(g, [p] + qs) == Work(inner, qs) + 2 * NodeCount(g.children[p..]) + 1
                  && Innermost(g, [p] + qs) == Innermost(inner, qs))
  {
    assert ([p] + qs)[1..] == qs;
  }

  lemma Split(g: Group, ps: seq<nat>)
    requires Leads(g, ps)
    ensures ps != [] && ps[0] <= |g.children|
    ensures |ps| == 1 ==> ps == [ps[0]]
    ensures |ps| > 1 ==> ps == [ps[0]] + ps[1..] && 0 < ps[0] && g.children[ps[0] - 1].GroupChild?
                         && Leads(g.children[ps[0] - 1].group, ps[1..])
  {
  }

  lemma {:induction false} LastInside(g: Group, ps: seq<nat>)
    requires Leads(g, ps)
    ensures ps != [] && ps[|ps| - 1] <= |Innermost(g, ps).children|
    decreases |ps|
  {
    if |ps| > 1 {
      LastInside(g.children[ps[0] - 1].group, ps[1..]);
    }
  }

  lemma {:induction false} Advanced(g: Group, ps: seq<nat>)
    requires Leads(g, ps) && ps != [] && ps[|ps| - 1] < |Innermost(g, ps).children|
    ensures var d := |ps| - 1;
            var c, next := Innermost(g, ps).children[ps[d]], ps[d := ps[d] + 1];
            Leads(g, next) && Innermost(g, next) == Innermost(g, ps)
            && RestOf(g, ps) == FlattenChild(c) + RestOf(g, next)
            && Work(g, ps) == 2 * ChildCount(c) + Work(g, next)
    decreases |ps|
  {
    hide FlattenChild, ChildCount, Flatten, NodeCount, Leads, RestOf, Work, Innermost;
    Split(g, ps);
    var d := |ps| - 1;
    if d == 0 {
      One(g, ps[0]);
      One(g, ps[0] + 1);
      ListStep(g.children, ps[0]);
      assert ps[0 := ps[0] + 1] == [ps[0] + 1];
    } else {
      var inner, qs := g.children[ps[0] - 1].group, ps[1..];
      Nested(g, ps[0], qs);
      Advanced(inner, qs);
      var later := qs[d - 1 := ps[d] + 1];
      Nested(g, ps[0], later);
      assert ps[d := ps[d] + 1] == [ps[0]] + later;
      Assoc(FlattenChild(Innermost(g, ps).children[ps[d]]), RestOf(inner, later), Flatten(g.children[ps[0]..]));
    }
  }

  lemma {:induction false} Pushed(g: Group, ps: seq<nat>)
    requires Leads(g, ps) && ps != [] && 0 < ps[|ps| - 1] <= |Innermost(g, ps).children|
    requires Innermost(g, ps).children[ps[|ps| - 1] - 1].GroupChild?
    ensures var inner := Innermost(g, ps).children[ps[|ps| - 1] - 1].group;
            Leads(g, ps + [0]) && RestOf(g, ps + [0]) == Flatten(inner.children) + RestOf(g, ps)
            && Work(g, ps + [0]) == 2 * NodeCount(inner.children) + 1 + Work(g, ps)
    decreases |ps|
  {
    hide Flatten, NodeCount, Leads, RestOf, Work, Innermost;
    Split(g, ps);
    if |ps| == 1 {
      One(g, ps[0]);
      var inner := g.children[ps[0] - 1].group;
      One(inner, 0);
      Nested(g, ps[0], [0]);
      assert inner.children[0..] == inner.children && ps + [0] == [ps[0]] + [0];
    } else {
      var next, qs := g.children[ps[0] - 1].group, ps[1..];
      Nested(g, ps[0], qs);
      Pushed(next, qs);
      Nested(g, ps[0], qs + [0]);
      assert ps + [0] == [ps[0]] + (qs + [0]);
      var inner := Innermost(g, ps).children[ps[|ps| - 1] - 1].group;
      Assoc(Flatten(inner.children), RestOf(next, qs), Flatten(g.children[ps[0]..]));
    }
  }

  lemma {:induction false} Popped(g: Group, ps: seq<nat>)
    requires Leads(g, ps) && ps != [] && ps[|ps| - 1] == |Innermost(g, ps).children|
    ensures |ps| == 1 ==> RestOf(g, ps) == []
    ensures |ps| > 1 ==> var outer := ps[..|ps| - 1];
                         Leads(g, outer) && RestOf(g, outer) == RestOf(g, ps) && Work(g, outer) < Work(g, ps)
    decreases |ps|
  {
    hide Flatten, NodeCount, Leads, RestOf, Work, Innermost;
    Split(g, ps);
    if |ps| == 1 {
      One(g, ps[0]);
      ListDone(g.children);
    } else {
      var next, qs := g.children[ps[0] - 1].group, ps[1..];
      Nested(g, ps[0], qs);
      Popped(next, qs);
      if |ps| == 2 {
        One(g, ps[0]);
        One(next, qs[0]);
        assert qs == [qs[0]];
        assert ps[..1] == [ps[0]];
        assert [] + Flatten(g.children[ps[0]..]) == Flatten(g.children[ps[0]..]);
      } else {
        var shorter := qs[..|qs| - 1];
        Nested(g, ps[0], shorter);
        assert ps[..|ps| - 1] == [ps[0]] + shorter;
      }
    }
  }

  /** Following all positions but the last leads to the innermost group. */
  lemma WalkStep(g: Group, ps: seq<nat>, i: nat)
    requires i + 1 < |ps| && Leads(g, ps[i..])
    ensures 0 < ps[i] <= |g.children| && g.children[ps[i] - 1].GroupChild?
    ensures var inner := g.children[ps[i] - 1].group;
            Leads(inner, ps[i + 1..]) && Innermost(g, ps[i..]) == Innermost(inner, ps[i + 1..])
  {
    assert ps[i..][0] == ps[i] && ps[i..][1..] == ps[i + 1..];
  }

  // --------------------------------------------------------------------------
  // The cursor
  // --------------------------------------------------------------------------

  class BethkitStringCursor {
    const groups: seq<Group>
    const policy: Policy
    var root: nat
    var positions: seq<nat>
    var failed: bool
    var pendingError: Option<Error>

    ghost predicate Placed()
      reads this
    {
      positions != [] ==> root < |groups| && Leads(groups[root], positions)
    }

    ghost predicate Valid()
      reads this
    {
      Placed() && (pendingError.Some? ==> failed)
    }

    /** The records still to come, in document order. */
    ghost function Remaining(): seq<Record>
      requires Placed()
      reads this
    {
      if positions == [] then Flatten(AsChildren(groups)[Min(root, |groups|)..])
      else RestOf(groups[root], positions) + Flatten(AsChildren(groups)[root + 1..])
    }

    ghost function Abstract(): State
      requires Placed()
      reads this
    {
      State(Remaining(), failed, pendingError)
    }

    constructor (groups: seq<Group>, policy: Policy)
      ensures Valid() && this.groups == groups && this.policy == policy
      ensures Abstract() == Fresh(Flatten(AsChildren(groups)))
    {
      this.groups, this.policy := groups, policy;
      root, positions := 0, [];
      failed, pendingError := false, None;
      new;
      assert AsChildren(groups)[0..] == AsChildren(groups);
    }

    /** Takes the next record in document order off the walk. */
    method NextRecord() returns (r: Option<Record>)
      requires Placed()
      modifies this`root, this`positions
      ensures Placed()
      ensures r.None? ==> old(Remaining()) == [] == Remaining()
      ensures r.Some? ==> old(Remaining()) == [r.value] + Remaining()
    {
      hide Flatten, NodeCount, RestOf, Work, Leads, Innermost, FlattenChild, ChildCount;
      ghost var whole := Remaining();
      while root < |groups|
        invariant Placed() && Remaining() == whole
        decreases |groups| - root, positions == [], if positions != [] then Work(groups[root], positions) else 0
      {
        var start := groups[root];
        ghost var others := Flatten(AsChildren(groups)[root + 1..]);
        if positions == [] {
          Entered(groups, root);
          positions := [0];
        }
        var ps := positions;
        PositionsGiven(start, ps);
        var last := |ps| - 1;
        var group := start;
        assert ps[0..] == ps;
        for i := 0 to last
          invariant Leads(group, ps[i..])
          invariant Innermost(group, ps[i..]) == Innermost(start, ps)
          modifies {}
        {
          WalkStep(group, ps, i);
          group := group.children[ps[i] - 1].group;
        }
        assert ps[last..] == [ps[last]];
        One(group, ps[last]);
        LastInside(start, ps);
        var position := ps[last];
        positions := ps[last := position + 1];
        if position < |group.children| {
          Advanced(start, ps);
          match group.children[position] {
            case RecordChild(record) =>
              ChildOfRecord(record);
              Assoc([record], RestOf(start, positions), others);
              return Some(record);
            case GroupChild(g) =>
              ChildOfGroup(g);
              Pushed(start, positions);
              positions := positions + [0];
          }
        } else {
          Popped(start, ps);
          positions := ps[..last];
          if positions == [] {
            assert [] + others == others;
            root := root + 1;
          }
        }
      }
      ListDone(AsChildren(groups));
      return None;
    }

    /** Takes records until the batch is full, the walk is over, or a record is fatal. */
    method Fill(recordLimit: nat) returns (filled: Filled)
      requires Placed()
      modifies this`root, this`positions
      ensures Placed()
      ensures Collect(policy, old(Remaining()), recordLimit, EMPTY) == EndingOf(filled, Remaining())
    {
      hide VisitOf, UncompressedSize, Collect, RestOf, Leads, Flatten;
      ghost var whole := Collect(policy, Remaining(), recordLimit, EMPTY);
      var draft := EMPTY;
      for i := 0 to recordLimit
        invariant Placed()
        invariant whole == Collect(policy, Remaining(), recordLimit - i, draft)
      {
        ghost var before := Remaining();
        CollectStep(policy, before, recordLimit - i, draft);
        var next := NextRecord();
        if next.None? {
          return Filled(draft, true, None);
        }
        var record := next.value;
        ghost var after := Remaining();
        assert before[0] == record && before[1..] == after;
        match VisitOf(policy, record) {
          case Passes =>
          case Noted =>
            draft := draft.(diagnostics := draft.diagnostics + [record]);
          case Fatal(error) =>
            return if draft.values != [] then Filled(draft, false, Some(error)) else Aborted(error);
          case Yields(rows) =>
            draft := draft.(values := draft.values + rows, bytes := draft.bytes + UncompressedSize(record));
            if draft.bytes >= BYTE_LIMIT || |draft.values| >= STRING_LIMIT {
              return Filled(draft, false, None);
            }
        }
      }
      CollectNothing(policy, Remaining(), draft);
      return Filled(draft, false, None);
    }

    /** The next bounded batch, exactly as the state machine prescribes. */
    method NextJson(recordLimit: nat) returns (reply: Reply)
      requires Valid()
      modifies this
      ensures Valid()
      ensures (reply, Abstract()) == Next(policy, old(Abstract()), recordLimit)
    {
      hide Collect, RestOf, Leads, Flatten;
      if pendingError.Some? {
        reply := Reported(pendingError.value);
        pendingError := None;
        return;
      }
      if !(1 <= recordLimit <= MAX_RECORDS) || failed {
        return Refused;
      }
      failed := true;
      var filled := Fill(recordLimit);
      match filled {
        case Aborted(error) =>
          return Reported(error);
        case Filled(draft, done, pending) =>
          pendingError := pending;
          reply := Batch(draft.values, draft.diagnostics, done);
          failed := pendingError.Some?;
      }
    }
  }

  /** How the record loop of a batch leaves the cursor. */
  datatype Filled = Filled(draft: Draft, done: bool, pending: Option<Error>) | Aborted(error: Error)

  ghost function EndingOf(filled: Filled, rest: seq<Record>): Ending {
    match filled
    case Filled(draft, done, pending) => Stop(draft, rest, done, pending)
    case Aborted(error) => Abort(error, rest)
  }

  lemma Entered(groups: seq<Group>, root: nat)
    requires root < |groups|
    ensures Leads(groups[root], [0])
    ensures Flatten(AsChildren(groups)[root..]) == RestOf(groups[root], [0]) + Flatten(AsChildren(groups)[root + 1..])
  {
    hide Flatten;
    var g := groups[root];
    ListStep(AsChildren(groups), root);
    ChildOfGroup(g);
    One(g, 0);
    assert g.children[0..] == g.children;
  }

  lemma PositionsGiven(g: Group, ps: seq<nat>)
    requires Leads(g, ps)
    ensures ps != []
  {
  }

  lemma CollectNothing(policy: Policy, rs: seq<Record>, d: Draft)
    ensures Collect(policy, rs, 0, d) == Stop(d, rs, false, None)
  {
  }

  lemma CollectStep(policy: Policy, rs: seq<Record>, limit: nat, d: Draft)
    requires limit > 0
    ensures Collect(policy, rs, limit, d)
         == if rs == [] then Stop(d, rs, true, None)
            else match VisitOf(policy, rs[0])
                 case Passes => Collect(policy, rs[1..], limit - 1, d)
                 case Noted => Collect(policy, rs[1..], limit - 1, d.(diagnostics := d.diagnostics + [rs[0]]))
                 case Fatal(error) => if d.values != [] then Stop(d, rs[1..], false, Some(error)) else Abort(error, rs[1..])
                 case Yields(rows) =>
                   var more := d.(values := d.values + rows, bytes := d.bytes + UncompressedSize(rs[0]));
                   if more.bytes >= BYTE_LIMIT || |more.values| >= STRING_LIMIT then Stop(more, rs[1..], false, None)
                   else Collect(policy, rs[1..], limit - 1, more)
  {
    hide VisitOf, UncompressedSize;
  }
}
