/**
 Diagnostics of the string cursor. A call that reports a fatal record has no
 place for the diagnostics its batch had gathered, so they are lost: which ones,
 and exactly when no choice of limits loses any.
 */
module Diagnostics {
  import opened Wire
  import opened Records
  import opened StringBatches

  /** All diagnostics delivered by a run. */
  function Diagnosed(replies: seq<Reply>): seq<Record> {
    if replies == [] then []
    else (if replies[0].Batch? then replies[0].diagnostics else []) + Diagnosed(replies[1..])
  }

  /** The diagnostics owed when a call reports an error instead of a batch. */
  function LostNotes(policy: Policy, s: State, limits: seq<nat>): seq<Record>
    decreases |limits|
  {
    if limits == [] then []
    else
      var (reply, mid) := Next(policy, s, limits[0]);
      if reply.Reported? then OwedNotes(policy, s) else LostNotes(policy, mid, limits[1..])
  }

  /**
   For any limits, the diagnostics delivered, those lost to a reported error and
   those still owed are the diagnostics of one walk.
   */
  lemma {:induction false} DiagnosticsSettle(policy: Policy, s: State, limits: seq<nat>)
    requires Coherent(s)
    ensures var (replies, after) := Run(policy, s, limits);
            Diagnosed(replies) + LostNotes(policy, s, limits) + OwedNotes(policy, after) == OwedNotes(policy, s)
    decreases |limits|
  {
    hide Next, OwedRows, OwedError, OwedNotes;
    if limits != [] {
      var (reply, mid) := Next(policy, s, limits[0]);
      NextSettles(policy, s, limits[0]);
      var (later, after) := Run(policy, mid, limits[1..]);
      assert Run(policy, s, limits).0[1..] == later;
      if reply.Reported? {
        FailedOwesNothing(policy, mid, limits[1..]);
      } else {
        DiagnosticsSettle(policy, mid, limits[1..]);
        if reply.Batch? {
          var lost := LostNotes(policy, mid, limits[1..]);
          Assoc(reply.diagnostics, Diagnosed(later), lost);
          Assoc(reply.diagnostics, Diagnosed(later) + lost, OwedNotes(policy, after));
        }
      }
    }
  }

  lemma {:induction false} FailedOwesNothing(policy: Policy, s: State, limits: seq<nat>)
    requires s.failed && s.pending == None
    ensures Diagnosed(Run(policy, s, limits).0) == [] && OwedNotes(policy, Run(policy, s, limits).1) == []
    decreases |limits|
  {
    FailureSticks(policy, s, limits);
    Refusals(Run(policy, s, limits).0);
  }

  lemma {:induction false} Refusals(replies: seq<Reply>)
    requires forall i :: 0 <= i < |replies| ==> replies[i] == Refused
    ensures Diagnosed(replies) == []
    decreases |replies|
  {
    if replies != [] {
      assert forall i :: 0 <= i < |replies[1..]| ==> replies[1..][i] == replies[i + 1];
      Refusals(replies[1..]);
    }
  }

  /** A full run delivers all diagnostics of the walk but the ones it loses. */
  lemma FullRunDiagnoses(policy: Policy, rs: seq<Record>, limits: seq<nat>)
    requires ValidLimits(limits) && |limits| >= |rs| + 2
    ensures Diagnosed(Run(policy, Fresh(rs), limits).0) + LostNotes(policy, Fresh(rs), limits) == NotedOf(policy, rs)
  {
    hide Run, LostNotes, RowsOf, NotedOf, FatalOf;
    var (replies, after) := Run(policy, Fresh(rs), limits);
    DiagnosticsSettle(policy, Fresh(rs), limits);
    EnoughCallsFinish(policy, Fresh(rs), limits);
    FinishedOwesNothing(policy, Fresh(rs), limits);
    assert Diagnosed(replies) + LostNotes(policy, Fresh(rs), limits) + []
        == Diagnosed(replies) + LostNotes(policy, Fresh(rs), limits);
  }

  /** After `done` or an error no diagnostics are owed. */
  lemma {:induction false} FinishedOwesNothing(policy: Policy, s: State, limits: seq<nat>)
    requires Coherent(s)
    requires SomeDone(Run(policy, s, limits).0) || ReportedErrors(Run(policy, s, limits).0) != []
    ensures OwedNotes(policy, Run(policy, s, limits).1) == []
    decreases |limits|
  {
    hide Next, OwedRows, OwedError, OwedNotes;
    var (reply, mid) := Next(policy, s, limits[0]);
    var (later, after) := Run(policy, mid, limits[1..]);
    var replies := Run(policy, s, limits).0;
    NextSettles(policy, s, limits[0]);
    assert replies == [reply] + later && replies[1..] == later;
    if reply.Reported? {
      FailedOwesNothing(policy, mid, limits[1..]);
    } else if reply.Batch? && reply.done {
      NothingLeft(policy, mid, limits[1..]);
    } else {
      if SomeDone(replies) {
        var i :| 0 <= i < |replies| && replies[i].Batch? && replies[i].done;
        assert later[i - 1] == replies[i];
      }
      FinishedOwesNothing(policy, mid, limits[1..]);
    }
  }

  lemma {:induction false} NothingLeft(policy: Policy, s: State, limits: seq<nat>)
    requires s.remaining == [] && !s.failed && s.pending == None
    ensures OwedNotes(policy, Run(policy, s, limits).1) == []
    decreases |limits|
  {
    if limits != [] {
      assert Next(policy, s, limits[0]).1 == s;
      NothingLeft(policy, s, limits[1..]);
    }
  }

  // --------------------------------------------------------------------------
  // When nothing can be lost
  // --------------------------------------------------------------------------

  /** How many records stand before the first fatal one, or in all. */
  function FatalAt(policy: Policy, rs: seq<Record>): (n: nat)
    ensures n <= |rs|
  {
    if rs == [] || VisitOf(policy, rs[0]).Fatal? then 0 else 1 + FatalAt(policy, rs[1..])
  }

  /** The payload bytes counted for the records before the first fatal one. */
  function CountedBytes(policy: Policy, rs: seq<Record>): nat {
    if rs == [] then 0
    else
      match VisitOf(policy, rs[0])
      case Fatal(_) => 0
      case Yields(_) => UncompressedSize(rs[0]) + CountedBytes(policy, rs[1..])
      case _ => CountedBytes(policy, rs[1..])
  }

  /**
   One batch can reach the fatal record with nothing to deliver: no row comes
   before it, it is among the next 256 records, and the byte limit does not end
   the batch earlier.
   */
  predicate FatalInReach(policy: Policy, rs: seq<Record>) {
    && FatalOf(policy, rs).Some?
    && RowsOf(policy, rs) == []
    && FatalAt(policy, rs) < MAX_RECORDS
    && CountedBytes(policy, rs) < BYTE_LIMIT
  }

  /** No noted record has the fatal record in reach. */
  predicate NothingLosable(policy: Policy, rs: seq<Record>) {
    forall i :: 0 <= i < FatalAt(policy, rs) && VisitOf(policy, rs[i]).Noted? ==> !FatalInReach(policy, rs[i..])
  }

  /** A batch aborts exactly when the fatal record is within its limits and no row comes before it. */
  lemma {:induction false} AbortsExactly(policy: Policy, rs: seq<Record>, limit: nat, d: Draft)
    requires d.bytes < BYTE_LIMIT
    ensures Collect(policy, rs, limit, d).Abort?
            <==> d.values == [] && FatalOf(policy, rs).Some? && RowsOf(policy, rs) == [] && FatalAt(policy, rs) < limit
                 && d.bytes + CountedBytes(policy, rs) < BYTE_LIMIT
    decreases limit
  {
    hide VisitOf, UncompressedSize;
    if limit > 0 && rs != [] {
      match VisitOf(policy, rs[0]) {
        case Passes => AbortsExactly(policy, rs[1..], limit - 1, d);
        case Noted => AbortsExactly(policy, rs[1..], limit - 1, d.(diagnostics := d.diagnostics + [rs[0]]));
        case Fatal(_) =>
        case Yields(rows) =>
          var more := d.(values := d.values + rows, bytes := d.bytes + UncompressedSize(rs[0]));
          if more.bytes < BYTE_LIMIT && |more.values| < STRING_LIMIT {
            AbortsExactly(policy, rs[1..], limit - 1, more);
          } else if d.values == [] && rows == [] {
            assert more.values == [];
          }
      }
    }
  }

  lemma LosableTail(policy: Policy, rs: seq<Record>)
    requires rs != [] && !VisitOf(policy, rs[0]).Fatal?
    ensures NothingLosable(policy, rs)
            <==> (VisitOf(policy, rs[0]).Noted? ==> !FatalInReach(policy, rs)) && NothingLosable(policy, rs[1..])
  {
    hide VisitOf, FatalInReach;
    assert rs[0..] == rs;
    assert forall i :: 0 <= i < |rs| - 1 ==> rs[1..][i..] == rs[i + 1..];
    if NothingLosable(policy, rs) {
      forall i | 0 <= i < FatalAt(policy, rs[1..]) && VisitOf(policy, rs[1..][i]).Noted?
        ensures !FatalInReach(policy, rs[1..][i..])
      {
        assert VisitOf(policy, rs[i + 1]).Noted?;
        assert rs[1..][i..] == rs[i + 1..];
      }
    }
    if (VisitOf(policy, rs[0]).Noted? ==> !FatalInReach(policy, rs)) && NothingLosable(policy, rs[1..]) {
      forall i | 0 <= i < FatalAt(policy, rs) && VisitOf(policy, rs[i]).Noted?
        ensures !FatalInReach(policy, rs[i..])
      {
        if i > 0 {
          assert rs[1..][i - 1] == rs[i];
          assert rs[1..][i - 1..] == rs[i..];
        }
      }
    }
  }

  /** What a batch leaves behind is as safe as what it started from. */
  lemma {:induction false} RestNotLosable(policy: Policy, rs: seq<Record>, limit: nat, d: Draft)
    requires NothingLosable(policy, rs)
    ensures var end := Collect(policy, rs, limit, d);
            end.Stop? && end.pending.None? ==> NothingLosable(policy, end.rest)
    decreases limit
  {
    hide VisitOf, UncompressedSize, NothingLosable;
    if limit > 0 && rs != [] && !VisitOf(policy, rs[0]).Fatal? {
      LosableTail(policy, rs);
      match VisitOf(policy, rs[0]) {
        case Passes => RestNotLosable(policy, rs[1..], limit - 1, d);
        case Noted => RestNotLosable(policy, rs[1..], limit - 1, d.(diagnostics := d.diagnostics + [rs[0]]));
        case Yields(rows) =>
          RestNotLosable(policy, rs[1..], limit - 1, d.(values := d.values + rows, bytes := d.bytes + UncompressedSize(rs[0])));
      }
    }
  }

  /** With the fatal record in reach from the start, safety means that nothing is noted before it. */
  lemma {:induction false} InReachNotesNothing(policy: Policy, rs: seq<Record>)
    requires NothingLosable(policy, rs) && FatalInReach(policy, rs)
    ensures NotedOf(policy, rs) == []
    decreases |rs|
  {
    hide UncompressedSize, NothingLosable, VisitOf;
    if rs != [] && !VisitOf(policy, rs[0]).Fatal? {
      LosableTail(policy, rs);
      InReachNotesNothing(policy, rs[1..]);
    }
  }

  lemma {:induction false} SafeRunLosesNothing(policy: Policy, s: State, limits: seq<nat>)
    requires Coherent(s) && (!s.failed ==> NothingLosable(policy, s.remaining)) && ValidLimits(limits)
    ensures LostNotes(policy, s, limits) == []
    decreases |limits|
  {
    hide Collect, NothingLosable, NotedOf, FatalInReach, RowsOf, FatalOf;
    if limits != [] {
      var (reply, mid) := Next(policy, s, limits[0]);
      NextSettles(policy, s, limits[0]);
      assert forall i :: 0 <= i < |limits[1..]| ==> limits[1..][i] == limits[i + 1];
      if reply.Reported? {
        if !s.failed {
          AbortMeansReach(policy, s.remaining, limits[0]);
          InReachNotesNothing(policy, s.remaining);
        }
      } else {
        if !s.failed {
          RestNotLosable(policy, s.remaining, limits[0], EMPTY);
        }
        SafeRunLosesNothing(policy, mid, limits[1..]);
      }
    }
  }

  lemma AbortMeansReach(policy: Policy, rs: seq<Record>, limit: nat)
    requires limit <= MAX_RECORDS && Collect(policy, rs, limit, EMPTY).Abort?
    ensures FatalInReach(policy, rs)
  {
    hide Collect, RowsOf, FatalOf, FatalAt, CountedBytes;
    AbortsExactly(policy, rs, limit, EMPTY);
  }

  function Ones(n: nat): (ones: seq<nat>)
    ensures |ones| == n && forall i :: 0 <= i < n ==> ones[i] == 1
  {
    seq(n, i => 1)
  }

  /** Steps of one record up to a noted record with the fatal one in reach, then one full batch. */
  lemma {:induction false} LosingLimits(policy: Policy, rs: seq<Record>, n: nat) returns (limits: seq<nat>)
    requires !NothingLosable(policy, rs) && n >= |rs| + 2
    ensures ValidLimits(limits) && |limits| == n && LostNotes(policy, Fresh(rs), limits) != []
    decreases |rs|
  {
    hide VisitOf, UncompressedSize, NothingLosable, FatalInReach;
    Nonempty(policy, rs);
    LosableTail(policy, rs);
    if VisitOf(policy, rs[0]).Noted? && FatalInReach(policy, rs) {
      limits := [MAX_RECORDS] + Ones(n - 1);
      ReachAborts(policy, rs);
    } else {
      var rest := LosingLimits(policy, rs[1..], n - 1);
      limits := [1] + rest;
      assert limits[1..] == rest;
      SingleStep(policy, rs);
    }
  }

  lemma Nonempty(policy: Policy, rs: seq<Record>)
    requires !NothingLosable(policy, rs)
    ensures rs != [] && !VisitOf(policy, rs[0]).Fatal?
  {
    hide VisitOf, FatalInReach;
  }

  lemma ReachAborts(policy: Policy, rs: seq<Record>)
    requires FatalInReach(policy, rs)
    ensures Next(policy, Fresh(rs), MAX_RECORDS).0.Reported?
  {
    hide Collect, RowsOf, FatalOf, FatalAt, CountedBytes;
    AbortsExactly(policy, rs, MAX_RECORDS, EMPTY);
  }

  /** A batch of one record that is not fatal leaves a fresh cursor over the others. */
  lemma SingleStep(policy: Policy, rs: seq<Record>)
    requires rs != [] && !VisitOf(policy, rs[0]).Fatal?
    ensures Next(policy, Fresh(rs), 1).0.Batch? && Next(policy, Fresh(rs), 1).1 == Fresh(rs[1..])
  {
    hide VisitOf, UncompressedSize;
  }

  /** Every full run of calls delivers every diagnostic of the walk. */
  ghost predicate AlwaysDiagnosed(policy: Policy, rs: seq<Record>) {
    forall limits :: ValidLimits(limits) && |limits| >= |rs| + 2 ==> Diagnosed(Run(policy, Fresh(rs), limits).0) == NotedOf(policy, rs)
  }

  /**
   Diagnostics are independent of the limits exactly when between every noted
   record and the first fatal one there is a row, or at least 255 records, or
   enough counted payload to end a batch; and always without a fatal record.
   */
  lemma DiagnosticsExactly(policy: Policy, rs: seq<Record>)
    ensures AlwaysDiagnosed(policy, rs) <==> NothingLosable(policy, rs)
  {
    hide Run, LostNotes, NotedOf, NothingLosable, Diagnosed;
    if NothingLosable(policy, rs) {
      forall limits | ValidLimits(limits) && |limits| >= |rs| + 2
        ensures Diagnosed(Run(policy, Fresh(rs), limits).0) == NotedOf(policy, rs)
      {
        FullRunDiagnoses(policy, rs, limits);
        SafeRunLosesNothing(policy, Fresh(rs), limits);
        var got := Diagnosed(Run(policy, Fresh(rs), limits).0);
        assert got + [] == got;
      }
    } else {
      var limits := LosingLimits(policy, rs, |rs| + 2);
      FullRunDiagnoses(policy, rs, limits);
      assert |Diagnosed(Run(policy, Fresh(rs), limits).0)| < |NotedOf(policy, rs)|;
    }
  }

  /** The smallest case: lost when it shares a batch with the fatal record, delivered in a batch of its own. */
  lemma DiagnosticLost(policy: Policy, a: Record, b: Record, error: Error)
    requires VisitOf(policy, a) == Noted && VisitOf(policy, b) == Fatal(error)
    ensures Run(policy, Fresh([a, b]), [2]).0 == [Reported(error)]
    ensures Run(policy, Fresh([a, b]), [1, 1]).0 == [Batch([], [a], false), Reported(error)]
  {
    hide VisitOf;
    var s := Fresh([a, b]);
    assert [a, b][1..] == [b];
    assert Next(policy, s, 2).0 == Reported(error);
    assert [2][1..] == [] && [1, 1][1..] == [1] && [1][1..] == [];
    assert Collect(policy, [a, b], 1, EMPTY) == Stop(Draft([], [a], 0), [b], false, None);
    var mid := Next(policy, s, 1).1;
    assert mid == State([b], false, None);
    assert Next(policy, mid, 1).0 == Reported(error);
    assert Run(policy, mid, [1]).0 == [Reported(error)] + Run(policy, Next(policy, mid, 1).1, []).0;
  }
}
