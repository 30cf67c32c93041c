/**
 Bounded batches of extracted strings, as a state machine over the records still
 to come. Decoding a record is a parameter.
 */
module StringBatches {
  import opened Wire
  import opened Records

  type Row = Bytes

  datatype Decoded = Rows(rows: seq<Row>) | Broken(error: Error)

  /** What a cursor is created with. */
  datatype Policy = Policy(
    decode: (Record, bool) -> Decoded,
    textFree: set<Signature>,
    validateNontext: bool,
    preserveOpaqueNontext: bool)

  /** What becomes of one record. */
  datatype Visit = Passes | Noted | Fatal(error: Error) | Yields(rows: seq<Row>)

  function VisitOf(policy: Policy, r: Record): Visit {
    var textFree := r.header.signature in policy.textFree;
    if textFree && !policy.validateNontext then Passes
    else
      match policy.decode(r, textFree)
      case Rows(rows) => Yields(rows)
      case Broken(error) => if textFree && policy.preserveOpaqueNontext then Noted else Fatal(error)
  }

  /** The uncompressed payload size, known without decompressing. */
  function UncompressedSize(r: Record): nat {
    match r.data
    case Raw(bytes) => |bytes|
    case Compressed(_, size) => size
  }

  // --------------------------------------------------------------------------
  // The reference: one walk over all records
  // --------------------------------------------------------------------------

  /** All rows up to the first fatal record. */
  function RowsOf(policy: Policy, rs: seq<Record>): seq<Row> {
    if rs == [] then []
    else
      match VisitOf(policy, rs[0])
      case Fatal(_) => []
      case Yields(rows) => rows + RowsOf(policy, rs[1..])
      case _ => RowsOf(policy, rs[1..])
  }

  function FatalOf(policy: Policy, rs: seq<Record>): Option<Error> {
    if rs == [] then None
    else
      match VisitOf(policy, rs[0])
      case Fatal(error) => Some(error)
      case _ => FatalOf(policy, rs[1..])
  }

  /** The records kept as opaque source, up to the first fatal one. */
  function NotedOf(policy: Policy, rs: seq<Record>): seq<Record> {
    if rs == [] then []
    else
      match VisitOf(policy, rs[0])
      case Fatal(_) => []
      case Noted => [rs[0]] + NotedOf(policy, rs[1..])
      case _ => NotedOf(policy, rs[1..])
  }

  // --------------------------------------------------------------------------
  // The state machine
  // --------------------------------------------------------------------------

  const MAX_RECORDS: nat := 256
  const STRING_LIMIT: nat := 4096
  const BYTE_LIMIT: nat := 0x20_0000

  datatype State = State(remaining: seq<Record>, failed: bool, pending: Option<Error>)

  datatype Reply =
    | Batch(values: seq<Row>, diagnostics: seq<Record>, done: bool)
    | Reported(error: Error)
    | Refused

  /** A batch under construction. */
  datatype Draft = Draft(values: seq<Row>, diagnostics: seq<Record>, bytes: nat)

  /** How the record loop of a batch ends. */
  datatype Ending = Stop(draft: Draft, rest: seq<Record>, done: bool, pending: Option<Error>) | Abort(error: Error, rest: seq<Record>)

  function Collect(policy: Policy, rs: seq<Record>, limit: nat, d: Draft): Ending
    decreases limit
  {
    if limit == 0 then Stop(d, rs, false, None)
    else if rs == [] then Stop(d, rs, true, None)
    else
      match VisitOf(policy, rs[0])
      case Passes => Collect(policy, rs[1..], limit - 1, d)
      case Noted => Collect(policy, rs[1..], limit - 1, d.(diagnostics := d.diagnostics + [rs[0]]))
      case Fatal(error) => if d.values != [] then Stop(d, rs[1..], false, Some(error)) else Abort(error, rs[1..])
      case Yields(rows) =>
        var more := d.(values := d.values + rows, bytes := d.bytes + UncompressedSize(rs[0]));
        if more.bytes >= BYTE_LIMIT || |more.values| >= STRING_LIMIT then Stop(more, rs[1..], false, None)
        else Collect(policy, rs[1..], limit - 1, more)
  }

  const EMPTY := Draft([], [], 0)

  function Next(policy: Policy, s: State, limit: nat): (Reply, State) {
    if s.pending.Some? then (Reported(s.pending.value), s.(pending := None))
    else if !(1 <= limit <= MAX_RECORDS) || s.failed then (Refused, s)
    else
      match Collect(policy, s.remaining, limit, EMPTY)
      case Stop(d, rest, done, pending) => (Batch(d.values, d.diagnostics, done), State(rest, pending.Some?, pending))
      case Abort(error, rest) => (Reported(error), State(rest, true, None))
  }

  /** The replies to a sequence of calls, and the state behind them. */
  function Run(policy: Policy, s: State, limits: seq<nat>): (seq<Reply>, State)
    decreases |limits|
  {
    if limits == [] then ([], s)
    else
      var first := Next(policy, s, limits[0]);
      var later := Run(policy, first.1, limits[1..]);
      ([first.0] + later.0, later.1)
  }

  // --------------------------------------------------------------------------
  // What a cursor still owes its caller
  // --------------------------------------------------------------------------

  function OwedRows(policy: Policy, s: State): seq<Row> {
    if s.failed then [] else RowsOf(policy, s.remaining)
  }

  function OwedError(policy: Policy, s: State): Option<Error> {
    if s.pending.Some? then s.pending else if s.failed then None else FatalOf(policy, s.remaining)
  }

  function OwedNotes(policy: Policy, s: State): seq<Record> {
    if s.failed then [] else NotedOf(policy, s.remaining)
  }

  /** The rows of a batch and those still owed are the rows owed before; an error stays owed until reported. */
  ghost predicate Settles(policy: Policy, rs: seq<Record>, d: Draft, end: Ending) {
    match end
    case Stop(e, rest, done, pending) =>
      var after := State(rest, pending.Some?, pending);
      && d.values + RowsOf(policy, rs) == e.values + OwedRows(policy, after)
      && d.diagnostics + NotedOf(policy, rs) == e.diagnostics + OwedNotes(policy, after)
      && FatalOf(policy, rs) == OwedError(policy, after)
      && (done ==> rest == [] && pending == None)
      && |rest| <= |rs|
    case Abort(error, _) => d.values == [] && RowsOf(policy, rs) == [] && FatalOf(policy, rs) == Some(error)
  }

  lemma {:induction false} CollectSettles(policy: Policy, rs: seq<Record>, limit: nat, d: Draft)
    ensures Settles(policy, rs, d, Collect(policy, rs, limit, d))
    decreases limit
  {
    hide VisitOf, UncompressedSize;
    if limit > 0 && rs != [] {
      match VisitOf(policy, rs[0]) {
        case Passes =>
          CollectSettles(policy, rs[1..], limit - 1, d);
        case Noted =>
          CollectSettles(policy, rs[1..], limit - 1, d.(diagnostics := d.diagnostics + [rs[0]]));
          Assoc(d.diagnostics, [rs[0]], NotedOf(policy, rs[1..]));
        case Fatal(error) =>
        case Yields(rows) =>
          var more := d.(values := d.values + rows, bytes := d.bytes + UncompressedSize(rs[0]));
          Assoc(d.values, rows, RowsOf(policy, rs[1..]));
          CollectSettles(policy, rs[1..], limit - 1, more);
      }
    }
  }

  /** A cursor that has failed has at most its pending error left. */
  ghost predicate Coherent(s: State) {
    s.pending.Some? ==> s.failed
  }

  /** One call: what it returns and what is still owed add up to what was owed. */
  lemma NextSettles(policy: Policy, s: State, limit: nat)
    requires Coherent(s)
    ensures var (reply, after) := Next(policy, s, limit);
            && Coherent(after)
            && (reply.Batch? ==> OwedRows(policy, s) == reply.values + OwedRows(policy, after)
                                 && OwedNotes(policy, s) == reply.diagnostics + OwedNotes(policy, after)
                                 && OwedError(policy, s) == OwedError(policy, after)
                                 && (reply.done ==> after.remaining == [] && !after.failed))
            && (reply.Reported? ==> OwedRows(policy, s) == [] && OwedError(policy, s) == Some(reply.error)
                                    && OwedRows(policy, after) == [] && OwedError(policy, after) == None
                                    && after.failed && after.pending == None)
            && (reply.Refused? ==> after == s)
  {
    hide Collect, RowsOf, NotedOf, FatalOf;
    CollectSettles(policy, s.remaining, limit, EMPTY);
    assert [] + RowsOf(policy, s.remaining) == RowsOf(policy, s.remaining);
    assert [] + NotedOf(policy, s.remaining) == NotedOf(policy, s.remaining);
  }

  // --------------------------------------------------------------------------
  // Whole runs
  // --------------------------------------------------------------------------

  function Delivered(replies: seq<Reply>): seq<Row> {
    if replies == [] then []
    else (if replies[0].Batch? then replies[0].values else []) + Delivered(replies[1..])
  }

  function ReportedErrors(replies: seq<Reply>): seq<Error> {
    if replies == [] then []
    else (if replies[0].Reported? then [replies[0].error] else []) + ReportedErrors(replies[1..])
  }

  function AsList(e: Option<Error>): seq<Error> {
    if e.Some? then [e.value] else []
  }

  /**
   Batch independence: whatever the limits, the rows delivered by a run followed
   by the rows still owed are the rows of one walk, and the errors reported
   followed by the error still owed are the walk's one fatal error, if any.
   */
  lemma {:induction false} RunSettles(policy: Policy, s: State, limits: seq<nat>)
    requires Coherent(s)
    ensures var (replies, after) := Run(policy, s, limits);
            && Coherent(after)
            && Delivered(replies) + OwedRows(policy, after) == OwedRows(policy, s)
            && ReportedErrors(replies) + AsList(OwedError(policy, after)) == AsList(OwedError(policy, s))
    decreases |limits|
  {
    hide Next, OwedRows, OwedError, OwedNotes;
    if limits != [] {
      var (reply, mid) := Next(policy, s, limits[0]);
      NextSettles(policy, s, limits[0]);
      RunSettles(policy, mid, limits[1..]);
      var (later, after) := Run(policy, mid, limits[1..]);
      assert Run(policy, s, limits).0[1..] == later;
      if reply.Batch? {
        Assoc(reply.values, Delivered(later), OwedRows(policy, after));
      }
    }
  }

  /** No reply but a refusal follows once an error has been reported. */
  lemma {:induction false} FailureSticks(policy: Policy, s: State, limits: seq<nat>)
    requires s.failed && s.pending == None
    ensures |Run(policy, s, limits).0| == |limits| && Run(policy, s, limits).1 == s
    ensures forall i :: 0 <= i < |limits| ==> Run(policy, s, limits).0[i] == Refused
    decreases |limits|
  {
    if limits != [] {
      FailureSticks(policy, s, limits[1..]);
    }
  }

  ghost predicate SomeDone(replies: seq<Reply>) {
    exists i :: 0 <= i < |replies| && replies[i].Batch? && replies[i].done
  }

  /** A run that reports `done` has delivered every row, and there was no fatal record. */
  lemma {:induction false} DoneMeansAll(policy: Policy, s: State, limits: seq<nat>)
    requires Coherent(s) && SomeDone(Run(policy, s, limits).0)
    ensures Delivered(Run(policy, s, limits).0) == OwedRows(policy, s)
    ensures OwedError(policy, s) == None
    decreases |limits|
  {
    hide Next, OwedRows, OwedError, OwedNotes;
    var (reply, mid) := Next(policy, s, limits[0]);
    var (later, after) := Run(policy, mid, limits[1..]);
    var replies := Run(policy, s, limits).0;
    NextSettles(policy, s, limits[0]);
    assert replies == [reply] + later && replies[1..] == later;
    var i :| 0 <= i < |replies| && replies[i].Batch? && replies[i].done;
    if reply.Batch? && reply.done {
      Exhausted(policy, mid, limits[1..]);
    } else {
      assert later[i - 1] == replies[i];
      if reply.Reported? {
        FailureSticks(policy, mid, limits[1..]);
        assert false;
      }
      DoneMeansAll(policy, mid, limits[1..]);
    }
  }

  /** With nothing left, only empty batches follow. */
  lemma {:induction false} Exhausted(policy: Policy, s: State, limits: seq<nat>)
    requires s.remaining == [] && !s.failed && s.pending == None
    ensures Delivered(Run(policy, s, limits).0) == [] && OwedRows(policy, s) == [] && OwedError(policy, s) == None
    decreases |limits|
  {
    if limits != [] {
      var (reply, mid) := Next(policy, s, limits[0]);
      assert mid == s;
      Exhausted(policy, s, limits[1..]);
      assert Run(policy, s, limits).0[1..] == Run(policy, mid, limits[1..]).0;
    }
  }

  ghost predicate ValidLimits(limits: seq<nat>) {
    forall i :: 0 <= i < |limits| ==> 1 <= limits[i] <= MAX_RECORDS
  }

  /** A batch that is not the last one consumes at least one record. */
  lemma {:induction false} CollectAdvances(policy: Policy, rs: seq<Record>, limit: nat, d: Draft)
    requires limit > 0
    ensures var end := Collect(policy, rs, limit, d);
            end.Stop? && !end.done ==> |end.rest| < |rs|
    decreases limit
  {
    hide VisitOf, UncompressedSize;
    CollectSettles(policy, rs, limit, d);
    if rs != [] && limit > 1 {
      match VisitOf(policy, rs[0]) {
        case Passes => CollectAdvances(policy, rs[1..], limit - 1, d);
        case Noted => CollectAdvances(policy, rs[1..], limit - 1, d.(diagnostics := d.diagnostics + [rs[0]]));
        case Fatal(_) =>
        case Yields(rows) =>
          CollectAdvances(policy, rs[1..], limit - 1, d.(values := d.values + rows, bytes := d.bytes + UncompressedSize(rs[0])));
      }
    }
  }

  /** A finite number of valid calls, one more than there are records and one for an error, finishes the walk. */
  lemma {:induction false} EnoughCallsFinish(policy: Policy, s: State, limits: seq<nat>)
    requires Coherent(s) && ValidLimits(limits) && (s.failed ==> s.pending.Some?)
    requires |limits| >= (if s.failed then 1 else |s.remaining| + 2)
    ensures SomeDone(Run(policy, s, limits).0) || ReportedErrors(Run(policy, s, limits).0) != []
    decreases |limits|
  {
    hide Collect, RowsOf, NotedOf, FatalOf;
    var (reply, mid) := Next(policy, s, limits[0]);
    var (later, after) := Run(policy, mid, limits[1..]);
    var replies := Run(policy, s, limits).0;
    assert replies == [reply] + later && replies[1..] == later;
    if reply.Batch? && !reply.done {
      CollectAdvances(policy, s.remaining, limits[0], EMPTY);
      assert forall i :: 0 <= i < |limits[1..]| ==> limits[1..][i] == limits[i + 1];
      EnoughCallsFinish(policy, mid, limits[1..]);
      if SomeDone(later) {
        var i :| 0 <= i < |later| && later[i].Batch? && later[i].done;
        assert replies[i + 1] == later[i];
      }
    } else if reply.Batch? {
      assert replies[0] == reply;
    }
  }

  /** The state of a fresh cursor over `rs`. */
  function Fresh(rs: seq<Record>): State {
    State(rs, false, None)
  }

  /**
   Main result: over any sequence of valid limits that is long enough, a fresh
   cursor delivers exactly the rows of the walk up to the first fatal record and
   reports exactly its error, whatever the limits are.
   */
  lemma FullRun(policy: Policy, rs: seq<Record>, limits: seq<nat>)
    requires ValidLimits(limits) && |limits| >= |rs| + 2
    ensures var replies := Run(policy, Fresh(rs), limits).0;
            Delivered(replies) == RowsOf(policy, rs) && ReportedErrors(replies) == AsList(FatalOf(policy, rs))
  {
    hide Run, RowsOf, FatalOf, NotedOf;
    var (replies, after) := Run(policy, Fresh(rs), limits);
    RunSettles(policy, Fresh(rs), limits);
    EnoughCallsFinish(policy, Fresh(rs), limits);
    if SomeDone(replies) {
      DoneMeansAll(policy, Fresh(rs), limits);
    } else {
      assert |ReportedErrors(replies)| >= 1;
      ReportedAll(policy, Fresh(rs), limits);
    }
  }

  /** Once the error is out, every row before it has been delivered. */
  lemma {:induction false} ReportedAll(policy: Policy, s: State, limits: seq<nat>)
    requires Coherent(s) && ReportedErrors(Run(policy, s, limits).0) != []
    ensures Delivered(Run(policy, s, limits).0) == OwedRows(policy, s)
    decreases |limits|
  {
    hide Next, OwedRows, OwedError, OwedNotes;
    var (reply, mid) := Next(policy, s, limits[0]);
    var (later, after) := Run(policy, mid, limits[1..]);
    var replies := Run(policy, s, limits).0;
    NextSettles(policy, s, limits[0]);
    assert replies == [reply] + later && replies[1..] == later;
    if reply.Reported? {
      RunSettles(policy, mid, limits[1..]);
    } else {
      ReportedAll(policy, mid, limits[1..]);
    }
  }
}
