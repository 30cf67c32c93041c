/**
 What a full run of the string cursor delivers, in terms of the decoder and the
 creation flags alone.
 */
module BatchMeaning {
  import opened Wire
  import opened Records
  import opened StringBatches
  import opened Diagnostics

  // --------------------------------------------------------------------------
  // Records by what the decoder says of them
  // --------------------------------------------------------------------------

  predicate IsTextFree(policy: Policy, r: Record) {
    r.header.signature in policy.textFree
  }

  /** Not even decoded: records without text are only looked at to validate them. */
  predicate IsSkipped(policy: Policy, r: Record) {
    IsTextFree(policy, r) && !policy.validateNontext
  }

  function Decode(policy: Policy, r: Record): Decoded {
    policy.decode(r, IsTextFree(policy, r))
  }

  /** Broken, but without text and to be kept as opaque source. */
  predicate IsPreserved(policy: Policy, r: Record) {
    IsTextFree(policy, r) && policy.validateNontext && policy.preserveOpaqueNontext && Decode(policy, r).Broken?
  }

  /** Broken, and neither skipped nor preserved. */
  predicate EndsWalk(policy: Policy, r: Record) {
    Decode(policy, r).Broken? && !IsSkipped(policy, r) && !IsPreserved(policy, r)
  }

  /** The first `n` records, and no fewer, come before the end of the walk. */
  ghost predicate WalkEnds(policy: Policy, rs: seq<Record>, n: int) {
    && 0 <= n <= |rs|
    && (forall i :: 0 <= i < n ==> !EndsWalk(policy, rs[i]))
    && (n < |rs| ==> EndsWalk(policy, rs[n]))
  }

  /** The rows of the decoded records, in order. */
  function Extracted(policy: Policy, rs: seq<Record>): seq<Row> {
    if rs == [] then []
    else (if !IsSkipped(policy, rs[0]) && Decode(policy, rs[0]).Rows? then Decode(policy, rs[0]).rows else [])
         + Extracted(policy, rs[1..])
  }

  function Preserved(policy: Policy, rs: seq<Record>): seq<Record> {
    if rs == [] then []
    else (if IsPreserved(policy, rs[0]) then [rs[0]] else []) + Preserved(policy, rs[1..])
  }

  function EndError(policy: Policy, rs: seq<Record>, n: nat): seq<Error> {
    if n < |rs| && Decode(policy, rs[n]).Broken? then [Decode(policy, rs[n]).error] else []
  }

  lemma VisitMeaning(policy: Policy, r: Record)
    ensures var visit, decoded := VisitOf(policy, r), Decode(policy, r);
            && (visit.Fatal? <==> EndsWalk(policy, r))
            && (visit.Noted? <==> IsPreserved(policy, r))
            && (visit.Yields? <==> !IsSkipped(policy, r) && decoded.Rows?)
            && (visit.Fatal? ==> decoded == Broken(visit.error))
            && (visit.Yields? ==> decoded == Rows(visit.rows))
  {
  }

  lemma {:induction false} WalkMeaning(policy: Policy, rs: seq<Record>, n: nat)
    requires WalkEnds(policy, rs, n)
    ensures RowsOf(policy, rs) == Extracted(policy, rs[..n])
    ensures NotedOf(policy, rs) == Preserved(policy, rs[..n])
    ensures AsList(FatalOf(policy, rs)) == EndError(policy, rs, n)
    decreases n
  {
    hide VisitOf, IsSkipped, IsPreserved, EndsWalk, Decode;
    if rs != [] {
      VisitMeaning(policy, rs[0]);
    }
    if n > 0 {
      assert forall i :: 0 <= i < |rs| - 1 ==> rs[1..][i] == rs[i + 1];
      WalkMeaning(policy, rs[1..], n - 1);
      assert rs[..n][0] == rs[0] && rs[..n][1..] == rs[1..][..n - 1];
    }
  }

  // --------------------------------------------------------------------------
  // Full runs
  // --------------------------------------------------------------------------

  lemma Prefix<T>(a: seq<T>, b: seq<T>, c: seq<T>)
    requires a + b == c
    ensures a <= c && (b == [] ==> a == c)
  {
  }

  /**
   Main result: whatever the valid limits, a full run delivers the rows of the
   records before the end of the walk, reports the error that ended it, and
   delivers no diagnostics but those of preserved records, in order; all of them
   if nothing ended the walk.
   */
  lemma RunMeaning(policy: Policy, rs: seq<Record>, limits: seq<nat>, n: nat)
    requires ValidLimits(limits) && |limits| >= |rs| + 2 && WalkEnds(policy, rs, n)
    ensures var replies := Run(policy, Fresh(rs), limits).0;
            && Delivered(replies) == Extracted(policy, rs[..n])
            && ReportedErrors(replies) == EndError(policy, rs, n)
            && Diagnosed(replies) <= Preserved(policy, rs[..n])
            && (n == |rs| ==> Diagnosed(replies) == Preserved(policy, rs[..n]))
  {
    hide Run, LostNotes, RowsOf, FatalOf, NotedOf, Diagnosed, Delivered, ReportedErrors, Extracted, Preserved, AlwaysDiagnosed,
         FatalInReach, FatalAt;
    WalkMeaning(policy, rs, n);
    FullRun(policy, rs, limits);
    FullRunDiagnoses(policy, rs, limits);
    Prefix(Diagnosed(Run(policy, Fresh(rs), limits).0), LostNotes(policy, Fresh(rs), limits), NotedOf(policy, rs));
    if n == |rs| {
      assert FatalOf(policy, rs) == None;
      NeverFatal(policy, rs);
      SafeRunLosesNothing(policy, Fresh(rs), limits);
    }
  }

  lemma NeverFatal(policy: Policy, rs: seq<Record>)
    requires FatalOf(policy, rs) == None
    ensures NothingLosable(policy, rs)
  {
    hide RowsOf, VisitOf, CountedBytes;
    forall i | 0 <= i < FatalAt(policy, rs)
      ensures !FatalInReach(policy, rs[i..])
    {
      NoFatalBehind(policy, rs, i);
    }
  }

  lemma {:induction false} NoFatalBehind(policy: Policy, rs: seq<Record>, i: nat)
    requires FatalOf(policy, rs) == None && i <= |rs|
    ensures FatalOf(policy, rs[i..]) == None
    decreases i
  {
    hide VisitOf;
    if i == 0 {
      assert rs[0..] == rs;
    } else {
      NoFatalBehind(policy, rs[1..], i - 1);
      assert rs[1..][i - 1..] == rs[i..];
    }
  }

  /** The rows of all records, for records that all decode. */
  function AllRows(policy: Policy, rs: seq<Record>): seq<Row>
    requires forall r :: r in rs ==> Decode(policy, r).Rows?
  {
    if rs == [] then [] else Decode(policy, rs[0]).rows + AllRows(policy, rs[1..])
  }

  lemma {:induction false} ExtractsAll(policy: Policy, rs: seq<Record>)
    requires forall r :: r in rs ==> Decode(policy, r).Rows? && !IsSkipped(policy, r)
    ensures Extracted(policy, rs) == AllRows(policy, rs)
    decreases |rs|
  {
    hide IsSkipped, Decode;
    if rs != [] {
      ExtractsAll(policy, rs[1..]);
    }
  }

  /**
   No text is lost: without types that count as text-free, or if those are
   validated strictly, a full run delivers the decoded rows of every record
   before the first broken one and reports what is wrong with that.
   */
  lemma EverythingDelivered(policy: Policy, rs: seq<Record>, limits: seq<nat>, n: nat)
    requires ValidLimits(limits) && |limits| >= |rs| + 2
    requires (forall r :: r in rs ==> r.header.signature !in policy.textFree)
             || (policy.validateNontext && !policy.preserveOpaqueNontext)
    requires n <= |rs| && (n < |rs| ==> Decode(policy, rs[n]).Broken?)
    requires forall r :: r in rs[..n] ==> Decode(policy, r).Rows?
    ensures var replies := Run(policy, Fresh(rs), limits).0;
            Delivered(replies) == AllRows(policy, rs[..n])
            && ReportedErrors(replies) == if n < |rs| then [Decode(policy, rs[n]).error] else []
  {
    hide Run, Delivered, ReportedErrors, Extracted, AllRows, Decode, Diagnosed;
    forall i | 0 <= i < n
      ensures !EndsWalk(policy, rs[i])
    {
      assert rs[..n][i] == rs[i];
    }
    assert n < |rs| ==> rs[n] in rs;
    RunMeaning(policy, rs, limits, n);
    forall r | r in rs[..n]
      ensures !IsSkipped(policy, r)
    {
      assert r in rs;
    }
    ExtractsAll(policy, rs[..n]);
  }

  /**
   Skipping is harmless: if the types taken for text-free decode to no rows at
   all, it makes no difference to rows and errors whether they are validated.
   */
  lemma SkippingIsHarmless(policy: Policy, rs: seq<Record>, limits: seq<nat>, others: seq<nat>)
    requires ValidLimits(limits) && |limits| >= |rs| + 2 && ValidLimits(others) && |others| >= |rs| + 2
    requires forall r :: r in rs && r.header.signature in policy.textFree ==> policy.decode(r, true) == Rows([])
    ensures var validating, skipping := policy.(validateNontext := true), policy.(validateNontext := false);
            var a, b := Run(validating, Fresh(rs), limits).0, Run(skipping, Fresh(rs), others).0;
            Delivered(a) == Delivered(b) && ReportedErrors(a) == ReportedErrors(b)
  {
    hide Run, RowsOf, FatalOf, Delivered, ReportedErrors;
    var validating, skipping := policy.(validateNontext := true), policy.(validateNontext := false);
    FullRun(validating, rs, limits);
    FullRun(skipping, rs, others);
    SameWalk(validating, skipping, rs);
  }

  lemma {:induction false} SameWalk(a: Policy, b: Policy, rs: seq<Record>)
    requires a.decode == b.decode && a.textFree == b.textFree
    requires forall r :: r in rs && r.header.signature in a.textFree ==> a.decode(r, true) == Rows([])
    requires a.preserveOpaqueNontext == b.preserveOpaqueNontext
    ensures RowsOf(a, rs) == RowsOf(b, rs) && FatalOf(a, rs) == FatalOf(b, rs)
    decreases |rs|
  {
    if rs != [] {
      SameWalk(a, b, rs[1..]);
      assert rs[0] in rs;
    }
  }

  /** What becomes of one broken record: skipped, kept as a diagnostic, or the end of the walk. */
  lemma BrokenRecord(policy: Policy, r: Record, limits: seq<nat>)
    requires ValidLimits(limits) && |limits| >= 3
    requires policy.decode(r, r.header.signature in policy.textFree).Broken?
    ensures var replies := Run(policy, Fresh([r]), limits).0;
            var free, error := r.header.signature in policy.textFree, policy.decode(r, r.header.signature in policy.textFree).error;
            && Delivered(replies) == []
            && (Diagnosed(replies) == [r] <==> free && policy.validateNontext && policy.preserveOpaqueNontext)
            && (ReportedErrors(replies) == [error] <==> !free || (policy.validateNontext && !policy.preserveOpaqueNontext))
            && (Diagnosed(replies) == [] || ReportedErrors(replies) == [])
  {
    hide Run, Delivered, ReportedErrors, Diagnosed;
    var n := if EndsWalk(policy, r) then 0 else 1;
    RunMeaning(policy, [r], limits, n);
    assert [r][..0] == [] && [r][..1] == [r] && [r][1..] == [];
  }

  // --------------------------------------------------------------------------
  // How far one batch goes
  // --------------------------------------------------------------------------

  /** The uncompressed payload bytes of the decoded records, as their data blocks announce them. */
  function PayloadBytes(policy: Policy, rs: seq<Record>): nat {
    if rs == [] then 0
    else (if IsSkipped(policy, rs[0]) || Decode(policy, rs[0]).Broken? then 0
          else match rs[0].data
               case Raw(bytes) => |bytes|
               case Compressed(_, announced) => announced)
         + PayloadBytes(policy, rs[1..])
  }

  /** With these rows and bytes a batch is not full yet. */
  predicate NotFull(rows: nat, bytes: nat) {
    rows < 4096 && bytes < 0x20_0000
  }

  /** A batch that has taken the records `taken` ends for a reason, and not earlier. */
  ghost predicate EndsInTime(policy: Policy, taken: seq<Record>, limit: nat, d: Draft, end: Ending)
    requires end.Stop?
  {
    && |taken| <= limit
    && end.draft.values == d.values + Extracted(policy, taken)
    && (!end.done && end.pending.None? && |taken| < limit ==>
          !NotFull(|d.values + Extracted(policy, taken)|, d.bytes + PayloadBytes(policy, taken)))
    && (taken != [] ==> NotFull(|d.values + Extracted(policy, taken[..|taken| - 1])|,
                                d.bytes + PayloadBytes(policy, taken[..|taken| - 1])))
  }

  lemma OneTaken(policy: Policy, r: Record, rest: seq<Record>)
    ensures Extracted(policy, [r] + rest)
         == (if !IsSkipped(policy, r) && Decode(policy, r).Rows? then Decode(policy, r).rows else []) + Extracted(policy, rest)
    ensures PayloadBytes(policy, [r] + rest)
         == (if IsSkipped(policy, r) || Decode(policy, r).Broken? then 0 else UncompressedSize(r)) + PayloadBytes(policy, rest)
  {
    hide IsSkipped, Decode;
    assert ([r] + rest)[1..] == rest;
  }

  /** Records taken before the batch of the rest begins count for the whole batch. */
  lemma TakenBehind(policy: Policy, r: Record, taken: seq<Record>, limit: nat, d: Draft, more: Draft, end: Ending)
    requires end.Stop? && limit > 0 && EndsInTime(policy, taken, limit - 1, more, end)
    requires NotFull(|d.values|, d.bytes)
    requires more.values == d.values + Extracted(policy, [r]) && more.bytes == d.bytes + PayloadBytes(policy, [r])
    ensures EndsInTime(policy, [r] + taken, limit, d, end)
  {
    hide NotFull;
    var all := [r] + taken;
    OneTaken(policy, r, taken);
    OneTaken(policy, r, []);
    assert [r] + [] == [r];
    hide Extracted, PayloadBytes;
    Assoc(d.values, Extracted(policy, [r]), Extracted(policy, taken));
    if taken != [] {
      var init := taken[..|taken| - 1];
      assert all[..|all| - 1] == [r] + init;
      OneTaken(policy, r, init);
      Assoc(d.values, Extracted(policy, [r]), Extracted(policy, init));
    } else {
      assert all[..|all| - 1] == [];
      Nothing(policy);
      assert d.values + [] == d.values;
    }
  }

  lemma Nothing(policy: Policy)
    ensures Extracted(policy, []) == [] && PayloadBytes(policy, []) == 0
  {
  }

  lemma {:induction false} CollectEnds(policy: Policy, rs: seq<Record>, limit: nat, d: Draft) returns (c: nat)
    requires NotFull(|d.values|, d.bytes)
    ensures var end := Collect(policy, rs, limit, d);
            end.Stop? ==> c <= |rs| && end.rest == rs[c..] && EndsInTime(policy, rs[..c], limit, d, end)
    decreases limit
  {
    hide VisitOf, UncompressedSize, EndsInTime, IsSkipped, IsPreserved, EndsWalk, Decode;
    c := 0;
    assert rs[..0] == [];
    StopsAtOnce(policy, limit, d);
    if limit > 0 && rs != [] {
      var r := rs[0];
      VisitMeaning(policy, r);
      OneTaken(policy, r, []);
      Nothing(policy);
      assert [r] + [] == [r] && rs[..1] == [r];
      var visit := VisitOf(policy, r);
      var more := match visit
                  case Noted => d.(diagnostics := d.diagnostics + [r])
                  case Yields(rows) => d.(values := d.values + rows, bytes := d.bytes + UncompressedSize(r))
                  case _ => d;
      assert more.values == d.values + Extracted(policy, [r]);
      if visit.Fatal? || (visit.Yields? && !NotFull(|more.values|, more.bytes)) {
        c := 1;
        if Collect(policy, rs, limit, d).Stop? {
          StopsAfterOne(policy, r, limit, d, Collect(policy, rs, limit, d));
        }
      } else {
        var k := CollectEnds(policy, rs[1..], limit - 1, more);
        if Collect(policy, rs, limit, d).Stop? {
          c := k + 1;
          assert rs[..c] == [r] + rs[1..][..k];
          TakenBehind(policy, r, rs[1..][..k], limit, d, more, Collect(policy, rs, limit, d));
        }
      }
    }
  }

  lemma StopsAtOnce(policy: Policy, limit: nat, d: Draft)
    ensures EndsInTime(policy, [], limit, d, Stop(d, [], true, None))
    ensures forall rest :: limit == 0 ==> EndsInTime(policy, [], limit, d, Stop(d, rest, false, None))
  {
    Nothing(policy);
    assert d.values + [] == d.values;
  }

  lemma StopsAfterOne(policy: Policy, r: Record, limit: nat, d: Draft, end: Ending)
    requires limit > 0 && NotFull(|d.values|, d.bytes)
    requires end.Stop? && end.draft.values == d.values + Extracted(policy, [r])
    requires end.done || end.pending.Some?
             || !NotFull(|d.values + Extracted(policy, [r])|, d.bytes + PayloadBytes(policy, [r]))
    ensures EndsInTime(policy, [r], limit, d, end)
  {
    hide NotFull;
    Nothing(policy);
    assert [r][..0] == [] && d.values + [] == d.values;
  }

  /**
   One call takes at most as many records as it was asked for, and no more than
   256; it stops earlier only at the end, at a fatal record, or once it has 4096
   rows or 2 MiB of payload, which it did not have before the last record.
   */
  lemma BatchEnds(policy: Policy, s: State, limit: nat) returns (taken: seq<Record>)
    requires Coherent(s)
    ensures var (reply, after) := Next(policy, s, limit);
            && (reply.Batch? ==>
                  && !s.failed && 1 <= limit <= 256
                  && s.remaining == taken + after.remaining && |taken| <= limit
                  && reply.values == Extracted(policy, taken)
                  && (!reply.done && after.pending.None? && |taken| < limit ==>
                        |reply.values| >= 4096 || PayloadBytes(policy, taken) >= 0x20_0000)
                  && (taken != [] ==> |Extracted(policy, taken[..|taken| - 1])| < 4096
                                      && PayloadBytes(policy, taken[..|taken| - 1]) < 0x20_0000))
            && (reply.Refused? <==> s.pending.None? && (s.failed || limit == 0 || limit > 256))
  {
    hide Collect, Extracted, PayloadBytes;
    var c := CollectEnds(policy, s.remaining, limit, EMPTY);
    taken := if c <= |s.remaining| then s.remaining[..c] else [];
    assert [] + Extracted(policy, taken) == Extracted(policy, taken);
    if taken != [] {
      var init := Extracted(policy, taken[..|taken| - 1]);
      assert [] + init == init;
    }
  }
}
