/** What the patcher's output is: the main results about a rewritten plugin. */
module PatchedPlugin {
  import opened Wire
  import opened Records
  import opened Groups
  import opened Ranges
  import opened Games
  import opened Plugins
  import opened Edits
  import opened FastPath
  import opened Marking
  import opened HeaderRewrite
  import opened HeaderReparse
  import opened HeaderTheorem
  import opened Patcher

  // --------------------------------------------------------------------------
  // The fast path over a whole plugin
  // --------------------------------------------------------------------------

  /** The search for reordered groups reaches every order that changes something. */
  ghost predicate TopReached(gs: seq<Group>, e: Edits) {
    forall i :: 0 <= i < |gs| ==> Reached(GroupChild(gs[i]), e, false)
  }

  lemma {:induction false} AllMarksSplit(gs: seq<Group>, e: Edits)
    ensures PatchMarksIn(AsChildren(gs), e.patches) <= AllMarks(gs, e) <= RangesIn(AsChildren(gs))
    decreases |gs|
  {
    hide PatchMarks, OrderMarks, RangesOf;
    if gs != [] {
      assert AsChildren(gs)[1..] == AsChildren(gs[1..]);
      MarksInTree(GroupChild(gs[0]), e, false);
      AllMarksSplit(gs[1..], e);
    }
  }

  lemma {:induction false} CoveredTop(gs: seq<Group>, start: nat, end: nat, e: Edits, touched: set<Range>)
    requires Tiles(AsChildren(gs), start, end)
    requires SameWithin(touched, AllMarks(gs, e), RangesIn(AsChildren(gs)))
    ensures AllCovered(AsChildren(gs), e, touched) <==> TopReached(gs, e)
    decreases |gs|
  {
    hide PatchMarks, OrderMarks, RangesOf, TilesInside, Covered, Reached, SameWithin;
    if gs != [] {
      var cs := AsChildren(gs);
      assert cs[1..] == AsChildren(gs[1..]);
      var c, r := cs[0], RangeOf(cs[0]).value;
      MarksInTree(c, e, false);
      AllMarksSplit(gs[1..], e);
      ChildRangesInside(c, r);
      RangesInside(cs[1..], r.end, end);
      assert RangesOf(c) !! RangesIn(cs[1..]);
      SplitMarks(touched, PatchMarks(c, e.patches) + OrderMarks(c, e.orders, false), RangesOf(c),
                 AllMarks(gs[1..], e), RangesIn(cs[1..]));
      CoveredIffReachedChild(c, r, e, touched, false);
      CoveredTop(gs[1..], r.end, end, e, touched);
      assert TopReached(gs, e) <==> Reached(c, e, false) && TopReached(gs[1..], e) by {
        assert gs == [gs[0]] + gs[1..];
      }
    }
  }

  /**
   Copying unmarked groups verbatim emits the same bytes as re-emitting every
   header and every child, exactly when no order is registered behind the point
   where the search for reordered groups stops. Both always succeed, with the
   same number of bytes.
   */
  lemma FastPathRefines(env: Env, plugin: Plugin, e: Edits)
    requires Parsed(env, plugin) && AllOrdersFit(AsChildren(plugin.groups), e.orders)
    ensures var cs := AsChildren(plugin.groups);
            Matches(ChildrenOut(cs, Job(plugin.source, e, Only(AllMarks(plugin.groups, e)))),
                    ChildrenOut(cs, Job(plugin.source, e, Everything)),
                    TopReached(plugin.groups, e))
  {
    hide AllStandAt, Parsed, ChildrenOut, AllCovered, AllMarks, TopReached, AllOrdersFit, PatchMarksIn, Tiles, RangesIn;
    var cs, touched := AsChildren(plugin.groups), AllMarks(plugin.groups, e);
    var p := plugin.headerRange.end;
    ParsedStands(env, plugin);
    AllMarksSplit(plugin.groups, e);
    PatchMarksCover(p, cs, plugin.source, e.patches, touched);
    FastPathChildren(p, cs, Job(plugin.source, e, Everything), touched);
    StandingTiles(plugin.source, p, cs);
    CoveredTop(plugin.groups, p, p + |ChildrenBytes(cs)|, e, touched);
  }

  /** Record patches alone never meet the gap, nor does a single order. */
  lemma AtMostOneOrderReached(env: Env, plugin: Plugin, e: Edits)
    requires Parsed(env, plugin) && |e.orders.Keys| <= 1
    ensures TopReached(plugin.groups, e)
  {
    hide AllStandAt, Parsed, Tiles, Reached, TilesInside;
    var cs, p := AsChildren(plugin.groups), plugin.headerRange.end;
    ParsedStands(env, plugin);
    StandingTiles(plugin.source, p, cs);
    TilesEach(cs, p, p + |ChildrenBytes(cs)|);
    forall i | 0 <= i < |plugin.groups|
      ensures Reached(GroupChild(plugin.groups[i]), e, false)
    {
      assert cs[i] == GroupChild(plugin.groups[i]);
      if |e.orders.Keys| == 1 {
        SingleOrderReachedChild(cs[i], RangeOf(cs[i]).value, e, false);
      } else {
        NoOrderReached(cs[i], e);
      }
    }
  }

  lemma {:induction false} TilesEach(cs: seq<Child>, start: nat, end: nat)
    requires Tiles(cs, start, end)
    ensures forall i :: 0 <= i < |cs| ==>
              RangeOf(cs[i]).Some? && var r := RangeOf(cs[i]).value; r.start + 24 <= r.end && TilesInside(cs[i], r)
    decreases |cs|
  {
    hide TilesInside;
    if cs != [] {
      TilesEach(cs[1..], RangeOf(cs[0]).value.end, end);
      assert cs == [cs[0]] + cs[1..];
    }
  }

  lemma NoOrderReached(c: Child, e: Edits)
    requires |e.orders.Keys| == 0
    ensures Reached(c, e, false)
    decreases c, 0
  {
    if c.GroupChild? {
      NoOrderReachedIn(c.group.children, e, false);
      NoOrders(c, e);
    }
  }

  lemma NoOrderReachedIn(cs: seq<Child>, e: Edits, skipped: bool)
    requires |e.orders.Keys| == 0 && !skipped
    ensures AllReached(cs, e, skipped)
    decreases cs, 0
  {
    if cs != [] {
      NoOrderReached(cs[0], e);
      OrderInTree(cs[0], e.orders);
      NoOrderReachedIn(cs[1..], e, skipped);
    }
  }

  lemma NoOrders(c: Child, e: Edits)
    requires |e.orders.Keys| == 0
    ensures forall r: Range :: r !in e.orders
  {
  }

  // --------------------------------------------------------------------------
  // The output reparses as the edited tree
  // --------------------------------------------------------------------------

  /** Every re-emitted top-level group keeps to the 32-bit size field. */
  ghost predicate SizesFit(gs: seq<Group>, e: Edits) {
    forall i :: 0 <= i < |gs| ==> |ChildBytes(EditedChild(GroupChild(gs[i]), e))| < 0x1_0000_0000
  }

  /** Edits the patcher can carry out completely. */
  ghost predicate Workable(plugin: Plugin, e: Edits) {
    && ExactPatches(e.patches)
    && AllOrdersFit(AsChildren(plugin.groups), e.orders)
    && SizesFit(plugin.groups, e)
    && TopReached(plugin.groups, e)
  }

  ghost function AsGroups(cs: seq<Child>): (gs: seq<Group>)
    requires forall i :: 0 <= i < |cs| ==> cs[i].GroupChild?
    ensures |gs| == |cs| && AsChildren(gs) == cs
  {
    seq(|cs|, i requires 0 <= i < |cs| => cs[i].group)
  }

  lemma {:induction false} EditedGroupsStayGroups(gs: seq<Group>, e: Edits, p: nat)
    ensures var l := LocateChildren(EditedChildren(AsChildren(gs), e), p);
            |l| == |gs| && forall i :: 0 <= i < |l| ==> l[i].GroupChild?
    decreases |gs|
  {
    hide EditedGroup, ChildBytes;
    if gs != [] {
      var cs := AsChildren(gs);
      var edited := EditedChildren(cs, e);
      assert cs[1..] == AsChildren(gs[1..]);
      assert edited[0].GroupChild? && edited[1..] == EditedChildren(cs[1..], e);
      EditedGroupsStayGroups(gs[1..], e, p + |ChildBytes(edited[0])|);
      assert LocateChild(edited[0], p) == GroupChild(LocateGroup(edited[0].group, p));
    }
  }

  /** The top-level groups after the edits, located behind a header of `p` bytes. */
  ghost function PatchedGroups(plugin: Plugin, e: Edits, p: nat): seq<Group> {
    EditedGroupsStayGroups(plugin.groups, e, p);
    AsGroups(LocateChildren(EditedChildren(AsChildren(plugin.groups), e), p))
  }

  /**
   The emitted groups are the printed edited tree, and behind any header they
   parse as that tree: every record with a patch replaced at every depth, the
   requested order in every reordered group, every group size recomputed.
   */
  lemma GroupsReparse(env: Env, plugin: Plugin, e: Edits, header: Bytes)
    requires Parsed(env, plugin) && Workable(plugin, e)
    ensures var cs := AsChildren(plugin.groups);
            var out := ChildrenOut(cs, Job(plugin.source, e, Only(AllMarks(plugin.groups, e))));
            out == Ok(ChildrenBytes(EditedChildren(cs, e)))
            && TopGroupsAt(header + out.value, |header|) == Ok(PatchedGroups(plugin, e, |header|))
  {
    hide AllStandAt, Parsed, ChildrenOut, AllMarks, TopReached, AllOrdersFit, ExactPatches, EditedChildren,
         LocateChildren, ChildrenBytes, ChildrenOk, TopGroupsAt, ChildBytes, EditedChild;
    var cs, job := AsChildren(plugin.groups), Job(plugin.source, e, Everything);
    var edited, p := EditedChildren(cs, e), |header|;
    ParsedStands(env, plugin);
    FastPathRefines(env, plugin, e);
    ChildrenOutEdited(plugin.headerRange.end, cs, job);
    EditedChildrenOk(plugin.headerRange.end, cs, job);
    var s := header + ChildrenBytes(edited);
    EditedGroupsStayGroups(plugin.groups, e, p);
    var located := LocateChildren(edited, p);
    LocateKeeps(edited, p);
    assert s[p..p + |ChildrenBytes(edited)|] == ChildrenBytes(edited);
    PrintedStands(s, p, located);
    TopGroupsInverse(s, p, PatchedGroups(plugin, e, p));
  }

  lemma PrintedStands(s: Bytes, p: nat, located: seq<Child>)
    requires ChildrenOk(located) && Holds(s, p, ChildrenBytes(located)) && LocateChildren(located, p) == located
    ensures AllStandAt(s, p, located)
  {
  }

  /** Whether the output needs a new header at all. */
  ghost predicate Rewrites(plugin: Plugin, e: Edits, patch: Option<HeaderPatch>) {
    patch.Some? || AllMarks(plugin.groups, e) != {}
  }

  /**
   Main result: what the patcher writes parses, as a plugin with the edited
   groups and with a header whose counters describe them.
   */
  lemma OutputReparses(env: Env, plugin: Plugin, e: Edits, patch: Option<HeaderPatch>)
    requires Parsed(env, plugin) && Workable(plugin, e) && Rewrites(plugin, e, patch)
    requires UpdatedHeaderOf(env, plugin, patch.GetOr(NO_PATCH)).Ok?
    requires TextsFit(patch.GetOr(NO_PATCH).masters, patch.GetOr(NO_PATCH).description)
    ensures var out := WholeOut(env, plugin, e, patch);
            var header := UpdatedHeaderOf(env, plugin, patch.GetOr(NO_PATCH)).value;
            out.Ok?
            && PluginOf(env, plugin.game, out.value)
               == Ok(Plugin(out.value, plugin.game, UpdatedHeader(env, plugin, patch.GetOr(NO_PATCH)),
                            Range(0, |header|), PatchedGroups(plugin, e, |header|)))
  {
    hide Parsed, ChildrenOut, AllMarks, UpdatedHeaderOf, UpdatedRecord, UpdatedHeader, PatchedGroups, HeaderOf,
         RecordAt, TopGroupsAt, TextsFit, EditedChildren, ChildrenBytes, Workable;
    var header := UpdatedHeaderOf(env, plugin, patch.GetOr(NO_PATCH)).value;
    GroupsReparse(env, plugin, e, header);
    HeaderReadsBack(env, plugin, patch.GetOr(NO_PATCH));
    var groups := ChildrenBytes(EditedChildren(AsChildren(plugin.groups), e));
    HeaderRecordReparse(env, plugin, patch.GetOr(NO_PATCH), groups);
  }

  /** Without a marked group and without a header patch the output is the source. */
  lemma UnmarkedOutput(env: Env, plugin: Plugin, e: Edits)
    requires Parsed(env, plugin) && AllMarks(plugin.groups, e) == {}
    ensures WholeOut(env, plugin, e, None) == Ok(plugin.source)
  {
    hide Parsed, ChildrenOut, ChildrenBytes, AllStandAt, RecordBytes;
    ParsedHeaderRecord(env, plugin);
    ParsedStands(env, plugin);
    UnmarkedGroups(plugin.headerRange.end, AsChildren(plugin.groups), Job(plugin.source, e, Only({})));
  }

  lemma {:induction false} UnmarkedGroups(p: nat, cs: seq<Child>, job: Job)
    requires AllStandAt(job.source, p, cs) && job.walk == Only({})
    requires forall i :: 0 <= i < |cs| ==> cs[i].GroupChild?
    ensures ChildrenOut(cs, job) == Ok(ChildrenBytes(cs))
    decreases |cs|
  {
    hide StandsAt, AllStandAt, GroupBytes;
    if cs != [] {
      StandingList(job.source, p, cs);
      StandingGroup(job.source, p, cs[0].group);
      assert !Walks(cs[0].group, job.walk);
      assert ChildOut(cs[0], job) == Ok(GroupBytes(cs[0].group));
      UnmarkedGroups(p + |ChildBytes(cs[0])|, cs[1..], job);
    }
  }
}
