/**
 The search for reordered groups stops at the first reordered sibling. What
 that loses, in general and in a concrete plugin.
 */
module OrderGap {
  import opened Wire
  import opened Records
  import opened Subrecords
  import opened Groups
  import opened Games
  import opened Plugins
  import opened Edits
  import opened FastPath
  import opened Marking
  import opened HeaderTheorem
  import opened Patcher
  import opened PatchedPlugin
  import opened EditMeaning

  /** A group holding a registered order in child `i` and a changing one in the later child group `j`. */
  ghost predicate SecondOrder(g: Group, i: nat, j: nat, e: Edits) {
    && i < j < |g.children|
    && HasOrder(g.children[i], e.orders)
    && g.children[j].GroupChild?
    && Changes(g.children[j].group, e.orders)
    && !AnyPatched(g.children[j].group.children, e.patches)
  }

  /** The later of two reordered siblings is never reached unless a patch marks it. */
  lemma SecondOrderMissed(g: Group, i: nat, j: nat, e: Edits)
    requires SecondOrder(g, i, j, e)
    ensures !Reached(GroupChild(g), e, false)
  {
    MissedIn(g.children, i, j, e, false);
  }

  lemma {:induction false} MissedIn(cs: seq<Child>, i: nat, j: nat, e: Edits, skipped: bool)
    requires i < j < |cs| && (skipped || HasOrder(cs[i], e.orders))
    requires cs[j].GroupChild? && Changes(cs[j].group, e.orders) && !AnyPatched(cs[j].group.children, e.patches)
    ensures !AllReached(cs, e, skipped)
    decreases |cs|
  {
    hide HasOrder, Changes;
    if j == 1 {
      assert cs[1..][0] == cs[1];
      assert i == 0;
      assert !Reached(cs[1], e, true);
    } else if i == 0 {
      assert cs[1..][j - 1] == cs[j];
      MissedIn(cs[1..], 0, j - 1, e, true);
    } else {
      assert cs[1..][j - 1] == cs[j] && cs[1..][i - 1] == cs[i];
      MissedIn(cs[1..], i - 1, j - 1, e, skipped || HasOrder(cs[0], e.orders));
    }
  }

  /**
   Two accepted orders for sibling groups, no patch: the bytes the patcher
   emits for the groups are not those of the requested tree.
   */
  lemma SecondOrderLost(env: Env, plugin: Plugin, e: Edits, top: nat, i: nat, j: nat)
    requires Parsed(env, plugin) && AllOrdersFit(AsChildren(plugin.groups), e.orders) && ExactPatches(e.patches)
    requires top < |plugin.groups| && SecondOrder(plugin.groups[top], i, j, e)
    ensures var cs := AsChildren(plugin.groups);
            var out := ChildrenOut(cs, Job(plugin.source, e, Only(AllMarks(plugin.groups, e))));
            out.Ok? && out.value != ChildrenBytes(EditedChildren(cs, e))
  {
    hide AllStandAt, Parsed, ChildrenOut, AllMarks, AllOrdersFit, ExactPatches, EditedChildren, ChildrenBytes, Reached,
         SecondOrder;
    SecondOrderMissed(plugin.groups[top], i, j, e);
    FastPathRefines(env, plugin, e);
    ParsedStands(env, plugin);
    ChildrenOutEdited(plugin.headerRange.end, AsChildren(plugin.groups), Job(plugin.source, e, Everything));
  }

  // --------------------------------------------------------------------------
  // A concrete plugin
  // --------------------------------------------------------------------------

  const MISC: Signature := [0x4D, 0x49, 0x53, 0x43]
  const LABELLED: GroupLabel := SignatureLabel(MISC)

  function Empty(id: FormId, p: nat): Child {
    RecordChild(Record(RecordHeader(MISC, 0, 0, id, 0, 0, 0), Some(Range(p, p + 24)), Raw([])))
  }

  /** A group of the two empty records `id` and `id + 1` at offset `p`. */
  function Pair(id: nat, p: nat): Group
    requires id < 0x1000
  {
    Group(GroupHeader(72, LABELLED, Normal, 0, 0), Some(Range(p, p + 72)), [Empty(id, p + 24), Empty(id + 1, p + 48)])
  }

  function Pairs(p: nat): Group {
    Group(GroupHeader(168, LABELLED, Normal, 0, 0), Some(Range(p, p + 168)),
          [GroupChild(Pair(1, p + 24)), GroupChild(Pair(3, p + 96))])
  }

  function Swapped(p: nat): Edits {
    Edits(map[], map[Range(p + 24, p + 96) := [2, 1], Range(p + 96, p + 168) := [4, 3]])
  }

  lemma EmptyStands(id: FormId, p: nat)
    ensures |ChildBytes(Empty(id, p))| == 24 && ChildOk(Empty(id, p)) && LocateChild(Empty(id, p), p) == Empty(id, p)
  {
    hide HeaderBytes;
    assert Empty(id, p).record.header.signature[0] != GRUP[0];
  }

  lemma PairStands(id: nat, p: nat)
    requires id < 0x1000
    ensures var c := GroupChild(Pair(id, p)); |ChildBytes(c)| == 72 && ChildOk(c) && LocateChild(c, p) == c
  {
    hide RecordBytes, RecordOk, GroupHeaderBytes;
    var g := Pair(id, p);
    var a, b := Empty(id, p + 24), Empty(id + 1, p + 48);
    EmptyStands(id, p + 24);
    EmptyStands(id + 1, p + 48);
    TwoStand(a, b, p + 24);
    assert |GroupBytes(g)| == 72;
    assert GroupOk(g);
    assert LocateGroup(g, p) == g;
  }

  lemma TwoStand(a: Child, b: Child, p: nat)
    requires ChildOk(a) && ChildOk(b) && LocateChild(a, p) == a && LocateChild(b, p + |ChildBytes(a)|) == b
    ensures ChildrenOk([a, b]) && LocateChildren([a, b], p) == [a, b]
    ensures |ChildrenBytes([a, b])| == |ChildBytes(a)| + |ChildBytes(b)|
  {
    hide ChildOk, LocateChild, ChildBytes;
    assert [a, b][1..] == [b] && [b][1..] == [];
    assert ChildrenOk([]);
    assert ChildrenOk([b]);
    assert ChildrenBytes([b]) == ChildBytes(b) + ChildrenBytes([]);
    assert ChildrenBytes([a, b]) == ChildBytes(a) + ChildrenBytes([b]);
    assert LocateChildren([b], p + |ChildBytes(a)|) == [b];
    assert LocateChildren([a, b], p) == [a] + [b];
  }

  lemma PairsStand(p: nat)
    ensures var c := GroupChild(Pairs(p)); |ChildBytes(c)| == 168 && ChildOk(c) && LocateChild(c, p) == c
  {
    hide ChildrenBytes, ChildrenOk, LocateChildren, GroupHeaderBytes;
    var g := Pairs(p);
    PairStands(1, p + 24);
    PairStands(3, p + 96);
    TwoStand(g.children[0], g.children[1], p + 24);
    assert |GroupBytes(g)| == 168;
    assert GroupOk(g);
    assert LocateGroup(g, p) == g;
  }

  const ZEROS: Bytes := [0, 0, 0, 0, 0, 0, 0, 0, 0, 0, 0, 0]
  const HEADER_DATA: Bytes := SubRecordBytes(SubRecord(HEDR, ZEROS))
  const HEADER_RECORD: Record := Record(RecordHeader(TES4, 18, 0, 0, 0, 0, 0), None, Raw(HEADER_DATA))

  /** The header record of the example and what it says. */
  lemma ExampleHeader(env: Env)
    ensures RecordOk(HEADER_RECORD) && |RecordBytes(HEADER_RECORD)| == 42
    ensures SubrecordsIn(env, HEADER_RECORD) == Ok([SubRecord(HEDR, ZEROS)])
    ensures HeaderOf(env, SkyrimSE, HEADER_RECORD)
         == Ok(PluginHeader(HEADER_RECORD, Some([0, 0, 0, 0]), 0, 0, [], None))
  {
    hide HeaderBytes, FramesOf;
    var sub := SubRecord(HEDR, ZEROS);
    assert [sub][1..] == [];
    assert SubRecordsBytes([sub]) == HEADER_DATA + [] == HEADER_DATA;
    assert HEDR[0] != XXXX[0];
    WrittenSubRecordsParse([sub]);
    assert TES4[0] != GRUP[0];
    assert HEDR[0] != MAST[0] && HEDR[0] != SNAM[0];
    assert First([sub], HEDR) == Some(sub) && First([sub], SNAM) == First([], SNAM);
    assert Texts(env, [sub], MAST) == Texts(env, [], MAST);
    assert ZEROS[..4] == [0, 0, 0, 0];
  }

  /** A plugin with a usable header in which one of two accepted orders is lost. */
  lemma LostOrderExample(env: Env) returns (plugin: Plugin, e: Edits)
    ensures Parsed(env, plugin) && UsableHedr(env, plugin)
    ensures ExactPatches(e.patches) && AllOrdersFit(AsChildren(plugin.groups), e.orders) && SizesFit(plugin.groups, e)
    ensures var cs := AsChildren(plugin.groups);
            var out := ChildrenOut(cs, Job(plugin.source, e, Only(AllMarks(plugin.groups, e))));
            out.Ok? && out.value != ChildrenBytes(EditedChildren(cs, e))
  {
    hide HeaderOf, SubrecordsIn, RecordBytes, RecordOk, ChildBytes, ChildOk, LocateChild, RecordAt, TopGroupsAt;
    var g := Pairs(42);
    var source := RecordBytes(HEADER_RECORD) + ChildBytes(GroupChild(g));
    ExampleHeader(env);
    PairsStand(42);
    plugin := Plugin(source, SkyrimSE, PluginHeader(HEADER_RECORD, Some([0, 0, 0, 0]), 0, 0, [], None), Range(0, 42), [g]);
    e := Swapped(42);
    assert source[0..42] == RecordBytes(HEADER_RECORD);
    RecordInverse(source, 0, HEADER_RECORD, 42);
    OneStands(source, 42, GroupChild(g));
    assert AsChildren([g]) == [GroupChild(g)];
    TopGroupsInverse(source, 42, [g]);
    assert First([SubRecord(HEDR, ZEROS)], HEDR) == Some(SubRecord(HEDR, ZEROS));
    SwappedFits(42);
    SwappedSizes();
    SecondOrderLost(env, plugin, e, 0, 0, 1);
  }

  lemma OneStands(s: Bytes, p: nat, c: Child)
    requires ChildOk(c) && LocateChild(c, p) == c && p + |ChildBytes(c)| == |s| && s[p..] == ChildBytes(c)
    ensures AllStandAt(s, p, [c]) && |ChildrenBytes([c])| == |ChildBytes(c)|
  {
    hide ChildOk, LocateChild, ChildBytes;
    assert ChildrenBytes([c]) == ChildBytes(c) + ChildrenBytes([]) == ChildBytes(c);
    assert LocateChildren([c], p) == [c] + LocateChildren([], p + |ChildBytes(c)|);
    assert [c][1..] == [] && ChildrenOk([]);
    assert s[p..p + |ChildBytes(c)|] == s[p..];
  }

  lemma SwappedFits(p: nat)
    ensures AllOrdersFit([GroupChild(Pairs(p))], Swapped(p).orders)
    ensures SecondOrder(Pairs(p), 0, 1, Swapped(p))
  {
    hide OrdersFit, AllOrdersFit, OrderFits, AnyPatched;
    var g, orders := Pairs(p), Swapped(p).orders;
    var a, b := g.children[0].group, g.children[1].group;
    PairSwapped(1, p + 24);
    PairSwapped(3, p + 96);
    assert a == Pair(1, p + 24) && b == Pair(3, p + 96);
    assert orders[a.range.value] == [2, 1] && orders[b.range.value] == [4, 3];
    TwoFit(a.children, orders);
    TwoFit(b.children, orders);
    OrderedFits(a, orders);
    OrderedFits(b, orders);
    TwoFit(g.children, orders);
    assert !IsOrdered(g, orders);
    OrderedFits(g, orders);
    assert [GroupChild(g)][1..] == [];
    OneFits(GroupChild(g), orders);
    NothingPatched(b.children);
  }

  lemma PairSwapped(id: nat, p: nat)
    requires id < 0x1000
    ensures OrderFits(Pair(id, p).children, [id + 1, id]) && DirectIds(Pair(id, p).children) != [id + 1, id]
  {
    var ids := DirectIds(Pair(id, p).children);
    assert ids == [id, id + 1];
    assert ids[0] != [id + 1, id][0];
    assert multiset([id + 1, id]) == multiset(ids);
  }

  lemma TwoFit(cs: seq<Child>, orders: map<Range, seq<FormId>>)
    requires |cs| == 2
    requires forall c :: c in cs ==> c.RecordChild? || OrdersFit(c, orders)
    ensures AllOrdersFit(cs, orders)
  {
    assert cs == [cs[0], cs[1]];
    assert cs[1..] == [cs[1]] && cs[1..][1..] == [];
    assert OrdersFit(cs[0], orders) && OrdersFit(cs[1], orders);
    assert AllOrdersFit(cs[1..], orders);
  }

  lemma OneFits(c: Child, orders: map<Range, seq<FormId>>)
    requires OrdersFit(c, orders)
    ensures AllOrdersFit([c], orders)
  {
    assert [c][1..] == [];
  }

  lemma OrderedFits(g: Group, orders: map<Range, seq<FormId>>)
    requires IsOrdered(g, orders) ==> OrderFits(g.children, orders[g.range.value])
    requires AllOrdersFit(g.children, orders)
    ensures OrdersFit(GroupChild(g), orders)
  {
  }

  lemma {:induction false} NothingPatched(cs: seq<Child>)
    requires AllRecords(cs)
    ensures !AnyPatched(cs, map[])
    decreases |cs|
  {
    if cs != [] {
      NothingPatched(cs[1..]);
    }
  }

  lemma SwappedSizes()
    ensures SizesFit([Pairs(42)], Swapped(42))
  {
    hide ChildBytes, ChildOk, EditedChild, AllOrdersFit, OrdersFit;
    var c, orders := GroupChild(Pairs(42)), Swapped(42).orders;
    PairsStand(42);
    SwappedFits(42);
    FirstFits([c], orders);
    ReorderingKeepsSizes(c, orders);
    assert Swapped(42) == Edits(map[], orders);
  }

  lemma FirstFits(cs: seq<Child>, orders: map<Range, seq<FormId>>)
    requires cs != [] && AllOrdersFit(cs, orders)
    ensures OrdersFit(cs[0], orders)
  {
  }
}
