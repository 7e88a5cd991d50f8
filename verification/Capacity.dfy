/** When operations on an index of integers cannot fail. An index that has only been
    grown by single insertions has at most two levels, because splitting an inner
    root always throws; below 18176 entries its root never gets full. */
module Capacity {
  import opened Values
  import opened Nodes
  import opened Ordered
  import opened Shape
  import opened Surgery

  /** Entries every leaf keeps as long as there are several. */
  const MIN_INTS := 71
  /** With so many entries the root has at most 255 children. */
  const MAX_INTS := 18175
  /** As many integers as an index can hold: 256 full leaves below one root. */
  const MOST_INTS := INTS_PER_LEAF * (MAX_SEPARATORS + 1)

  /** At most two levels, and when there are several leaves each has at least `least`
      entries. Leaves in `short` may lack an entry. */
  ghost predicate ComfortableBut(m: Pages, root: PageId, short: seq<PageId>, least: nat) {
    PageAt(m, root).Inner? ==>
      var cs := PageAt(m, root).children;
      && (if least > 0 then 2 else 1) <= |cs| <= MAX_SEPARATORS + 1
      && forall c :: c in cs ==>
           PageAt(m, c).Leaf? && |PageAt(m, c).entries| + (if c in short then 1 else 0) >= least
  }

  ghost predicate Comfortable(m: Pages, root: PageId, least: nat) {
    ComfortableBut(m, root, [], least)
  }

  function FirstChild(p: Page): PageId {
    if p.Inner? && p.children != [] then p.children[0] else NO_PAGE
  }

  /** The root has lost its separators and all its children but c. */
  ghost predicate RootCut(m: Pages, root: PageId, c: PageId) {
    PageAt(m, root) == Inner([], [c]) && PageAt(m, c).Leaf?
  }

  /** A full leaf of integers below this root can neither pass an entry to its right
      neighbour nor be divided: the neighbour is full or there is none, and the root
      cannot count one more separator. */
  predicate NoRoomBeside(m: Pages, root: PageId, id: PageId) {
    && PageAt(m, root).Inner?
    && var cs := PageAt(m, root).children;
       var i := IndexOf(cs, id);
    && |cs| > MAX_SEPARATORS
    && (i + 1 < |cs| ==> |EntriesOf(PageAt(m, cs[i + 1]))| >= INTS_PER_LEAF)
  }

  /** A leaf of integers left with n entries cannot be repaired: it is too small,
      neither neighbour can spare an entry, it does not fit one page with the
      neighbour it would be merged with, and the root cannot count one more
      separator for a third leaf. */
  predicate NoRepair(m: Pages, root: PageId, id: PageId, n: nat) {
    && n < INTS_AT_MIN_FILL && PageAt(m, root).Inner?
    && var cs := PageAt(m, root).children;
       var i := IndexOf(cs, id);
    && |cs| > MAX_SEPARATORS && i < |cs|
    && (i > 0 ==> |EntriesOf(PageAt(m, cs[i - 1]))| < INTS_AT_MIN_FILL)
    && (i + 1 < |cs| ==> |EntriesOf(PageAt(m, cs[i + 1]))| < INTS_AT_MIN_FILL)
    && n + |EntriesOf(PageAt(m, if i > 0 then cs[i - 1] else cs[i + 1]))| > INTS_PER_LEAF
  }

  lemma TwoLevels(m: Pages, levels: Levels, info: Infos, hole: PageId, root: PageId, short: seq<PageId>, least: nat)
    requires Shaped(m, levels, info, hole) && [root] == levels[|levels| - 1] && ComfortableBut(m, root, short, least)
    ensures |levels| <= 2
    ensures |levels| == 2 <==> PageAt(m, root).Inner?
    ensures |levels| == 2 ==> levels[0] == ChildrenOf(PageAt(m, root))
  {
    hide NoDup, Chained, Entries, LevelOk, LevelsOk;
    RootKnown(m, levels, info, hole, root);
    if |levels| > 1 {
      var cs := ChildrenOf(PageAt(m, root));
      assert root in levels[|levels| - 1];
      ChildLevel(m, levels, info, hole, |levels|, |levels| - 1, root, cs[0]);
      assert cs[0] in cs;
      OverOneRoot(m, levels, info, hole, root);
    }
  }

  lemma OverOneRoot(m: Pages, levels: Levels, info: Infos, hole: PageId, root: PageId)
    requires Shaped(m, levels, info, hole) && [root] == levels[|levels| - 1] && |levels| > 1
    ensures levels[|levels| - 2] == ChildrenOf(PageAt(m, root))
  {
    hide NodeOk, NoDup, Chained;
    LevelKnown(m, levels, info, hole, |levels|, |levels| - 1);
    KidsOfOne(m, root);
  }

  /** In an index of integers every leaf holds integers. */
  lemma LeafInts(m: Pages, levels: Levels, id: PageId)
    requires |levels| > 0 && id in levels[0] && InOrder(IntType, Flat(m, levels))
    ensures AllInts(EntriesOf(PageAt(m, id)))
  {
    var left, right := Locate(levels[0], id);
    EntriesAround(m, left, id, right);
    var a, es, b := Entries(m, left), EntriesOf(PageAt(m, id)), Entries(m, right);
    OrderedParts(IntType, a + es, b);
    OrderedParts(IntType, a, es);
  }

  /** The page that is out of step, if any, is above level k. */
  ghost predicate HoleAbove(levels: Levels, hole: PageId, k: nat) {
    hole == NO_PAGE || exists j :: k < j < |levels| && hole in levels[j]
  }

  lemma NotTheHole(m: Pages, levels: Levels, info: Infos, hole: PageId, k: nat, id: PageId)
    requires LevelsOk(m, levels, info, hole, |levels|) && k < |levels| && id in levels[k] && HoleAbove(levels, hole, k)
    ensures id != hole
  {
    hide LevelOk, LevelsOk;
    LevelKnown(m, levels, info, hole, |levels|, k);
    if hole != NO_PAGE {
      var j :| k < j < |levels| && hole in levels[j];
      LevelKnown(m, levels, info, hole, |levels|, j);
    }
  }

  lemma HoleStaysAbove(levels: Levels, hole: PageId, k: nat)
    requires HoleAbove(levels, hole, k)
    ensures forall j: nat :: j <= k ==> HoleAbove(levels, hole, j)
  {
  }

  /** The least key of a subtree is one of the keys of the index. */
  lemma {:induction false} MinimumIsKey(m: Pages, levels: Levels, info: Infos, hole: PageId, k: nat,
                                        id: PageId) returns (i: nat)
    requires LevelsOk(m, levels, info, hole, |levels|) && k < |levels| && id in levels[k] && HoleAbove(levels, hole, k)
    ensures i < |Flat(m, levels)| && Flat(m, levels)[i].key == MinOf(info, id)
    decreases k
  {
    hide LevelOk, LevelsOk, NoDup, Kids, Chained, Entries, HoleAbove;
    LevelNode(m, levels, info, hole, |levels|, k, id);
    NotTheHole(m, levels, info, hole, k, id);
    HoleStaysAbove(levels, hole, k);
    if k == 0 {
      var left, right := Locate(levels[0], id);
      EntriesAround(m, left, id, right);
      i := |Entries(m, left)|;
    } else {
      var c := PageAt(m, id).children[0];
      ChildLevel(m, levels, info, hole, |levels|, k, id, c);
      i := MinimumIsKey(m, levels, info, hole, k - 1, c);
    }
  }

  /** In an index of integers the least key of a subtree is an integer. */
  lemma IntMinimum(m: Pages, levels: Levels, info: Infos, hole: PageId, k: nat, id: PageId)
    requires LevelsOk(m, levels, info, hole, |levels|) && InOrder(IntType, Flat(m, levels))
    requires k < |levels| && id in levels[k] && HoleAbove(levels, hole, k)
    ensures MinOf(info, id).Int?
  {
    hide LevelsOk, HoleAbove, Flat, MinOf;
    var i := MinimumIsKey(m, levels, info, hole, k, id);
  }

  /** In an index of integers all separators are integers. */
  lemma IntSeparators(m: Pages, levels: Levels, info: Infos, hole: PageId, k: nat, id: PageId)
    requires LevelsOk(m, levels, info, hole, |levels|) && InOrder(IntType, Flat(m, levels))
    requires 0 < k < |levels| && id in levels[k] && HoleAbove(levels, hole, k - 1)
    ensures PageAt(m, id).Inner? && AllIntKeys(PageAt(m, id).keys)
    ensures |PageAt(m, id).children| == |PageAt(m, id).keys| + 1
  {
    hide NoDup, Chained, LevelOk, LevelsOk, InOrder, Kids, Flat, HoleAbove;
    LevelNode(m, levels, info, hole, |levels|, k, id);
    var p := PageAt(m, id);
    forall j | 0 <= j < |p.keys|
      ensures p.keys[j].Int?
    {
      ChildLevel(m, levels, info, hole, |levels|, k, id, p.children[j + 1]);
      IntMinimum(m, levels, info, hole, k - 1, p.children[j + 1]);
    }
  }

  lemma {:induction false} ManyEntries(m: Pages, l: seq<PageId>, least: nat)
    requires forall id :: id in l ==> |EntriesOf(PageAt(m, id))| >= least
    ensures |Entries(m, l)| >= least * |l|
  {
    hide EntriesOf, PageAt;
    if l != [] {
      assert l[0] in l;
      assert forall id :: id in l[1..] ==> id in l;
      ManyEntries(m, l[1..], least);
      Times(least, |l[1..]|);
    }
  }

  lemma Times(a: nat, n: nat)
    ensures a * (n + 1) == a + a * n
  {
  }

  /** A comfortable index with at most 18175 entries has room for another leaf. */
  lemma RoomInRoot(m: Pages, levels: Levels, info: Infos, root: PageId)
    requires Shaped(m, levels, info, NO_PAGE) && [root] == levels[|levels| - 1] && Comfortable(m, root, MIN_INTS)
    requires |Flat(m, levels)| <= MAX_INTS
    ensures |ChildrenOf(PageAt(m, root))| <= MAX_SEPARATORS
  {
    TwoLevels(m, levels, info, NO_PAGE, root, [], MIN_INTS);
    if PageAt(m, root).Inner? {
      LevelKnown(m, levels, info, NO_PAGE, |levels|, 0);
      forall c | c in levels[0]
        ensures |EntriesOf(PageAt(m, c))| >= MIN_INTS
      {
        assert PageAt(m, c).Leaf?;
      }
      ManyEntries(m, levels[0], MIN_INTS);
    }
  }

  /** Pages that differ from those of m in separators and links only. */
  ghost predicate SameContents(m: Pages, m': Pages) {
    forall id: PageId ::
      && EntriesOf(PageAt(m', id)) == EntriesOf(PageAt(m, id)) && ChildrenOf(PageAt(m', id)) == ChildrenOf(PageAt(m, id))
      && PageAt(m', id).Leaf? == PageAt(m, id).Leaf? && PageAt(m', id).Inner? == PageAt(m, id).Inner?
  }

  lemma ContentsDecide(m: Pages, m': Pages, root: PageId, short: seq<PageId>, least: nat)
    requires SameContents(m, m') && ComfortableBut(m, root, short, least)
    ensures ComfortableBut(m', root, short, least)
  {
    if PageAt(m', root).Inner? {
      assert PageAt(m, root).Inner? && PageAt(m', root).children == ChildrenOf(PageAt(m', root));
      forall c | c in PageAt(m', root).children
        ensures PageAt(m', c).Leaf? && PageAt(m', c).entries == PageAt(m, c).entries
      {
        assert PageAt(m, c).Leaf? && EntriesOf(PageAt(m', c)) == EntriesOf(PageAt(m, c));
      }
    }
  }

  // ---- what a step leaves on disk ----

  /** Three leaves in place of two, the middle one on a new page. */
  ghost predicate ThreeOnDisk(now: Pages, was: Pages, aId: PageId, a: seq<Entry>, middleId: PageId, middle: seq<Entry>,
                              bId: PageId, b: seq<Entry>) {
    && middleId == |was| && |now| == |was| + 1
    && PageAt(now, aId).Leaf? && PageAt(now, middleId).Leaf? && PageAt(now, bId).Leaf?
    && EntriesOf(PageAt(now, aId)) == a && EntriesOf(PageAt(now, middleId)) == middle && EntriesOf(PageAt(now, bId)) == b
    && forall id: PageId :: id < |was| && id != aId && id != bId ==> PageAt(now, id) == PageAt(was, id)
  }

  lemma ThreeFound(now: Pages, was: Pages, aId: PageId, a: seq<Entry>, middleId: PageId, middle: seq<Entry>, bId: PageId,
                   b: seq<Entry>, last: PageId)
    requires aId < |was| && bId < |was| == middleId && aId != bId
    requires now == (was + [Raw])[aId := Leaf(a, middleId)][middleId := Leaf(middle, bId)][bId := Leaf(b, last)]
    ensures ThreeOnDisk(now, was, aId, a, middleId, middle, bId, b)
  {
  }

  lemma ThreeContents(now: Pages, was: Pages, aId: PageId, a: seq<Entry>, middleId: PageId, middle: seq<Entry>,
                      bId: PageId, b: seq<Entry>)
    requires ThreeOnDisk(now, was, aId, a, middleId, middle, bId, b) && aId < |was| && bId < |was| && aId != bId
    ensures SameContents((was + [Leaf(middle, bId)])[aId := Leaf(a, middleId)][bId := Leaf(b, NO_PAGE)], now)
  {
  }

  lemma OneMoreChild(m: Pages, m': Pages, id: PageId, children: seq<PageId>)
    requires SameContents(m, m') && id < |m| && id < |m'|
    ensures SameContents(m[id := Inner([], children)], m'[id := Inner([], children)])
  {
    var n, n' := m[id := Inner([], children)], m'[id := Inner([], children)];
    forall x: PageId
      ensures EntriesOf(PageAt(n', x)) == EntriesOf(PageAt(n, x))
      ensures ChildrenOf(PageAt(n', x)) == ChildrenOf(PageAt(n, x))
      ensures PageAt(n', x).Leaf? == PageAt(n, x).Leaf?
      ensures PageAt(n', x).Inner? == PageAt(n, x).Inner?
    {
      assert EntriesOf(PageAt(m', x)) == EntriesOf(PageAt(m, x)) && ChildrenOf(PageAt(m', x)) == ChildrenOf(PageAt(m, x));
    }
  }

  /** Two leaves have become three with these entries, the middle one on a new page, and
      the parent lists it between them; nothing else holds anything different. */
  ghost predicate LeavesShared(now: Pages, was: Pages, aId: PageId, a: seq<Entry>, middle: seq<Entry>, bId: PageId,
                               b: seq<Entry>, parentId: PageId, children: seq<PageId>, i: nat) {
    && aId < |was| && bId < |was| && parentId < |was| && i + 1 <= |children|
    && SameContents((was + [Leaf(middle, bId)])[aId := Leaf(a, |was|)][bId := Leaf(b, NO_PAGE)]
                    [parentId := Inner([], children[..i + 1] + [|was|] + children[i + 1..])], now)
  }

  lemma LeavesSharedFound(now: Pages, thirds: Pages, was: Pages, aId: PageId, a: seq<Entry>, middleId: PageId,
                          middle: seq<Entry>, bId: PageId, b: seq<Entry>, parentId: PageId, children: seq<PageId>, i: nat)
    requires ThreeOnDisk(thirds, was, aId, a, middleId, middle, bId, b) && aId < |was| && bId < |was| && aId != bId
    requires parentId < |was| && i + 1 <= |children|
    requires SameContents(thirds[parentId := Inner([], children[..i + 1] + [middleId] + children[i + 1..])], now)
    ensures LeavesShared(now, was, aId, a, middle, bId, b, parentId, children, i)
  {
    hide SameContents;
    var all := children[..i + 1] + [middleId] + children[i + 1..];
    var written := (was + [Leaf(middle, bId)])[aId := Leaf(a, middleId)][bId := Leaf(b, NO_PAGE)];
    ThreeContents(thirds, was, aId, a, middleId, middle, bId, b);
    OneMoreChild(written, thirds, parentId, all);
    SameContentsTwice(written[parentId := Inner([], all)], thirds[parentId := Inner([], all)], now);
  }

  // ---- what a repair leaves on disk ----

  predicate SparesChild(p: Page) {
    p.Inner? && !InnerUnderflow(p.keys, p.children) && |p.children| > 1
  }

  /** The pages of two neighbouring inner nodes after they have been merged: the first
      holds all their children, or each holds half of them when they do not fit. */
  ghost predicate InnersJoined(m: Pages, info: Infos, now: Pages, a: PageId, b: PageId) {
    var both := ChildrenOf(PageAt(m, a)) + ChildrenOf(PageAt(m, b));
    && both != []
    && if InnerOverflow(KeysFor(info, both), both) then
         var n := (|both| + 1) / 2;
         ChildrenOf(PageAt(now, a)) == both[..n] && ChildrenOf(PageAt(now, b)) == both[n..]
       else ChildrenOf(PageAt(now, a)) == both
  }

  /** What becomes of a child of `cs` that is too small: it gets the last child of its
      left neighbour, if that can spare one, or else the first of its right neighbour,
      and is otherwise merged with the left one, or with the right one if there is none. */
  ghost predicate InnerRepaired(m: Pages, info: Infos, now: Pages, id: PageId, cs: seq<PageId>) {
    var i, x := IndexOf(cs, id), ChildrenOf(PageAt(m, id));
    && i < |cs|
    && if i > 0 && SparesChild(PageAt(m, cs[i - 1])) then
         var l := ChildrenOf(PageAt(m, cs[i - 1]));
         ChildrenOf(PageAt(now, cs[i - 1])) == l[..|l| - 1] && ChildrenOf(PageAt(now, id)) == [l[|l| - 1]] + x
       else if i + 1 < |cs| && SparesChild(PageAt(m, cs[i + 1])) then
         var r := ChildrenOf(PageAt(m, cs[i + 1]));
         ChildrenOf(PageAt(now, id)) == x + [r[0]] && ChildrenOf(PageAt(now, cs[i + 1])) == r[1..]
       else if i > 0 then InnersJoined(m, info, now, cs[i - 1], id)
       else 1 < |cs| && InnersJoined(m, info, now, id, cs[1])
  }

  lemma TwoNodes(was: Pages, now: Pages, a: PageId, x: seq<PageId>, b: PageId, y: seq<PageId>)
    requires a < |was| && b < |was| && a != b && SameContents(was[a := Inner([], x)][b := Inner([], y)], now)
    ensures ChildrenOf(PageAt(now, a)) == x && ChildrenOf(PageAt(now, b)) == y
  {
    assert PageAt(was[a := Inner([], x)][b := Inner([], y)], a) == Inner([], x);
    assert PageAt(was[a := Inner([], x)][b := Inner([], y)], b) == Inner([], y);
  }

  lemma JoinedInHalves(m: Pages, info: Infos, was: Pages, now: Pages, a: PageId, b: PageId, both: seq<PageId>)
    requires both == ChildrenOf(PageAt(m, a)) + ChildrenOf(PageAt(m, b)) && both != []
    requires InnerOverflow(KeysFor(info, both), both) && a < |was| && b < |was| && a != b
    requires var n := (|both| + 1) / 2; SameContents(was[a := Inner([], both[..n])][b := Inner([], both[n..])], now)
    ensures InnersJoined(m, info, now, a, b)
  {
    hide SameContents, InnerOverflow, KeysFor;
    var n := (|both| + 1) / 2;
    TwoNodes(was, now, a, both[..n], b, both[n..]);
  }

  lemma JoinedInOne(m: Pages, info: Infos, now: Pages, a: PageId, b: PageId, both: seq<PageId>)
    requires both == ChildrenOf(PageAt(m, a)) + ChildrenOf(PageAt(m, b)) && both != []
    requires !InnerOverflow(KeysFor(info, both), both) && ChildrenOf(PageAt(now, a)) == both
    ensures InnersJoined(m, info, now, a, b)
  {
    hide InnerOverflow, KeysFor;
  }

  lemma RepairedFromLeft(m: Pages, info: Infos, was: Pages, now: Pages, id: PageId, cs: seq<PageId>, i: nat,
                         l: seq<PageId>, x: seq<PageId>)
    requires 0 < i == IndexOf(cs, id) < |cs| && SparesChild(PageAt(m, cs[i - 1])) && l == ChildrenOf(PageAt(m, cs[i - 1]))
    requires x == ChildrenOf(PageAt(m, id)) && cs[i - 1] < |was| && id < |was| && cs[i - 1] != id
    requires SameContents(was[cs[i - 1] := Inner([], l[..|l| - 1])][id := Inner([], [l[|l| - 1]] + x)], now)
    ensures InnerRepaired(m, info, now, id, cs)
  {
    hide SameContents, InnersJoined, InnerUnderflow;
    TwoNodes(was, now, cs[i - 1], l[..|l| - 1], id, [l[|l| - 1]] + x);
  }

  lemma RepairedFromRight(m: Pages, info: Infos, was: Pages, now: Pages, id: PageId, cs: seq<PageId>, i: nat,
                          r: seq<PageId>, x: seq<PageId>)
    requires i == IndexOf(cs, id) && i + 1 < |cs| && (i > 0 ==> !SparesChild(PageAt(m, cs[i - 1])))
    requires SparesChild(PageAt(m, cs[i + 1])) && r == ChildrenOf(PageAt(m, cs[i + 1]))
    requires x == ChildrenOf(PageAt(m, id)) && cs[i + 1] < |was| && id < |was| && cs[i + 1] != id
    requires SameContents(was[id := Inner([], x + [r[0]])][cs[i + 1] := Inner([], r[1..])], now)
    ensures InnerRepaired(m, info, now, id, cs)
  {
    hide SameContents, InnersJoined, InnerUnderflow, InnerBytes, KeysFor, NoDup;
    TwoNodes(was, now, id, x + [r[0]], cs[i + 1], r[1..]);
  }

  lemma RepairedByJoining(m: Pages, info: Infos, now: Pages, id: PageId, cs: seq<PageId>, i: nat)
    requires i == IndexOf(cs, id) < |cs| && (i > 0 ==> !SparesChild(PageAt(m, cs[i - 1])))
    requires i + 1 < |cs| ==> !SparesChild(PageAt(m, cs[i + 1]))
    requires if i > 0 then InnersJoined(m, info, now, cs[i - 1], id)
             else 1 < |cs| && InnersJoined(m, info, now, id, cs[1])
    ensures InnerRepaired(m, info, now, id, cs)
  {
    hide InnersJoined, InnerUnderflow;
  }

  predicate SparesEntry(p: Page) {
    p.Leaf? && !LeafUnderflow(p.entries)
  }

  /** The same for leaves: what a child of `cs` that is too small has left its parent
      with. When two leaves do not fit one, a third takes a share. */
  ghost predicate LeafRepaired(m: Pages, now: Pages, id: PageId, cs: seq<PageId>) {
    var i, x := IndexOf(cs, id), EntriesOf(PageAt(m, id));
    && i < |cs|
    && if LeftSpare(m, id, cs) then
         var l := EntriesOf(PageAt(m, cs[i - 1]));
         l != [] && EntriesOf(PageAt(now, cs[i - 1])) == l[..|l| - 1] && EntriesOf(PageAt(now, id)) == [l[|l| - 1]] + x
       else if RightSpare(m, id, cs) then
         var r := EntriesOf(PageAt(m, cs[i + 1]));
         r != [] && EntriesOf(PageAt(now, id)) == x + [r[0]] && EntriesOf(PageAt(now, cs[i + 1])) == r[1..]
       else if i > 0 then LeavesJoined(m, now, cs[i - 1], id)
       else 1 < |cs| && LeavesJoined(m, now, id, cs[1])
  }

  ghost predicate LeftSpare(m: Pages, id: PageId, cs: seq<PageId>) {
    var i := IndexOf(cs, id);
    0 < i < |cs| && SparesEntry(PageAt(m, cs[i - 1]))
  }

  ghost predicate RightSpare(m: Pages, id: PageId, cs: seq<PageId>) {
    var i := IndexOf(cs, id);
    i + 1 < |cs| && SparesEntry(PageAt(m, cs[i + 1]))
  }

  ghost predicate LeavesJoined(m: Pages, now: Pages, a: PageId, b: PageId) {
    var both := EntriesOf(PageAt(m, a)) + EntriesOf(PageAt(m, b));
    if LeafOverflow(both) then LeavesThirded(both, now, a, |m|, b) else EntriesOf(PageAt(now, a)) == both
  }

  /** Three leaves hold these entries in three shares. */
  ghost predicate LeavesThirded(both: seq<Entry>, now: Pages, a: PageId, middle: PageId, b: PageId) {
    var (x, y, z) := ThreeShares(both);
    EntriesOf(PageAt(now, a)) == x && EntriesOf(PageAt(now, middle)) == y && EntriesOf(PageAt(now, b)) == z
  }

  /** Three inner nodes hold these children in three shares. */
  ghost predicate InnersThirded(both: seq<PageId>, now: Pages, a: PageId, middle: PageId, b: PageId) {
    var (x, y, z) := ThreeShares(both);
    ChildrenOf(PageAt(now, a)) == x && ChildrenOf(PageAt(now, middle)) == y && ChildrenOf(PageAt(now, b)) == z
  }

  /** What becomes of an inner node of `cs` with too many children: it shares them with
      its right neighbour, or with its left one if it is the last, and with a third
      node on a new page between the two. */
  ghost predicate InnerRelieved(m: Pages, now: Pages, id: PageId, cs: seq<PageId>) {
    var i, x := IndexOf(cs, id), ChildrenOf(PageAt(m, id));
    && i < |cs|
    && if i + 1 < |cs| then InnersThirded(x + ChildrenOf(PageAt(m, cs[i + 1])), now, id, |m|, cs[i + 1])
       else i > 0 && InnersThirded(ChildrenOf(PageAt(m, cs[i - 1])) + x, now, cs[i - 1], |m|, id)
  }

  /** The last entry of a leaf can go to its right neighbour and both then fit. */
  ghost predicate GivesRight(m: Pages, id: PageId, cs: seq<PageId>) {
    var i, x := IndexOf(cs, id), EntriesOf(PageAt(m, id));
    && i + 1 < |cs| && |x| > 1 && !LeafOverflow(x[..|x| - 1])
    && !LeafOverflow([x[|x| - 1]] + EntriesOf(PageAt(m, cs[i + 1])))
  }

  /** The same for a leaf with too many entries, which first tries to pass its last one
      to the right, and is halved when it has no neighbour. */
  ghost predicate LeafRelieved(m: Pages, now: Pages, id: PageId, cs: seq<PageId>) {
    var i, x := IndexOf(cs, id), EntriesOf(PageAt(m, id));
    && i < |cs|
    && if GivesRight(m, id, cs) then
         && EntriesOf(PageAt(now, id)) == x[..|x| - 1]
         && EntriesOf(PageAt(now, cs[i + 1])) == [x[|x| - 1]] + EntriesOf(PageAt(m, cs[i + 1]))
       else if i + 1 < |cs| then LeavesThirded(x + EntriesOf(PageAt(m, cs[i + 1])), now, id, |m|, cs[i + 1])
       else if i > 0 then LeavesThirded(EntriesOf(PageAt(m, cs[i - 1])) + x, now, cs[i - 1], |m|, id)
       else EntriesOf(PageAt(now, id)) == x[..|x| / 2] && EntriesOf(PageAt(now, |m|)) == x[|x| / 2..]
  }

  lemma TwoLeavesOf(was: Pages, now: Pages, a: PageId, p: Page, b: PageId, q: Page)
    requires a < |was| && b < |was| && a != b && SameContents(was[a := p][b := q], now)
    ensures EntriesOf(PageAt(now, a)) == EntriesOf(p) && EntriesOf(PageAt(now, b)) == EntriesOf(q)
  {
    assert PageAt(was[a := p][b := q], a) == p && PageAt(was[a := p][b := q], b) == q;
  }

  lemma LeafFromLeft(m: Pages, was: Pages, now: Pages, id: PageId, cs: seq<PageId>, i: nat, l: Page, x: Page)
    requires 0 < i == IndexOf(cs, id) < |cs| && l == PageAt(m, cs[i - 1]) && l.Leaf? && !LeafUnderflow(l.entries)
    requires x == PageAt(m, id) && x.Leaf? && cs[i - 1] < |was| && id < |was| && cs[i - 1] != id && l.entries != []
    requires SameContents(was[cs[i - 1] := Leaf(l.entries[..|l.entries| - 1], id)]
                             [id := Leaf([l.entries[|l.entries| - 1]] + x.entries, x.next)], now)
    ensures LeafRepaired(m, now, id, cs)
  {
    hide SameContents, LeavesJoined, LeafUnderflow;
    TwoLeavesOf(was, now, cs[i - 1], Leaf(l.entries[..|l.entries| - 1], id), id,
                Leaf([l.entries[|l.entries| - 1]] + x.entries, x.next));
  }

  lemma LeafFromRight(m: Pages, was: Pages, now: Pages, id: PageId, cs: seq<PageId>, i: nat, r: Page, x: Page)
    requires i == IndexOf(cs, id) && i + 1 < |cs| && r == PageAt(m, cs[i + 1]) && r.Leaf? && !LeafUnderflow(r.entries)
    requires x == PageAt(m, id) && x.Leaf? && cs[i + 1] < |was| && id < |was| && cs[i + 1] != id && r.entries != []
    requires SameContents(was[id := Leaf(x.entries + [r.entries[0]], cs[i + 1])][cs[i + 1] := Leaf(r.entries[1..], r.next)], now)
    ensures !LeftSpare(m, id, cs) ==> LeafRepaired(m, now, id, cs)
  {
    hide SameContents, LeavesJoined, LeafUnderflow;
    TwoLeavesOf(was, now, id, Leaf(x.entries + [r.entries[0]], cs[i + 1]), cs[i + 1], Leaf(r.entries[1..], r.next));
  }

  lemma LeafByJoining(m: Pages, now: Pages, id: PageId, cs: seq<PageId>, i: nat)
    requires i == IndexOf(cs, id) < |cs|
    requires if i > 0 then LeavesJoined(m, now, cs[i - 1], id) else 1 < |cs| && LeavesJoined(m, now, id, cs[1])
    ensures !LeftSpare(m, id, cs) && !RightSpare(m, id, cs) ==> LeafRepaired(m, now, id, cs)
  {
    hide LeavesJoined, SparesEntry;
  }

  lemma NoSpare(m: Pages, id: PageId, cs: seq<PageId>, i: nat)
    requires i == IndexOf(cs, id)
    ensures LeftSpare(m, id, cs) <==> 0 < i < |cs| && SparesEntry(PageAt(m, cs[i - 1]))
    ensures RightSpare(m, id, cs) <==> i + 1 < |cs| && SparesEntry(PageAt(m, cs[i + 1]))
  {
  }

  lemma JoinedInThree(m: Pages, was: Pages, now: Pages, a: PageId, b: PageId, both: seq<Entry>, parentId: PageId,
                      children: seq<PageId>, i: nat)
    requires both == EntriesOf(PageAt(m, a)) + EntriesOf(PageAt(m, b)) && LeafOverflow(both) && |was| == |m|
    requires a != b && parentId != a && parentId != b
    requires var (x, y, z) := ThreeShares(both); LeavesShared(now, was, a, x, y, b, z, parentId, children, i)
    ensures LeavesJoined(m, now, a, b)
  {
    hide LeafOverflow, ThreeShares;
    var (x, y, z) := ThreeShares(both);
    var parent := Inner([], children[..i + 1] + [|was|] + children[i + 1..]);
    var w := (was + [Leaf(y, b)])[a := Leaf(x, |was|)][b := Leaf(z, NO_PAGE)][parentId := parent];
    assert PageAt(w, a) == Leaf(x, |was|) && PageAt(w, b) == Leaf(z, NO_PAGE) && PageAt(w, |was|) == Leaf(y, b);
  }

  lemma JoinedInOneLeaf(m: Pages, now: Pages, a: PageId, b: PageId, both: seq<Entry>)
    requires both == EntriesOf(PageAt(m, a)) + EntriesOf(PageAt(m, b)) && !LeafOverflow(both)
    requires EntriesOf(PageAt(now, a)) == both
    ensures LeavesJoined(m, now, a, b)
  {
    hide LeafOverflow, ThreeShares;
  }

  /** The pages of the first n levels, `but` perhaps apart, hold what they held. */
  ghost predicate KeptBelow(was: Pages, now: Pages, levels: Levels, n: nat, but: PageId) {
    && n <= |levels|
    && forall j: nat, x: PageId :: j < n && x in levels[j] && x != NO_PAGE && x != but ==> SameAt(was, now, x)
  }

  ghost predicate SameAt(was: Pages, now: Pages, x: PageId) {
    EntriesOf(PageAt(now, x)) == EntriesOf(PageAt(was, x)) && ChildrenOf(PageAt(now, x)) == ChildrenOf(PageAt(was, x))
  }

  /** None of the first n levels lists the page. */
  ghost predicate AboveLevels(levels: Levels, n: nat, id: PageId) {
    n <= |levels| && forall j: nat :: j < n ==> id !in levels[j]
  }

  lemma KeptItself(m: Pages, levels: Levels, n: nat)
    requires n <= |levels|
    ensures KeptBelow(m, m, levels, n, NO_PAGE)
  {
  }

  /** Of two lists of pages the second lacks b, if anything, and has a. */
  ghost predicate LosesOnly(before: seq<PageId>, after: seq<PageId>, a: PageId, b: PageId) {
    a in after && forall x :: x in before && x != a && x != b ==> x in after
  }

  /** The same when the levels have been read anew and one page is no longer listed. */
  lemma KeptAcross(was: Pages, now: Pages, before: Levels, after: Levels, n: nat, a: PageId, b: PageId)
    requires 0 < n <= |before| == |after| && KeptBelow(was, now, after, n, NO_PAGE)
    requires forall j :: 0 <= j < n - 1 ==> after[j] == before[j]
    requires LosesOnly(before[n - 1], after[n - 1], a, b)
    ensures KeptBelow(was, now, before, n, b)
  {
    hide SameAt;
    forall j: nat, x: PageId | j < n && x in before[j] && x != NO_PAGE && x != b
      ensures SameAt(was, now, x)
    {
      assert x in after[j];
    }
  }

  lemma LastMoves(x: seq<Entry>, y: seq<Entry>)
    requires x != []
    ensures x[..|x| - 1] + ([x[|x| - 1]] + y) == x + y
    ensures AllInts(x) && AllInts(y) ==> AllInts(x[..|x| - 1]) && AllInts([x[|x| - 1]] + y)
  {
  }

  lemma GivingDecides(m: Pages, id: PageId, cs: seq<PageId>, i: nat)
    requires i == IndexOf(cs, id)
    ensures var x := EntriesOf(PageAt(m, id));
            GivesRight(m, id, cs) <==>
              && i + 1 < |cs| && x != [] && x[..|x| - 1] != [] && !LeafOverflow(x[..|x| - 1])
              && !LeafOverflow([x[|x| - 1]] + EntriesOf(PageAt(m, cs[i + 1])))
  {
    hide LeafOverflow;
  }

  lemma RelievedByGiving(m: Pages, now: Pages, id: PageId, cs: seq<PageId>, i: nat)
    requires i == IndexOf(cs, id) && GivesRight(m, id, cs)
    requires var x := EntriesOf(PageAt(m, id));
             && EntriesOf(PageAt(now, id)) == x[..|x| - 1]
             && EntriesOf(PageAt(now, cs[i + 1])) == [x[|x| - 1]] + EntriesOf(PageAt(m, cs[i + 1]))
    ensures LeafRelieved(m, now, id, cs)
  {
    hide LeafOverflow;
  }

  lemma RelievedByHalves(m: Pages, now: Pages, id: PageId, cs: seq<PageId>)
    requires cs == [id]
    requires var x := EntriesOf(PageAt(m, id));
             EntriesOf(PageAt(now, id)) == x[..|x| / 2] && EntriesOf(PageAt(now, |m|)) == x[|x| / 2..]
    ensures LeafRelieved(m, now, id, cs)
  {
    assert IndexOf([id], id) == 0;
  }

  /** Level k lists the pages of `new'`, and the levels below are the same. */
  ghost predicate LevelLists(before: Levels, after: Levels, k: nat, new': seq<PageId>) {
    && k < |before| == |after| && (forall j :: 0 <= j < k ==> after[j] == before[j])
    && forall x :: x in new' ==> x in after[k]
  }

  /** Two inner nodes have become three before the rest of the operation. */
  lemma KeptAfterThree(was: Pages, thirds: Pages, now: Pages, before: Levels, after: Levels, k: nat, a: PageId,
                       x: seq<PageId>, y: seq<PageId>, b: PageId, z: seq<PageId>)
    requires a < |was| && b < |was| && a != b && a != NO_PAGE && b != NO_PAGE && |was| != NO_PAGE
    requires SameContents((was + [Inner([], y)])[a := Inner([], x)][b := Inner([], z)], thirds)
    requires LevelLists(before, after, k, [a, |was|, b]) && KeptBelow(thirds, now, after, k + 1, NO_PAGE)
    requires AboveLevels(before, k, a) && AboveLevels(before, k, b) && AboveLevels(before, k, |was|)
    ensures KeptBelow(was, now, before, k, NO_PAGE)
    ensures ChildrenOf(PageAt(now, a)) == x && ChildrenOf(PageAt(now, |was|)) == y && ChildrenOf(PageAt(now, b)) == z
  {
    var with := (was + [Inner([], y)])[a := Inner([], x)][b := Inner([], z)];
    assert PageAt(with, a) == Inner([], x) && PageAt(with, |was|) == Inner([], y) && PageAt(with, b) == Inner([], z);
    assert a in after[k] && b in after[k] && |was| in after[k];
    assert SameAt(thirds, now, a) && SameAt(thirds, now, b) && SameAt(thirds, now, |was|);
    forall j: nat, id: PageId | j < k && id in before[j] && id != NO_PAGE
      ensures SameAt(was, now, id)
    {
      assert id in after[j] && SameAt(thirds, now, id) && PageAt(with, id) == PageAt(was, id);
    }
  }

  /** The same for two leaves. */
  lemma KeptThreeLeaves(was: Pages, thirds: Pages, now: Pages, before: Levels, after: Levels, a: PageId, middle: PageId,
                        b: PageId, both: seq<Entry>)
    requires a != NO_PAGE && b != NO_PAGE && |was| != NO_PAGE
    requires var (x, y, z) := ThreeShares(both);
             ThreeOnDisk(thirds, was, a, x, middle, y, b, z)
    requires LevelLists(before, after, 0, [a, middle, b]) && KeptBelow(thirds, now, after, 1, NO_PAGE)
    ensures LeavesThirded(both, now, a, |was|, b)
  {
    hide ThreeShares;
    assert a in after[0] && b in after[0] && |was| in after[0];
    assert SameAt(thirds, now, a) && SameAt(thirds, now, b) && SameAt(thirds, now, |was|);
  }

  lemma KeptTwoLeaves(was: Pages, now: Pages, before: Levels, after: Levels, a: PageId, b: PageId)
    requires a != NO_PAGE && b != NO_PAGE
    requires LevelLists(before, after, 0, [a, b]) && KeptBelow(was, now, after, 1, NO_PAGE)
    ensures EntriesOf(PageAt(now, a)) == EntriesOf(PageAt(was, a))
            && EntriesOf(PageAt(now, b)) == EntriesOf(PageAt(was, b))
  {
    assert a in after[0] && b in after[0];
    assert SameAt(was, now, a) && SameAt(was, now, b);
  }

  /** A page changed before the rest of the operation. */
  lemma KeptAfterOne(was: Pages, mid: Pages, now: Pages, levels: Levels, n: nat, id: PageId, b: PageId, p: Page)
    requires id < |was| && mid == was[id := p] && KeptBelow(mid, now, levels, n + 1, b)
    requires AboveLevels(levels, n, id) && AboveLevels(levels, n, b)
    ensures KeptBelow(was, now, levels, n, NO_PAGE)
  {
    forall j: nat, x: PageId | j < n && x in levels[j] && x != NO_PAGE
      ensures SameAt(was, now, x)
    {
      assert SameAt(mid, now, x) && PageAt(mid, x) == PageAt(was, x);
    }
  }

  lemma KeptOne(was: Pages, now: Pages, levels: Levels, k: nat, x: PageId, but: PageId)
    requires KeptBelow(was, now, levels, k + 1, but) && x in levels[k] && x != NO_PAGE && x != but
    ensures SameAt(was, now, x)
  {
  }

  lemma LevelsApart(m: Pages, levels: Levels, info: Infos, hole: PageId, k: nat, id: PageId)
    requires LevelsOk(m, levels, info, hole, |levels|) && k < |levels| && id in levels[k]
    ensures forall n: nat :: n <= k ==> AboveLevels(levels, n, id)
  {
    hide LevelsOk, LevelOk;
    LevelKnown(m, levels, info, hole, |levels|, k);
    forall j: nat | j < k
      ensures id !in levels[j]
    {
      LevelKnown(m, levels, info, hole, |levels|, j);
    }
  }

  /** Changing pages above the first n levels keeps what is in those levels. */
  lemma KeptByOne(was: Pages, now: Pages, levels: Levels, n: nat, id: PageId, p: Page)
    requires id < |was| && AboveLevels(levels, n, id) && SameContents(was[id := p], now)
    ensures KeptBelow(was, now, levels, n, NO_PAGE)
  {
    forall j: nat, x: PageId | j < n && x in levels[j]
      ensures SameAt(was, now, x)
    {
      assert PageAt(was[id := p], x) == PageAt(was, x);
    }
  }

  lemma KeptByTwo(was: Pages, now: Pages, levels: Levels, n: nat, a: PageId, p: Page, b: PageId, q: Page)
    requires a < |was| && b < |was| && AboveLevels(levels, n, a) && AboveLevels(levels, n, b)
    requires SameContents(was[a := p][b := q], now)
    ensures KeptBelow(was, now, levels, n, NO_PAGE)
  {
    forall j: nat, x: PageId | j < n && x in levels[j]
      ensures SameAt(was, now, x)
    {
      assert PageAt(was[a := p][b := q], x) == PageAt(was, x);
    }
  }

  /** A pair of leaves has become three with at least n entries each, and the parent
      lists the new one between them. */
  ghost predicate PairSplit(now: Pages, was: Pages, leftId: PageId, rightId: PageId, parentId: PageId,
                            children: seq<PageId>, i: nat, n: nat)
    requires i + 1 <= |children|
  {
    && |now| == |was| + 1
    && PageAt(now, parentId).Inner?
    && PageAt(now, parentId).children == children[..i + 1] + [|was|] + children[i + 1..]
    && (forall id :: id in [leftId, |was|, rightId] ==> PageAt(now, id).Leaf? && |PageAt(now, id).entries| >= n)
    && forall id: PageId :: id < |was| && id !in [leftId, rightId, parentId] ==> PageAt(now, id) == PageAt(was, id)
  }

  lemma PairSplitFound(now: Pages, was: Pages, thirds: Pages, leftId: PageId, a: seq<Entry>, middleId: PageId,
                       middle: seq<Entry>, rightId: PageId, b: seq<Entry>, parentId: PageId, children: seq<PageId>, i: nat,
                       keys: seq<Value>, n: nat)
    requires i + 1 <= |children| && parentId != leftId && parentId != rightId && parentId < |was|
    requires ThreeOnDisk(thirds, was, leftId, a, middleId, middle, rightId, b) && |a| >= n && |middle| >= n && |b| >= n
    requires now == thirds[parentId := Inner(keys, children[..i + 1] + [middleId] + children[i + 1..])]
    ensures PairSplit(now, was, leftId, rightId, parentId, children, i, n)
  {
  }

  /** Two neighbouring leaves have new shares of their entries, and their parent new
      separators. */
  ghost predicate PairShared(now: Pages, was: Pages, aId: PageId, a: nat, bId: PageId, b: nat, parentId: PageId,
                             children: seq<PageId>) {
    && |now| == |was|
    && PageAt(now, parentId).Inner? && PageAt(now, parentId).children == children
    && PageAt(now, aId).Leaf? && |PageAt(now, aId).entries| == a
    && PageAt(now, bId).Leaf? && |PageAt(now, bId).entries| == b
    && forall id: PageId :: id !in [aId, bId, parentId] ==> PageAt(now, id) == PageAt(was, id)
  }

  lemma PairSharedFound(now: Pages, was: Pages, aId: PageId, a: seq<Entry>, aNext: PageId, bId: PageId, b: seq<Entry>,
                        bNext: PageId, parentId: PageId, children: seq<PageId>, keys: seq<Value>)
    requires aId < |was| && bId < |was| && parentId < |was| && aId != bId && parentId != aId && parentId != bId
    requires now == was[aId := Leaf(a, aNext)][bId := Leaf(b, bNext)][parentId := Inner(keys, children)]
    ensures PairShared(now, was, aId, |a|, bId, |b|, parentId, children)
  {
  }

  /** A leaf that has become larger, or not too small, leaves the index comfortable. */
  lemma LeafReplaced(m: Pages, root: PageId, short: seq<PageId>, id: PageId, leaf: Page, short': seq<PageId>, least: nat)
    requires ComfortableBut(m, root, short, least) && id < |m| && PageAt(m, id).Leaf? && leaf.Leaf?
    requires forall x :: x in short ==> x == id
    requires |leaf.entries| >= (if id in short' then least - 1 else least) || !PageAt(m, root).Inner?
    ensures ComfortableBut(m[id := leaf], root, short', least)
  {
  }

  /** One leaf more, made of a pair. */
  lemma SplitStaysComfortable(now: Pages, was: Pages, m: Pages, root: PageId, short: seq<PageId>, leftId: PageId,
                              rightId: PageId, i: nat, n: nat, least: nat)
    requires ComfortableBut(m, root, short, least) && PageAt(m, root).Inner? && forall x :: x in short ==>
              x in [leftId, rightId]
    requires var cs := PageAt(m, root).children;
             && |cs| <= MAX_SEPARATORS && i + 1 <= |cs| && (forall c :: c in cs ==> c < |was|)
             && PairSplit(now, was, leftId, rightId, root, cs, i, n) && n >= least
    requires forall id: PageId :: id !in [leftId, rightId] ==> PageAt(was, id) == PageAt(m, id)
    ensures Comfortable(now, root, least)
  {
    var cs, cs' := PageAt(m, root).children, PageAt(now, root).children;
    forall c | c in cs'
      ensures PageAt(now, c).Leaf? && |PageAt(now, c).entries| >= least
    {
      if c !in [leftId, |was|, rightId] {
        assert c in cs;
        assert PageAt(m, c).Leaf?;
      }
    }
  }

  /** A pair of leaves has become three, but their parent was stored with a separator
      too many and lists only its first child. */
  ghost predicate PairCut(now: Pages, was: Pages, leftId: PageId, rightId: PageId, parentId: PageId,
                          children: seq<PageId>) {
    && children != [] && |now| >= |was|
    && PageAt(now, parentId) == Inner([], [children[0]])
    && PageAt(now, leftId).Leaf? && PageAt(now, rightId).Leaf?
    && forall id: PageId :: id < |was| && id !in [leftId, rightId, parentId] ==> PageAt(now, id) == PageAt(was, id)
  }

  lemma PairCutFound(now: Pages, was: Pages, thirds: Pages, leftId: PageId, a: seq<Entry>, middleId: PageId,
                     middle: seq<Entry>, rightId: PageId, b: seq<Entry>, parentId: PageId, children: seq<PageId>)
    requires children != [] && parentId != leftId && parentId != rightId && parentId < |was|
    requires ThreeOnDisk(thirds, was, leftId, a, middleId, middle, rightId, b)
    requires now == thirds[parentId := Inner([], [children[0]])]
    ensures PairCut(now, was, leftId, rightId, parentId, children)
  {
  }

  lemma SplitCuts(now: Pages, was: Pages, m: Pages, root: PageId, short: seq<PageId>, leftId: PageId, rightId: PageId,
                  least: nat)
    requires ComfortableBut(m, root, short, least) && PageAt(m, root).Inner?
    requires var cs := PageAt(m, root).children;
             PairCut(now, was, leftId, rightId, root, cs) && forall c :: c in cs ==> c < |was|
    requires forall id: PageId :: id !in [leftId, rightId] ==> PageAt(was, id) == PageAt(m, id)
    ensures RootCut(now, root, FirstChild(PageAt(m, root)))
  {
    var c := PageAt(m, root).children[0];
    assert c in PageAt(m, root).children && PageAt(m, c).Leaf?;
  }

  /** The same leaves, two of them with new shares. */
  lemma SharingStaysComfortable(now: Pages, was: Pages, m: Pages, root: PageId, short: seq<PageId>, aId: PageId,
                                a: nat, bId: PageId, b: nat, least: nat)
    requires ComfortableBut(m, root, short, least) && PageAt(m, root).Inner? && forall x :: x in short ==> x in [aId, bId]
    requires PairShared(now, was, aId, a, bId, b, root, PageAt(m, root).children) && a >= least && b >= least
    requires forall id: PageId :: id !in [aId, bId] ==> PageAt(was, id) == PageAt(m, id)
    ensures Comfortable(now, root, least)
  {
    forall c | c in PageAt(now, root).children
      ensures PageAt(now, c).Leaf? && |PageAt(now, c).entries| >= least
    {
      if c !in [aId, bId] {
        assert PageAt(m, c).Leaf?;
      }
    }
  }

  /** The leaves of a comfortable index of integers that fit their pages hold at most
      214 entries. */
  lemma FullLeaf(m: Pages, levels: Levels, id: PageId)
    requires |levels| > 0 && id in levels[0] && InOrder(IntType, Flat(m, levels)) && PageAt(m, id).Leaf?
             && Fits(PageAt(m, id))
    ensures |EntriesOf(PageAt(m, id))| <= INTS_PER_LEAF
  {
    hide InOrder, LeafOverflow;
    LeafInts(m, levels, id);
    IntLeafLimits(EntriesOf(PageAt(m, id)));
  }

  /** The only leaf divided in two. */
  lemma HalvesAreComfortable(m: Pages, root: PageId, leftId: PageId, left: Page, rightId: PageId, right: Page, least: nat)
    requires PageAt(m, root).Inner? && PageAt(m, root).children == [leftId, rightId]
    requires PageAt(m, leftId) == left && PageAt(m, rightId) == right && left.Leaf? && right.Leaf?
    requires |left.entries| >= least && |right.entries| >= least
    ensures Comfortable(m, root, least)
  {
  }

  lemma KeysReplaced(m: Pages, id: PageId, keys: seq<Value>)
    requires id < |m| && m[id].Inner?
    ensures SameContents(m, m[id := Inner(keys, m[id].children)])
    ensures PageAt(m[id := Inner(keys, m[id].children)], id) == Inner(keys, m[id].children)
  {
  }

  lemma SameContentsTwice(a: Pages, b: Pages, c: Pages)
    requires SameContents(a, b) && SameContents(b, c)
    ensures SameContents(a, c)
  {
  }

  /** Separators are no contents. */
  lemma AnySeparators(m: Pages, id: PageId, keys: seq<Value>, children: seq<PageId>)
    requires id < |m|
    ensures SameContents(m[id := Inner([], children)], m[id := Inner(keys, children)])
  {
  }

  lemma TwoInnersFound(m: Pages, aId: PageId, aKeys: seq<Value>, a: seq<PageId>, bId: PageId, bKeys: seq<Value>,
                       b: seq<PageId>)
    requires aId < |m| && bId < |m|
    ensures SameContents(m[aId := Inner([], a)][bId := Inner([], b)], m[aId := Inner(aKeys, a)][bId := Inner(bKeys, b)])
  {
  }

  lemma ThreeInnersFound(m: Pages, aId: PageId, aKeys: seq<Value>, a: seq<PageId>, keys: seq<Value>, middle: seq<PageId>,
                         bId: PageId, bKeys: seq<Value>, b: seq<PageId>)
    requires aId < |m| && bId < |m| && aId != bId
    ensures SameContents((m + [Inner([], middle)])[aId := Inner([], a)][bId := Inner([], b)],
                         (m + [Raw])[aId := Inner(aKeys, a)][|m| := Inner(keys, middle)][bId := Inner(bKeys, b)])
  {
  }

  /** Storing a node again with the children it had changes no contents. */
  lemma SameChildren(m: Pages, id: PageId, children: seq<PageId>)
    requires id < |m| && PageAt(m, id).Inner? && PageAt(m, id).children == children
    ensures SameContents(m, m[id := Inner([], children)])
  {
  }

  lemma SameContentsItself(m: Pages)
    ensures SameContents(m, m)
  {
  }

  /** In a two-level index of integers a root that fits still fits with corrected
      separators. */
  lemma CorrectedFits(m: Pages, levels: Levels, info: Infos, k: nat, id: PageId, keys: seq<Value>, children: seq<PageId>)
    requires Shaped(m, levels, info, NO_PAGE) && InOrder(IntType, Flat(m, levels)) && 0 < k < |levels| && id in levels[k]
    requires PageAt(m, id) == Inner(keys, children) && |keys| <= MAX_SEPARATORS
    ensures Fits(Inner(keys, children))
  {
    hide LevelsOk, InOrder, Flat, InnerOverflow;
    IntSeparators(m, levels, info, NO_PAGE, k, id);
    IntInnerLimits(keys, children);
  }

  lemma ParentStored(now: Pages, was: Pages, aId: PageId, a: seq<Entry>, aNext: PageId, bId: PageId, b: seq<Entry>,
                     bNext: PageId, parentId: PageId, children: seq<PageId>)
    requires aId < |was| && bId < |was| && parentId < |was| && aId != bId && parentId != aId && parentId != bId
    requires PageAt(now, parentId).Inner? && PageAt(now, parentId).children == children
    requires now == was[aId := Leaf(a, aNext)][bId := Leaf(b, bNext)][parentId := PageAt(now, parentId)]
    ensures PairShared(now, was, aId, |a|, bId, |b|, parentId, children)
  {
  }

  lemma SplitStored(now: Pages, was: Pages, thirds: Pages, aId: PageId, a: seq<Entry>, middleId: PageId,
                    middle: seq<Entry>, bId: PageId, b: seq<Entry>, parentId: PageId, children: seq<PageId>, i: nat, n: nat)
    requires i + 1 <= |children| && parentId != aId && parentId != bId && parentId < |was|
    requires ThreeOnDisk(thirds, was, aId, a, middleId, middle, bId, b) && |a| >= n && |middle| >= n && |b| >= n
    requires PageAt(now, parentId).Inner?
             && PageAt(now, parentId).children == children[..i + 1] + [middleId] + children[i + 1..]
    requires now == thirds[parentId := PageAt(now, parentId)]
    ensures PairSplit(now, was, aId, bId, parentId, children, i, n)
  {
  }

  /** Only the parent has changed, to these children. */
  ghost predicate ParentOnly(now: Pages, was: Pages, id: PageId, children: seq<PageId>) {
    && |now| == |was| && PageAt(now, id).Inner? && PageAt(now, id).children == children
    && forall x: PageId :: x != id ==> PageAt(now, x) == PageAt(was, x)
  }

  /** A pair of leaves merged into the first, which is then the only leaf or has
      brothers that are large enough. */
  lemma MergeStaysComfortable(now: Pages, merged: Pages, was: Pages, m: Pages, root: PageId, aId: PageId, bId: PageId,
                              es: seq<Entry>, next: PageId, i: nat, least: nat)
    requires ComfortableBut(m, root, [aId, bId], least) && PageAt(m, root).Inner? && aId < |was| && root != aId
    requires forall id: PageId :: id !in [aId, bId] ==> PageAt(was, id) == PageAt(m, id)
    requires merged == was[aId := Leaf(es, next)] && |es| >= least
    requires var cs := PageAt(m, root).children;
             && i + 1 < |cs| && cs[i + 1] == bId && (forall j :: 0 <= j < |cs| && j != i + 1 ==> cs[j] != bId) && |cs| > 2
             && ParentOnly(now, merged, root, cs[..i + 1] + cs[i + 2..])
    ensures Comfortable(now, root, least)
  {
    var cs := PageAt(m, root).children;
    var cs' := cs[..i + 1] + cs[i + 2..];
    forall c | c in cs'
      ensures PageAt(now, c).Leaf? && |PageAt(now, c).entries| >= least
    {
      var j :| 0 <= j < |cs'| && cs'[j] == c;
      assert c == if j <= i then cs[j] else cs[j + 1];
      assert PageAt(m, c).Leaf?;
    }
  }

  lemma ContentsKeepComfort(m: Pages, m': Pages, root: PageId, least: nat)
    requires SameContents(m, m') && Comfortable(m, root, least)
    ensures Comfortable(m', root, least)
  {
    ContentsDecide(m, m', root, [], least);
  }
}
