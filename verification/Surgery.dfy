/** The steps from which the index operations are composed: editing one leaf,
    standing new nodes in for old ones, growing and dropping the root, and the
    path by which an operation climbs back up. */
module Surgery {
  import opened Values
  import opened Nodes
  import opened Ordered
  import opened Shape
  import opened Replace

  // ---- recording minima ----

  function TrueMinOf(m: Pages, info: Infos, id: PageId): Value {
    match PageAt(m, id)
    case Leaf(es, _) => if es == [] then Null else es[0].key
    case Inner(_, cs) => if cs == [] then Null else MinOf(info, cs[0])
    case _ => Null
  }

  ghost function Record(m: Pages, info: Infos, k: nat, ids: seq<PageId>): Infos {
    info + map id | id in ids :: Info(k, TrueMinOf(m, info, id))
  }

  /** The separators `rebuild_internal_keys` computes. */
  ghost function KeysFor(info: Infos, children: seq<PageId>): (keys: seq<Value>)
    requires children != []
    ensures ExactKeys(info, keys, children)
  {
    seq(|children| - 1, i requires 0 <= i < |children| - 1 => MinOf(info, children[i + 1]))
  }

  // ---- new nodes standing in for old ones ----

  ghost predicate FreshOrOld(info: Infos, k: nat, old': seq<PageId>, new': seq<PageId>) {
    && old' != [] && new' != [] && new'[0] == old'[0] && NoDup(new')
    && (forall id :: id in old' ==> Known(info, id, k))
    && (forall id :: id in new' ==> id in old' || (id != NO_PAGE && id !in info))
  }

  ghost predicate SoundLeaf(p: Page) {
    p.Leaf? && p.entries != [] && SmallKeys(p.entries)
  }

  lemma RecordIsConfined(info: Infos, k: nat, old': seq<PageId>, m': Pages, new': seq<PageId>)
    requires FreshOrOld(info, k, old', new')
    ensures Confined(info, old', Record(m', info, k, new'), new')
    ensures forall id :: id in Record(m', info, k, new') ==> id in info || id in new'
    ensures forall id :: id in new' ==> id != NO_PAGE
  {
  }

  lemma LeavesStand(m: Pages, info: Infos, old': seq<PageId>, m': Pages, new': seq<PageId>)
    requires FreshOrOld(info, 0, old', new')
    requires forall id :: id in new' ==> SoundLeaf(PageAt(m', id))
    requires Entries(m', new') == Entries(m, old')
    requires Chained(m', new', NextOf(PageAt(m, old'[|old'| - 1])))
    ensures StandsFor(m, info, 0, old', m', Record(m', info, 0, new'), new')
  {
    hide NoDup, Chained, Entries, Kids;
    RecordIsConfined(info, 0, old', m', new');
    forall id | id in new'
      ensures NodeOk(m', Record(m', info, 0, new'), NO_PAGE, 0, id)
    {
      LeafStands(info, old', m', new', id);
    }
  }

  lemma LeafStands(info: Infos, old': seq<PageId>, m': Pages, new': seq<PageId>, id: PageId)
    requires FreshOrOld(info, 0, old', new')
    requires id in new' && SoundLeaf(PageAt(m', id))
    ensures NodeOk(m', Record(m', info, 0, new'), NO_PAGE, 0, id)
  {
  }

  ghost predicate SoundInner(info: Infos, k: nat, p: Page)
    requires k > 0
  {
    && p.Inner? && ExactKeys(info, p.keys, p.children)
    && forall c :: c in p.children ==> Known(info, c, k - 1)
  }

  lemma InnersStand(m: Pages, info: Infos, k: nat, old': seq<PageId>, m': Pages, new': seq<PageId>)
    requires k > 0 && FreshOrOld(info, k, old', new')
    requires forall id :: id in new' ==> SoundInner(info, k, PageAt(m', id))
    requires Kids(m', new') == Kids(m, old')
    ensures StandsFor(m, info, k, old', m', Record(m', info, k, new'), new')
  {
    hide NoDup, Chained, Entries, Kids;
    RecordIsConfined(info, k, old', m', new');
    forall id | id in new'
      ensures NodeOk(m', Record(m', info, k, new'), NO_PAGE, k, id)
    {
      InnerStands(info, k, old', m', new', id);
    }
  }

  lemma InnerStands(info: Infos, k: nat, old': seq<PageId>, m': Pages, new': seq<PageId>, id: PageId)
    requires k > 0 && FreshOrOld(info, k, old', new')
    requires id in new' && SoundInner(info, k, PageAt(m', id))
    ensures NodeOk(m', Record(m', info, k, new'), NO_PAGE, k, id)
  {
    var info' := Record(m', info, k, new');
    var cs := PageAt(m', id).children;
    forall i | 0 <= i < |cs|
      ensures MinOf(info', cs[i]) == MinOf(info, cs[i])
    {
      assert cs[i] in cs && cs[i] !in old';
    }
    assert cs[0] in cs;
  }

  /** Writing some other page does not disturb the replacement. */
  lemma StandsFrame(m: Pages, info: Infos, k: nat, old': seq<PageId>, m': Pages, info': Infos, new': seq<PageId>,
                    m'': Pages)
    requires StandsFor(m, info, k, old', m', info', new')
    requires forall id :: id in new' ==> PageAt(m'', id) == PageAt(m', id)
    ensures StandsFor(m, info, k, old', m'', info', new')
  {
    EntriesFrame(m', m'', new');
    KidsFrame(m', m'', new');
    assert forall i :: 0 <= i < |new'| ==> new'[i] in new';
  }

  // ---- entries and children of short lists ----

  lemma EntriesOfOne(m: Pages, a: PageId)
    ensures Entries(m, [a]) == EntriesOf(PageAt(m, a))
  {
    assert Entries(m, [a]) == EntriesOf(PageAt(m, a)) + Entries(m, [a][1..]);
  }

  lemma EntriesOfTwo(m: Pages, a: PageId, b: PageId)
    ensures Entries(m, [a, b]) == EntriesOf(PageAt(m, a)) + EntriesOf(PageAt(m, b))
  {
    EntriesOfOne(m, b);
    assert [a, b][1..] == [b];
  }

  lemma EntriesOfThree(m: Pages, a: PageId, b: PageId, c: PageId)
    ensures Entries(m, [a, b, c]) == EntriesOf(PageAt(m, a)) + EntriesOf(PageAt(m, b)) + EntriesOf(PageAt(m, c))
  {
    EntriesOfTwo(m, b, c);
    assert [a, b, c][1..] == [b, c];
  }

  lemma KidsOfOne(m: Pages, a: PageId)
    ensures Kids(m, [a]) == ChildrenOf(PageAt(m, a))
  {
    assert Kids(m, [a]) == ChildrenOf(PageAt(m, a)) + Kids(m, [a][1..]);
  }

  lemma KidsOfTwo(m: Pages, a: PageId, b: PageId)
    ensures Kids(m, [a, b]) == ChildrenOf(PageAt(m, a)) + ChildrenOf(PageAt(m, b))
  {
    KidsOfOne(m, b);
    assert [a, b][1..] == [b];
  }

  lemma KidsOfThree(m: Pages, a: PageId, b: PageId, c: PageId)
    ensures Kids(m, [a, b, c]) == ChildrenOf(PageAt(m, a)) + ChildrenOf(PageAt(m, b)) + ChildrenOf(PageAt(m, c))
  {
    KidsOfTwo(m, b, c);
    assert [a, b, c][1..] == [b, c];
  }

  lemma ChainOfTwo(m: Pages, a: PageId, b: PageId, last: PageId)
    requires NextOf(PageAt(m, a)) == b && NextOf(PageAt(m, b)) == last
    ensures Chained(m, [a, b], last)
  {
  }

  lemma ChainOfThree(m: Pages, a: PageId, b: PageId, c: PageId, last: PageId)
    requires NextOf(PageAt(m, a)) == b && NextOf(PageAt(m, b)) == c && NextOf(PageAt(m, c)) == last
    ensures Chained(m, [a, b, c], last)
  {
  }

  lemma NextInChain(m: Pages, l: seq<PageId>, last: PageId, i: nat)
    requires Chained(m, l, last) && i + 1 < |l|
    ensures NextOf(PageAt(m, l[i])) == l[i + 1]
  {
  }

  /** What is known of neighbouring children of one parent: they are the nodes
      of a stretch of their level, distinct and sound, with adjoining leaves
      linked. */
  lemma Neighbours(m: Pages, levels: Levels, info: Infos, hole: PageId, k: nat, parent: PageId, i: nat)
    requires k + 1 < |levels| && LevelsOk(m, levels, info, hole, |levels|) && parent in levels[k + 1]
    requires i + 1 < |ChildrenOf(PageAt(m, parent))|
    ensures var a, b := ChildrenOf(PageAt(m, parent))[i], ChildrenOf(PageAt(m, parent))[i + 1];
            && a != b && a in levels[k] && b in levels[k] && Known(info, a, k) && Known(info, b, k)
            && NodeOk(m, info, hole, k, a) && NodeOk(m, info, hole, k, b)
            && (k == 0 ==> NextOf(PageAt(m, a)) == b)
  {
    hide LevelOk, NodeOk, NoDup, Chained, Kids, Entries;
    var cs := ChildrenOf(PageAt(m, parent));
    ChildrenDistinct(m, levels, info, hole, k, parent);
    ChildLevel(m, levels, info, hole, |levels|, k + 1, parent, cs[i]);
    ChildLevel(m, levels, info, hole, |levels|, k + 1, parent, cs[i + 1]);
    LevelKnown(m, levels, info, hole, |levels|, k);
    if k == 0 {
      NeighboursAreLinked(m, levels, info, hole, parent, i);
    }
  }

  lemma NeighboursAreLinked(m: Pages, levels: Levels, info: Infos, hole: PageId, parent: PageId, i: nat)
    requires 1 < |levels| && LevelsOk(m, levels, info, hole, |levels|) && parent in levels[1]
    requires i + 1 < |ChildrenOf(PageAt(m, parent))|
    ensures NextOf(PageAt(m, ChildrenOf(PageAt(m, parent))[i])) == ChildrenOf(PageAt(m, parent))[i + 1]
  {
    hide NodeOk, NoDup, Chained, Entries;
    var cs := ChildrenOf(PageAt(m, parent));
    LevelKnown(m, levels, info, hole, |levels|, 0);
    LevelKnown(m, levels, info, hole, |levels|, 1);
    var left, right := Locate(levels[1], parent);
    KidsAround(m, left, parent, right);
    var n := |Kids(m, left)| + i;
    assert levels[0][n] == cs[i] && levels[0][n + 1] == cs[i + 1];
    NextInChain(m, levels[0], NO_PAGE, n);
  }

  // ---- editing one leaf in place ----

  /** New contents for one leaf: the index holds them in the same place, and the
      leaf becomes the hole unless its first key stayed. */
  lemma EditLeaf(m: Pages, levels: Levels, info: Infos, hole: PageId, id: PageId, es: seq<Entry>,
                 left: seq<PageId>, right: seq<PageId>)
    requires Shaped(m, levels, info, hole) && (hole == NO_PAGE || hole == id)
    requires levels[0] == left + [id] + right && id < |m| && m[id].Leaf? && SmallKeys(es)
    ensures var m' := m[id := Leaf(es, m[id].next)];
            && Shaped(m', levels, info, id)
            && (es != [] && MinOf(info, id) == es[0].key ==> Shaped(m', levels, info, NO_PAGE))
            && Flat(m', levels) == Entries(m, left) + es + Entries(m, right)
    ensures Flat(m, levels) == Entries(m, left) + m[id].entries + Entries(m, right)
  {
    var m' := m[id := Leaf(es, m[id].next)];
    LevelKnown(m, levels, info, hole, |levels|, 0);
    NoDupDisjoint(left, [id], right);
    EntriesFrame(m, m', left);
    EntriesFrame(m, m', right);
    EntriesAround(m, left, id, right);
    EntriesAround(m', left, id, right);
    EditLeafLevels(m, levels, info, hole, id, es, id);
    if es != [] && MinOf(info, id) == es[0].key {
      EditLeafLevels(m, levels, info, hole, id, es, NO_PAGE);
    }
  }

  lemma EditLeafLevels(m: Pages, levels: Levels, info: Infos, hole: PageId, id: PageId, es: seq<Entry>, hole': PageId)
    requires Shaped(m, levels, info, hole) && (hole == NO_PAGE || hole == id)
    requires id in levels[0] && id < |m| && m[id].Leaf? && SmallKeys(es)
    requires hole' == id || (es != [] && MinOf(info, id) == es[0].key && hole' == NO_PAGE)
    ensures Shaped(m[id := Leaf(es, m[id].next)], levels, info, hole')
  {
    var m' := m[id := Leaf(es, m[id].next)];
    LevelKnown(m, levels, info, hole, |levels|, 0);
    forall j | 0 <= j < |levels|
      ensures LevelOk(m', levels, info, hole', j)
    {
      LevelKnown(m, levels, info, hole, |levels|, j);
      if j > 0 {
        LevelFrame(m, levels, info, hole, j, m', levels, info, NO_PAGE);
        WeakerHole(m', levels, info, hole', j);
      } else {
        EditedLeafLevel(m, levels, info, hole, id, es, hole');
      }
    }
  }

  lemma EditedLeafLevel(m: Pages, levels: Levels, info: Infos, hole: PageId, id: PageId, es: seq<Entry>, hole': PageId)
    requires |levels| > 0 && LevelOk(m, levels, info, hole, 0) && (hole == NO_PAGE || hole == id)
    requires id in levels[0] && id < |m| && m[id].Leaf? && SmallKeys(es)
    requires hole' == id || (es != [] && MinOf(info, id) == es[0].key && hole' == NO_PAGE)
    ensures LevelOk(m[id := Leaf(es, m[id].next)], levels, info, hole', 0)
  {
    hide NoDup, Chained;
    var m' := m[id := Leaf(es, m[id].next)];
    SameChain(m, m', levels[0]);
    forall x | x in levels[0]
      ensures NodeOk(m', info, hole', 0, x)
    {
      assert NodeOk(m, info, hole, 0, x);
    }
  }

  lemma SameChain(m: Pages, m': Pages, l: seq<PageId>)
    requires Chained(m, l, NO_PAGE) && forall x :: x in l ==> NextOf(PageAt(m', x)) == NextOf(PageAt(m, x))
    ensures Chained(m', l, NO_PAGE)
  {
    assert forall i :: 0 <= i < |l| ==> l[i] in l;
  }

  /** The leftmost page of a level has no separator above it, so a new minimum
      there only has to be recorded. */
  lemma CloseLeftSpine(m: Pages, levels: Levels, info: Infos, k: nat) returns (info': Infos)
    requires k < |levels| && levels[k] != [] && Shaped(m, levels, info, levels[k][0])
    requires k == 0 ==> EntriesOf(PageAt(m, levels[0][0])) != []
    ensures Shaped(m, levels, info', NO_PAGE)
    decreases |levels| - k
  {
    hide LevelOk, NoDup, Chained, Kids, Entries, NodeOk, TrueMin, TrueMinOf;
    var x := levels[k][0];
    var v := TrueMinOf(m, info, x);
    TrueMinIsSmall(m, levels, info, x, |levels|, k, x);
    if k + 1 == |levels| {
      assert levels[k] == [x];
      RecordRootMin(m, levels, info, x, v);
      info' := info[x := Info(k, v)];
    } else {
      FirstKid(m, levels, info, x, |levels|, k);
      var parent := levels[k + 1][0];
      RecordMin(m, levels, info, x, k, parent, 0, v, m);
      info' := CloseLeftSpine(m, levels, info[x := Info(k, v)], k + 1);
    }
  }

  lemma TrueMinIsSmall(m: Pages, levels: Levels, info: Infos, hole: PageId, n: nat, k: nat, x: PageId)
    requires k < n <= |levels| && LevelsOk(m, levels, info, hole, n) && x in levels[k]
    requires k == 0 ==> EntriesOf(PageAt(m, x)) != []
    ensures TrueMin(m, info, x, TrueMinOf(m, info, x)) && EncodedSize(TrueMinOf(m, info, x)) <= MAX_KEY_BYTES
  {
    LevelKnown(m, levels, info, hole, n, k);
    if k > 0 {
      var c := ChildrenOf(PageAt(m, x))[0];
      ChildLevel(m, levels, info, hole, n, k, x, c);
    }
  }

  /** In a sound tree the recorded minimum is the true one. */
  lemma NodeMin(m: Pages, levels: Levels, info: Infos, k: nat, x: PageId)
    requires k < |levels| && LevelsOk(m, levels, info, NO_PAGE, k + 1) && x in levels[k]
    ensures TrueMin(m, info, x, MinOf(info, x)) && TrueMinOf(m, info, x) == MinOf(info, x)
    ensures LevelsOk(m, levels, info, NO_PAGE, k)
    ensures PageAt(m, x).Inner? ==> k > 0 && PageAt(m, x).children[0] in levels[k - 1]
  {
    LevelKnown(m, levels, info, NO_PAGE, k + 1, k);
    assert NodeOk(m, info, NO_PAGE, k, x);
    if k > 0 {
      ChildLevel(m, levels, info, NO_PAGE, k + 1, k, x, ChildrenOf(PageAt(m, x))[0]);
    }
  }

  lemma FirstKid(m: Pages, levels: Levels, info: Infos, hole: PageId, n: nat, k: nat)
    requires k + 1 < n <= |levels| && LevelsOk(m, levels, info, hole, n) && levels[k] != []
    ensures levels[k + 1] != [] && levels[k + 1][0] in levels[k + 1]
    ensures ChildrenOf(PageAt(m, levels[k + 1][0])) != []
    ensures ChildrenOf(PageAt(m, levels[k + 1][0]))[0] == levels[k][0]
  {
    LevelKnown(m, levels, info, hole, n, k + 1);
    if levels[k + 1] != [] {
      assert levels[k + 1][0] in levels[k + 1];
    }
  }

  lemma FirstChildOfLevel(m: Pages, levels: Levels, info: Infos, n: nat, k: nat)
    requires 0 < k < n <= |levels| && LevelsOk(m, levels, info, NO_PAGE, n) && levels[k] != []
    ensures levels[k - 1] != [] && ChildrenOf(PageAt(m, levels[k][0])) != []
    ensures levels[k - 1][0] == ChildrenOf(PageAt(m, levels[k][0]))[0] && levels[k - 1][0] in levels[k - 1]
  {
    LevelKnown(m, levels, info, NO_PAGE, n, k);
    assert levels[k][0] in levels[k];
  }

  // ---- growing and dropping the root ----

  /** A root that has become two nodes gets a new root above it. */
  lemma GrowRoot(m: Pages, levels: Levels, info: Infos, new': seq<PageId>, m': Pages, info': Infos,
                 top: PageId, m'': Pages)
    requires Shaped(m, levels, info, NO_PAGE)
    requires new' != [] && StandsFor(m, info, |levels| - 1, levels[|levels| - 1], m', info', new')
    requires SameBelow(m, m', info, |levels|, levels[|levels| - 1] + new')
    requires top != NO_PAGE && top !in info'
    requires PageAt(m'', top).Inner? && PageAt(m'', top).children == new' && ExactKeys(info', PageAt(m'', top).keys, new')
    requires forall id :: id in info' ==> PageAt(m'', id) == PageAt(m', id) && id < |m''|
    requires top < |m''|
    ensures var levels' := levels[|levels| - 1 := new'] + [[top]];
            var info'' := info'[top := Info(|levels|, MinOf(info', new'[0]))];
            Shaped(m'', levels', info'', NO_PAGE) && Flat(m'', levels') == Flat(m, levels)
  {
    hide LevelOk, NodeOk, NoDup, Chained, Kids, Entries, StandsFor, SameBelow, ExactKeys;
    var k := |levels| - 1;
    var lower := levels[k := new'];
    var levels' := lower + [[top]];
    var info'' := info'[top := Info(|levels|, MinOf(info', new'[0]))];
    assert levels[k] == [] + levels[k] + [] && new' == [] + new' + [];
    SameBelowLess(m, m', info, |levels|, k, levels[k] + new');
    ReplaceLevel(m, levels, info, NO_PAGE, k, [], levels[k], new', [], m', info');
    LiftLevels(m', lower, info', m'', levels', info'');
    NewTopLevel(m', lower, info', new', top, m'');
    assert forall j :: 0 <= j < |levels'| ==> LevelOk(m'', levels', info'', NO_PAGE, j);
  }

  lemma NewTopLevel(m: Pages, levels: Levels, info: Infos, children: seq<PageId>, top: PageId, m': Pages)
    requires |levels| > 0 && LevelsOk(m, levels, info, NO_PAGE, |levels|) && children == levels[|levels| - 1]
    requires top != NO_PAGE && top !in info && children != []
    requires PageAt(m', top).Inner? && PageAt(m', top).children == children
    requires ExactKeys(info, PageAt(m', top).keys, children)
    ensures LevelOk(m', levels + [[top]], info[top := Info(|levels|, MinOf(info, children[0]))], NO_PAGE, |levels|)
  {
    LevelKnown(m, levels, info, NO_PAGE, |levels|, |levels| - 1);
    KidsOfOne(m', top);
    NewRootNode(m', info, |levels| - 1, children, top);
  }

  /** Adding a level on top changes nothing below. */
  lemma LiftLevels(m: Pages, levels: Levels, info: Infos, m': Pages, levels': Levels, info': Infos)
    requires |levels| > 0 && LevelsOk(m, levels, info, NO_PAGE, |levels|)
    requires |levels'| == |levels| + 1 && levels'[..|levels|] == levels
    requires forall id :: id in info ==> PageAt(m', id) == PageAt(m, id) && id in info' && info'[id] == info[id]
    ensures forall j :: 0 <= j < |levels| ==> LevelOk(m', levels', info', NO_PAGE, j)
    ensures Entries(m', levels[0]) == Entries(m, levels[0])
  {
    forall j | 0 <= j < |levels|
      ensures LevelOk(m', levels', info', NO_PAGE, j)
    {
      assert levels'[j] == levels[j];
      LevelKnown(m, levels, info, NO_PAGE, |levels|, j);
      if j > 0 {
        assert levels'[j - 1] == levels[j - 1];
        LevelKnown(m, levels, info, NO_PAGE, |levels|, j - 1);
      }
      LevelFrame(m, levels, info, NO_PAGE, j, m', levels', info', NO_PAGE);
    }
    LevelKnown(m, levels, info, NO_PAGE, |levels|, 0);
    EntriesFrame(m, m', levels[0]);
  }

  lemma NewRootNode(m: Pages, info: Infos, k: nat, children: seq<PageId>, top: PageId)
    requires top != NO_PAGE && top !in info && children != []
    requires PageAt(m, top).Inner? && PageAt(m, top).children == children
             && ExactKeys(info, PageAt(m, top).keys, children)
    requires forall c :: c in children ==> Known(info, c, k)
    ensures InnerOk(m, info[top := Info(k + 1, MinOf(info, children[0]))], NO_PAGE, k + 1, top)
  {
    var info' := info[top := Info(k + 1, MinOf(info, children[0]))];
    assert children[0] in children;
    forall i | 0 <= i < |children|
      ensures MinOf(info', children[i]) == MinOf(info, children[i])
    {
      assert Known(info, children[i], k) && children[i] != top;
    }
  }

  /** A root with one child can be dropped: the child becomes the root. */
  lemma DropRoot(m: Pages, levels: Levels, info: Infos, hole: PageId, m': Pages)
    requires Shaped(m, levels, info, hole) && |levels| > 1
    requires var top := levels[|levels| - 1][0];
             && |ChildrenOf(PageAt(m, top))| == 1 && (hole == NO_PAGE || hole == top)
             && (forall id :: id != top ==> PageAt(m', id) == PageAt(m, id)) && |m'| == |m|
    ensures var levels' := levels[..|levels| - 1];
            && Shaped(m', levels', info, NO_PAGE) && Flat(m', levels') == Flat(m, levels)
            && levels'[|levels'| - 1][0] == ChildrenOf(PageAt(m, levels[|levels| - 1][0]))[0]
  {
    hide LevelOk, NodeOk, NoDup, Chained, Kids, Entries;
    var top, k := levels[|levels| - 1][0], |levels| - 1;
    TopPage(m, levels, info, hole);
    LowerLevels(m, levels, info, hole, k, m');
    ShorterLevels(m', levels, info, k);
    LevelKnown(m, levels, info, hole, |levels|, 0);
    EntriesFrame(m, m', levels[0]);
  }

  lemma TopPage(m: Pages, levels: Levels, info: Infos, hole: PageId)
    requires Shaped(m, levels, info, hole) && |levels| > 1
    ensures var k := |levels| - 1;
            && Known(info, levels[k][0], k) && LevelsOk(m, levels, info, hole, k)
            && levels[k - 1] == ChildrenOf(PageAt(m, levels[k][0]))
  {
    var k := |levels| - 1;
    LevelKnown(m, levels, info, hole, |levels|, k);
    assert levels[k] == [levels[k][0]] && levels[k][0] in levels[k];
    KidsOfOne(m, levels[k][0]);
  }

  lemma ShorterLevels(m: Pages, levels: Levels, info: Infos, n: nat)
    requires n <= |levels| && LevelsOk(m, levels, info, NO_PAGE, n)
    ensures LevelsOk(m, levels[..n], info, NO_PAGE, n)
  {
    hide NodeOk, NoDup, Chained, Kids;
    forall j | 0 <= j < n
      ensures LevelOk(m, levels[..n], info, NO_PAGE, j)
    {
      LevelKnown(m, levels, info, NO_PAGE, n, j);
    }
  }

  // ---- the levels below a page that is only in memory ----

  /** The levels below height n do not depend on the pages above them. */
  lemma LowerLevels(m: Pages, levels: Levels, info: Infos, hole: PageId, n: nat, m': Pages)
    requires n <= |levels| && LevelsOk(m, levels, info, hole, n)
    requires hole == NO_PAGE || (hole in info && info[hole].level >= n)
    requires forall id :: id in info && info[id].level < n ==> PageAt(m', id) == PageAt(m, id)
    ensures LevelsOk(m', levels, info, NO_PAGE, n)
  {
    forall j | 0 <= j < n
      ensures LevelOk(m', levels, info, NO_PAGE, j)
    {
      LevelKnown(m, levels, info, hole, n, j);
      LevelFrame(m, levels, info, hole, j, m', levels, info, NO_PAGE);
    }
  }

  // ---- paths ----

  /** `path` leads from the root down, one child at a time. */
  ghost predicate PathTo(m: Pages, levels: Levels, path: seq<PageId>) {
    && 1 <= |path| <= |levels|
    && |levels[|levels| - 1]| == 1
    && path[0] == levels[|levels| - 1][0]
    && (forall i :: 0 <= i < |path| ==> path[i] in levels[|levels| - 1 - i])
    && (forall i :: 0 < i < |path| ==> path[i] in ChildrenOf(PageAt(m, path[i - 1])))
  }

  /** The height of the page a path ends at. */
  function HeightOf(levels: Levels, path: seq<PageId>): nat
    requires |path| <= |levels|
  {
    |levels| - |path|
  }

  function Last(path: seq<PageId>): PageId
    requires path != []
  {
    path[|path| - 1]
  }

  /** A path survives any change at or below the height where it ends, and a
      rewrite of its last page. */
  lemma PathSurvives(m: Pages, levels: Levels, path: seq<PageId>, m': Pages, levels': Levels)
    requires PathTo(m, levels, path) && |levels'| == |levels|
    requires forall j :: HeightOf(levels, path) <= j < |levels| ==> levels'[j] == levels[j]
    requires forall i :: 0 <= i < |path| - 1 ==> PageAt(m', path[i]) == PageAt(m, path[i])
    ensures PathTo(m', levels', path)
  {
    forall i | 0 < i < |path|
      ensures path[i] in ChildrenOf(PageAt(m', path[i - 1]))
    {
      assert PageAt(m', path[i - 1]) == PageAt(m, path[i - 1]);
    }
  }

  lemma PathPrefix(m: Pages, levels: Levels, path: seq<PageId>, n: nat)
    requires PathTo(m, levels, path) && 1 <= n <= |path|
    ensures PathTo(m, levels, path[..n])
  {
  }

  /** `ReplaceChildren` for an operation that is on its way up: the path to the
      parent is still a path, and root and first leaf stay where they were. */
  lemma ReplaceOnPath(m: Pages, levels: Levels, info: Infos, hole: PageId, k: nat, s: Site, new': seq<PageId>,
                      m': Pages, info': Infos, path: seq<PageId>)
    requires Shaped(m, levels, info, hole) && At(m, levels, k, s)
    requires hole == NO_PAGE || hole in s.old'
    requires StandsFor(m, info, k, s.old', m', info', new') && ParentRebuilt(m', info', s, new')
    requires SameBelow(m, m', info, |levels|, Touched(s, new'))
    requires InfoBounded(m', info')
    requires PathTo(m, levels, path) && |path| + k + 1 == |levels| && Last(path) == s.parent
    ensures var levels' := Spliced(m, levels, k, s, new');
            && Shaped(m', levels', info', s.parent)
            && (FirstKept(info, info', s, new') ==> Shaped(m', levels', info', NO_PAGE))
            && Flat(m', levels') == Flat(m, levels)
            && PathTo(m', levels', path)
            && levels'[|levels'| - 1] == levels[|levels| - 1]
            && levels[0] != [] && levels'[0] != [] && levels'[0][0] == levels[0][0]
  {
    ReplaceChildren(m, levels, info, hole, k, s, new', m', info');
    SplicedEnds(m, levels, info, hole, k, s, new');
    AncestorsUntouched(m, levels, info, hole, k, s, new', m', info', path);
    PathSurvives(m, levels, path, m', Spliced(m, levels, k, s, new'));
    hide *;
  }

  /** Putting the rebuilt parent in place completes a replacement. */
  lemma RebuiltOnDisk(m: Pages, levels: Levels, info: Infos, hole: PageId, k: nat, s: Site, new': seq<PageId>,
                      m': Pages, info': Infos, m'': Pages, keys: seq<Value>)
    requires Shaped(m, levels, info, hole) && At(m, levels, k, s) && (hole == NO_PAGE || hole in s.old')
    requires StandsFor(m, info, k, s.old', m', info', new') && InfoBounded(m', info')
    requires SameBelow(m, m', info, |levels|, Touched(s, new'))
    requires s.parent < |m'| && ExactKeys(info', keys, s.before + new' + s.after)
    requires m'' == m'[s.parent := Inner(keys, s.before + new' + s.after)]
    ensures StandsFor(m, info, k, s.old', m'', info', new') && ParentRebuilt(m'', info', s, new')
    ensures SameBelow(m, m'', info, |levels|, Touched(s, new')) && InfoBounded(m'', info')
  {
    hide Shaped, At, NoDup, Chained, LevelOk, Entries, Kids, NodeOk, Confined, LevelsOk;
    ParentIsNotNew(m, levels, info, hole, k, s, info', new');
    StandsFrame(m, info, k, s.old', m', info', new', m'');
  }

  lemma ParentIsNotNew(m: Pages, levels: Levels, info: Infos, hole: PageId, k: nat, s: Site, info': Infos,
                       new': seq<PageId>)
    requires Shaped(m, levels, info, hole) && At(m, levels, k, s)
    requires Confined(info, s.old', info', new')
    ensures s.parent !in new'
  {
    hide LevelOk, NoDup, Chained, Entries, Kids;
    LevelKnown(m, levels, info, hole, |levels|, k);
    LevelKnown(m, levels, info, hole, |levels|, k + 1);
    SiteInLevel(m, levels, k, s);
    assert s.parent in levels[k + 1];
    assert forall x :: x in s.old' ==> x in levels[k];
  }

  lemma SplicedEnds(m: Pages, levels: Levels, info: Infos, hole: PageId, k: nat, s: Site, new': seq<PageId>)
    requires Shaped(m, levels, info, hole) && At(m, levels, k, s)
    requires s.old' != [] && new' != [] && new'[0] == s.old'[0]
    ensures var levels' := Spliced(m, levels, k, s, new');
            && levels'[|levels'| - 1] == levels[|levels| - 1]
            && levels[0] != [] && levels'[0] != [] && levels'[0][0] == levels[0][0]
  {
    LevelKnown(m, levels, info, hole, |levels|, k + 1);
    LevelsNonEmpty(m, levels, info, hole, 0);
    SiteInLevel(m, levels, k, s);
    FirstLevelStart(LevelBefore(m, s), s.old', new', LevelAfter(m, s));
  }

  lemma AncestorsUntouched(m: Pages, levels: Levels, info: Infos, hole: PageId, k: nat, s: Site, new': seq<PageId>,
                           m': Pages, info': Infos, path: seq<PageId>)
    requires Shaped(m, levels, info, hole) && At(m, levels, k, s)
    requires hole == NO_PAGE || hole in s.old'
    requires Confined(info, s.old', info', new')
    requires SameBelow(m, m', info, |levels|, Touched(s, new'))
    requires PathTo(m, levels, path) && |path| + k + 1 == |levels| && Last(path) == s.parent
    ensures forall i :: 0 <= i < |path| - 1 ==> PageAt(m', path[i]) == PageAt(m, path[i])
  {
    hide NodeOk, NoDup, Kids, Chained, Confined;
    LevelKnown(m, levels, info, hole, |levels|, k);
    LevelKnown(m, levels, info, hole, |levels|, k + 1);
    ReplacementIsLow(m, levels, info, hole, k, s, new', m', info');
    forall i | 0 <= i < |path| - 1
      ensures PageAt(m', path[i]) == PageAt(m, path[i])
    {
      var h := |levels| - 1 - i;
      LevelKnown(m, levels, info, hole, |levels|, h);
      assert path[i] in levels[h];
    }
  }

  lemma FirstLevelStart(a: seq<PageId>, old': seq<PageId>, new': seq<PageId>, b: seq<PageId>)
    requires old' != [] && new' != [] && new'[0] == old'[0]
    ensures (a + old' + b) != [] && (a + new' + b) != [] && (a + new' + b)[0] == (a + old' + b)[0]
  {
  }

  lemma {:induction false} LevelsNonEmpty(m: Pages, levels: Levels, info: Infos, hole: PageId, k: nat)
    requires |levels| > 0 && |levels[|levels| - 1]| == 1 && LevelsOk(m, levels, info, hole, |levels|) && k < |levels|
    ensures levels[k] != []
    decreases |levels| - k
  {
    if k + 1 < |levels| {
      LevelsNonEmpty(m, levels, info, hole, k + 1);
      LevelKnown(m, levels, info, hole, |levels|, k + 1);
      var x := levels[k + 1][0];
      assert x in levels[k + 1];
      var c := ChildrenOf(PageAt(m, x))[0];
      ChildIsKid(m, levels[k + 1], x, c);
    }
  }

  /** The parent on a path is an inner node one level up that lists the page the
      path ends at. */
  lemma ParentOnPath(m: Pages, levels: Levels, info: Infos, hole: PageId, path: seq<PageId>)
    requires PathTo(m, levels, path) && |path| > 1 && LevelsOk(m, levels, info, hole, |levels|)
    requires hole == NO_PAGE || hole == Last(path)
    ensures var parent := path[|path| - 2];
            && parent in levels[HeightOf(levels, path) + 1]
            && NodeOk(m, info, NO_PAGE, HeightOf(levels, path) + 1, parent)
            && Last(path) in levels[HeightOf(levels, path)]
            && Last(path) in ChildrenOf(PageAt(m, parent)) && parent != Last(path)
            && parent < |m|
  {
    var k := HeightOf(levels, path);
    LevelKnown(m, levels, info, hole, |levels|, k);
    LevelKnown(m, levels, info, hole, |levels|, k + 1);
  }

  /** Separators are short keys, so a node that overflows has many children. */
  lemma OverflowingInner(m: Pages, levels: Levels, info: Infos, hole: PageId, k: nat, x: PageId)
    requires 0 < k < |levels| && LevelsOk(m, levels, info, hole, |levels|) && x in levels[k]
    ensures PageAt(m, x).Inner? && |PageAt(m, x).children| >= 1
    ensures InnerOverflow(PageAt(m, x).keys, PageAt(m, x).children) ==> |PageAt(m, x).children| >= 8
    ensures !InnerUnderflow(PageAt(m, x).keys, PageAt(m, x).children) ==> |PageAt(m, x).children| >= 7
  {
    hide LevelsOk, LevelOk, NoDup, InnerBytes, InnerOverflow, InnerUnderflow;
    LevelNode(m, levels, info, hole, |levels|, k, x);
    var keys, cs := PageAt(m, x).keys, PageAt(m, x).children;
    forall i | 0 <= i < |keys|
      ensures EncodedSize(keys[i]) <= MAX_KEY_BYTES
    {
      ChildLevel(m, levels, info, hole, |levels|, k, x, cs[i + 1]);
    }
    InnerCountFromBytes(keys, cs);
  }

  // ---- two neighbours becoming one, two or three nodes ----

  lemma PairSite(m: Pages, levels: Levels, info: Infos, hole: PageId, k: nat, parent: PageId, i: nat) returns (s: Site)
    requires k + 1 < |levels| && LevelsOk(m, levels, info, hole, |levels|) && parent in levels[k + 1]
    requires i + 1 < |ChildrenOf(PageAt(m, parent))|
    ensures var cs := ChildrenOf(PageAt(m, parent));
            && At(m, levels, k, s) && s.parent == parent
            && s.old' == [cs[i], cs[i + 1]] && s.before == cs[..i] && s.after == cs[i + 2..]
  {
    s := LocateChildren(m, levels, k, parent, i, 2);
  }

  /** Below a pair that is being rewritten, disk and memory agree. */
  lemma LowerOnDisk(m: Pages, levels: Levels, info: Infos, hole: PageId, k: nat, a: PageId, b: PageId, m': Pages)
    requires k < |levels| && LevelsOk(m, levels, info, hole, |levels|) && a in levels[k] && b in levels[k]
    requires hole == NO_PAGE || hole == a || hole == b
    requires forall id :: id in info && id != a && id != b ==> PageAt(m', id) == PageAt(m, id)
    ensures LevelsOk(m', levels, info, NO_PAGE, k)
  {
    LevelKnown(m, levels, info, hole, |levels|, k);
    LowerLevels(m, levels, info, hole, k, m');
  }

  lemma PairChildren(m: Pages, levels: Levels, info: Infos, hole: PageId, k: nat, a: PageId, b: PageId)
    requires 0 < k < |levels| && LevelsOk(m, levels, info, hole, |levels|) && a in levels[k] && b in levels[k]
    ensures forall c :: c in ChildrenOf(PageAt(m, a)) + ChildrenOf(PageAt(m, b)) ==> c in levels[k - 1]
  {
    forall c | c in ChildrenOf(PageAt(m, a)) + ChildrenOf(PageAt(m, b))
      ensures c in levels[k - 1]
    {
      var x := if c in ChildrenOf(PageAt(m, a)) then a else b;
      ChildLevel(m, levels, info, hole, |levels|, k, x, c);
    }
  }

  /** Pages that may take over from neighbours a and b. */
  ghost predicate Takeover(info: Infos, a: PageId, b: PageId, new': seq<PageId>) {
    && new' != [] && new'[0] == a && NoDup(new')
    && forall id :: id in new' ==> id == a || id == b || (id != NO_PAGE && id !in info)
  }

  ghost predicate SharedInners(m: Pages, info: Infos, a: PageId, b: PageId, m': Pages, new': seq<PageId>) {
    && (forall id :: id in new' ==>
          PageAt(m', id).Inner? && ExactKeys(info, PageAt(m', id).keys, PageAt(m', id).children))
    && Kids(m', new') == ChildrenOf(PageAt(m, a)) + ChildrenOf(PageAt(m, b))
  }

  ghost predicate SharedLeaves(m: Pages, a: PageId, b: PageId, m': Pages, new': seq<PageId>) {
    && (forall id :: id in new' ==> PageAt(m', id).Leaf? && PageAt(m', id).entries != [])
    && Entries(m', new') == EntriesOf(PageAt(m, a)) + EntriesOf(PageAt(m, b))
    && Chained(m', new', NextOf(PageAt(m, b)))
  }

  lemma TakeoverIsFreshOrOld(m: Pages, levels: Levels, info: Infos, hole: PageId, k: nat, a: PageId, b: PageId,
                             new': seq<PageId>)
    requires k < |levels| && LevelsOk(m, levels, info, hole, |levels|) && a in levels[k] && b in levels[k]
    requires Takeover(info, a, b, new')
    ensures FreshOrOld(info, k, [a, b], new')
  {
    hide LevelOk, NoDup, LevelsOk;
    LevelKnown(m, levels, info, hole, |levels|, k);
  }

  /** Inner nodes that share out the children of two neighbours stand for them. */
  lemma InnersTakeOver(m: Pages, levels: Levels, info: Infos, hole: PageId, k: nat, a: PageId, b: PageId,
                       m': Pages, new': seq<PageId>)
    requires 0 < k < |levels| && LevelsOk(m, levels, info, hole, |levels|) && a in levels[k] && b in levels[k]
    requires Takeover(info, a, b, new') && SharedInners(m, info, a, b, m', new')
    ensures StandsFor(m, info, k, [a, b], m', Record(m', info, k, new'), new')
  {
    hide LevelOk, NoDup, Chained, Entries, Kids, LevelsOk, ExactKeys, Known, StandsFor, FreshOrOld;
    TakeoverIsFreshOrOld(m, levels, info, hole, k, a, b, new');
    forall id | id in new'
      ensures SoundInner(info, k, PageAt(m', id))
    {
      forall c | c in PageAt(m', id).children
        ensures Known(info, c, k - 1)
      {
        ChildIsKid(m', new', id, c);
        var x := if c in ChildrenOf(PageAt(m, a)) then a else b;
        ChildLevel(m, levels, info, hole, |levels|, k, x, c);
      }
    }
    KidsOfTwo(m, a, b);
    InnersStand(m, info, k, [a, b], m', new');
  }

  lemma EntryIsIn(m: Pages, l: seq<PageId>, id: PageId, e: Entry)
    requires id in l && e in EntriesOf(PageAt(m, id))
    ensures e in Entries(m, l)
  {
    if id != l[0] {
      EntryIsIn(m, l[1..], id, e);
    }
  }

  /** Leaves that share out the entries of two neighbours stand for them. */
  lemma LeavesTakeOver(m: Pages, levels: Levels, info: Infos, hole: PageId, a: PageId, b: PageId,
                       m': Pages, new': seq<PageId>)
    requires 0 < |levels| && LevelsOk(m, levels, info, hole, |levels|) && a in levels[0] && b in levels[0]
    requires Takeover(info, a, b, new') && SharedLeaves(m, a, b, m', new')
    ensures StandsFor(m, info, 0, [a, b], m', Record(m', info, 0, new'), new')
  {
    hide LevelOk, NoDup, Chained, Entries, Kids, LevelsOk, Known, StandsFor, FreshOrOld;
    TakeoverIsFreshOrOld(m, levels, info, hole, 0, a, b, new');
    LevelNode(m, levels, info, hole, |levels|, 0, a);
    LevelNode(m, levels, info, hole, |levels|, 0, b);
    forall id | id in new'
      ensures SoundLeaf(PageAt(m', id))
    {
      var es := PageAt(m', id).entries;
      forall i | 0 <= i < |es|
        ensures EncodedSize(es[i].key) <= MAX_KEY_BYTES
      {
        EntryIsIn(m', new', id, es[i]);
      }
    }
    EntriesOfTwo(m, a, b);
    LeavesStand(m, info, [a, b], m', new');
  }

  /** Page a still starts with the same entry, or the same child. */
  ghost predicate SameStart(m: Pages, a: PageId, m': Pages) {
    match PageAt(m', a)
    case Leaf(es, _) => es != [] && EntriesOf(PageAt(m, a)) != [] && es[0] == EntriesOf(PageAt(m, a))[0]
    case Inner(_, cs) => cs != [] && ChildrenOf(PageAt(m, a)) != [] && cs[0] == ChildrenOf(PageAt(m, a))[0]
    case _ => false
  }

  /** When the first of the new nodes starts like the old one, the parent's
      first minimum is what it was. */
  lemma FirstMinKept(m: Pages, info: Infos, k: nat, a: PageId, m': Pages, new': seq<PageId>)
    requires new' != [] && new'[0] == a && NodeOk(m, info, NO_PAGE, k, a) && SameStart(m, a, m')
    requires if k == 0 then PageAt(m', a).Leaf? else PageAt(m', a).Inner?
    ensures MinOf(Record(m', info, k, new'), new'[0]) == MinOf(info, a)
  {
    assert a in new';
  }

  /** Everything `RebuildParent` wants to know about a pair that has been
      rewritten on disk. */
  lemma PairRewritten(m: Pages, levels: Levels, info: Infos, hole: PageId, k: nat, s: Site, a: PageId, b: PageId,
                      m': Pages, new': seq<PageId>)
    requires Shaped(m, levels, info, hole) && k < |levels| && a in levels[k] && b in levels[k] && s.old' == [a, b]
    requires Takeover(info, a, b, new') && |m| <= |m'| && forall id :: id in new' ==> id < |m'|
    requires k == 0 ==> SharedLeaves(m, a, b, m', new')
    requires k > 0 ==> SharedInners(m, info, a, b, m', new')
    requires forall id :: id in info && id != a && id != b ==> PageAt(m', id) == PageAt(m, id)
    ensures StandsFor(m, info, k, s.old', m', Record(m', info, k, new'), new')
    ensures InfoBounded(m', Record(m', info, k, new'))
    ensures SameBelow(m, m', info, |levels|, Touched(s, new'))
  {
    hide LevelsOk, NoDup, SharedLeaves, SharedInners, StandsFor;
    if k == 0 {
      LeavesTakeOver(m, levels, info, hole, a, b, m', new');
    } else {
      InnersTakeOver(m, levels, info, hole, k, a, b, m', new');
    }
  }

  /** The children of a parent once the pair at i has become `new'`. */
  function WithPair(cs: seq<PageId>, i: nat, new': seq<PageId>): seq<PageId>
    requires i + 1 < |cs|
  {
    cs[..i] + new' + cs[i + 2..]
  }

  /** A page inserted behind the first of two neighbours stands between them. */
  lemma BetweenPair(cs: seq<PageId>, i: nat, a: PageId, b: PageId, x: PageId)
    requires i + 1 < |cs| && cs[i] == a && cs[i + 1] == b
    ensures cs[..i + 1] + [x] + cs[i + 1..] == WithPair(cs, i, [a, x, b])
  {
  }

  lemma WithoutSecond(cs: seq<PageId>, i: nat, a: PageId, b: PageId)
    requires i + 1 < |cs| && cs[i] == a && cs[i + 1] == b
    ensures cs[..i + 1] + cs[i + 2..] == WithPair(cs, i, [a])
  {
  }

  lemma SecondIsNotHead(l: seq<PageId>, a: PageId, b: PageId, r: seq<PageId>)
    requires NoDup(l + [a, b] + r)
    ensures (l + [a, b] + r)[0] != b
  {
    var s := l + [a, b] + r;
    assert s[|l| + 1] == b;
  }

  lemma SamePair(cs: seq<PageId>, i: nat, a: PageId, b: PageId)
    requires i + 1 < |cs| && cs[i] == a && cs[i + 1] == b
    ensures WithPair(cs, i, [a, b]) == cs
  {
  }

  /** Neighbouring leaves hold neighbouring entries. */
  lemma StretchInOrder(m: Pages, levels: Levels, info: Infos, hole: PageId, t: DataType, s: Site, a: PageId, b: PageId)
    requires Shaped(m, levels, info, hole) && At(m, levels, 0, s) && s.old' == [a, b] && InOrder(t, Flat(m, levels))
    ensures InOrder(t, EntriesOf(PageAt(m, a)) + EntriesOf(PageAt(m, b)))
  {
    hide InOrder, NoDup;
    LevelKnown(m, levels, info, hole, |levels|, 1);
    SiteInLevel(m, levels, 0, s);
    var l, r := LevelBefore(m, s), LevelAfter(m, s);
    EntriesAppend(m, l + [a, b], r);
    EntriesAppend(m, l, [a, b]);
    EntriesOfTwo(m, a, b);
    OrderedParts(t, Entries(m, l) + Entries(m, [a, b]), Entries(m, r));
    OrderedParts(t, Entries(m, l), Entries(m, [a, b]));
  }

  lemma SharesWithin(a: seq<PageId>, b: seq<PageId>, c: seq<PageId>, level: seq<PageId>)
    requires forall x :: x in a + b + c ==> x in level
    ensures forall x :: x in a ==> x in level
    ensures forall x :: x in b ==> x in level
    ensures forall x :: x in c ==> x in level
  {
    assert forall x :: x in a || x in b || x in c ==> x in a + b + c;
  }

  lemma ThreeInners(m: Pages, info: Infos, a: PageId, b: PageId, x: PageId, m': Pages)
    requires a != b && a != x && b != x && x != NO_PAGE && x !in info
    requires PageAt(m', a).Inner? && ExactKeys(info, PageAt(m', a).keys, PageAt(m', a).children)
    requires PageAt(m', x).Inner? && ExactKeys(info, PageAt(m', x).keys, PageAt(m', x).children)
    requires PageAt(m', b).Inner? && ExactKeys(info, PageAt(m', b).keys, PageAt(m', b).children)
    requires PageAt(m', a).children + PageAt(m', x).children + PageAt(m', b).children
             == ChildrenOf(PageAt(m, a)) + ChildrenOf(PageAt(m, b))
    ensures Takeover(info, a, b, [a, x, b]) && SharedInners(m, info, a, b, m', [a, x, b])
  {
    KidsOfThree(m', a, x, b);
  }

  lemma TwoInners(m: Pages, info: Infos, a: PageId, b: PageId, m': Pages)
    requires a != b
    requires PageAt(m', a).Inner? && ExactKeys(info, PageAt(m', a).keys, PageAt(m', a).children)
    requires PageAt(m', b).Inner? && ExactKeys(info, PageAt(m', b).keys, PageAt(m', b).children)
    requires PageAt(m', a).children + PageAt(m', b).children == ChildrenOf(PageAt(m, a)) + ChildrenOf(PageAt(m, b))
    ensures Takeover(info, a, b, [a, b]) && SharedInners(m, info, a, b, m', [a, b])
  {
    KidsOfTwo(m', a, b);
  }

  lemma OneInner(m: Pages, info: Infos, a: PageId, b: PageId, m': Pages)
    requires PageAt(m', a).Inner? && ExactKeys(info, PageAt(m', a).keys, PageAt(m', a).children)
    requires PageAt(m', a).children == ChildrenOf(PageAt(m, a)) + ChildrenOf(PageAt(m, b))
    ensures Takeover(info, a, b, [a]) && SharedInners(m, info, a, b, m', [a])
  {
    KidsOfOne(m', a);
  }

  lemma ThreeLeaves(m: Pages, info: Infos, a: PageId, b: PageId, x: PageId, m': Pages)
    requires a != b && a != x && b != x && x != NO_PAGE && x !in info
    requires PageAt(m', a).Leaf? && PageAt(m', x).Leaf? && PageAt(m', b).Leaf?
    requires PageAt(m', a).entries != [] && PageAt(m', x).entries != [] && PageAt(m', b).entries != []
    requires PageAt(m', a).entries + PageAt(m', x).entries + PageAt(m', b).entries
             == EntriesOf(PageAt(m, a)) + EntriesOf(PageAt(m, b))
    requires PageAt(m', a).next == x && PageAt(m', x).next == b && PageAt(m', b).next == NextOf(PageAt(m, b))
    ensures Takeover(info, a, b, [a, x, b]) && SharedLeaves(m, a, b, m', [a, x, b])
  {
    EntriesOfThree(m', a, x, b);
    ChainOfThree(m', a, x, b, NextOf(PageAt(m, b)));
  }

  lemma TwoLeaves(m: Pages, info: Infos, a: PageId, b: PageId, m': Pages)
    requires a != b
    requires PageAt(m', a).Leaf? && PageAt(m', b).Leaf? && PageAt(m', a).entries != [] && PageAt(m', b).entries != []
    requires PageAt(m', a).entries + PageAt(m', b).entries == EntriesOf(PageAt(m, a)) + EntriesOf(PageAt(m, b))
    requires PageAt(m', a).next == b && PageAt(m', b).next == NextOf(PageAt(m, b))
    ensures Takeover(info, a, b, [a, b]) && SharedLeaves(m, a, b, m', [a, b])
  {
    EntriesOfTwo(m', a, b);
    ChainOfTwo(m', a, b, NextOf(PageAt(m, b)));
  }

  lemma OneLeaf(m: Pages, info: Infos, a: PageId, b: PageId, m': Pages)
    requires PageAt(m', a).Leaf? && PageAt(m', a).entries != []
    requires PageAt(m', a).entries == EntriesOf(PageAt(m, a)) + EntriesOf(PageAt(m, b))
    requires PageAt(m', a).next == NextOf(PageAt(m, b))
    ensures Takeover(info, a, b, [a]) && SharedLeaves(m, a, b, m', [a])
  {
    EntriesOfOne(m', a);
  }

  // ---- one leaf becoming two ----

  lemma LeafDivided(m: Pages, levels: Levels, info: Infos, a: PageId, b: PageId, m': Pages)
    requires Shaped(m, levels, info, NO_PAGE) && a in levels[0] && b != NO_PAGE && b !in info && b < |m'| && |m| <= |m'|
    requires PageAt(m', a).Leaf? && PageAt(m', b).Leaf? && PageAt(m', a).entries != [] && PageAt(m', b).entries != []
    requires PageAt(m', a).entries + PageAt(m', b).entries == EntriesOf(PageAt(m, a))
    requires PageAt(m', a).next == b && PageAt(m', b).next == NextOf(PageAt(m, a))
    requires forall id :: id in info && id != a ==> PageAt(m', id) == PageAt(m, id)
    ensures var inf := Record(m', info, 0, [a, b]);
            && StandsFor(m, info, 0, [a], m', inf, [a, b])
            && InfoBounded(m', inf)
            && MinOf(inf, a) == MinOf(info, a) && MinOf(inf, b) == PageAt(m', b).entries[0].key
            && (forall id :: id in inf ==> id in info || id == b)
            && (forall changed :: a in changed ==> SameBelow(m, m', info, |levels|, changed))
  {
    hide LevelOk, NoDup, Chained, Entries, Kids, LevelsOk;
    LevelKnown(m, levels, info, NO_PAGE, |levels|, 0);
    LevelNode(m, levels, info, NO_PAGE, |levels|, 0, a);
    DividedIsFreshOrOld(info, a, b);
    forall id | id in [a, b]
      ensures SoundLeaf(PageAt(m', id))
    {
      PartsSmall(PageAt(m', a).entries, PageAt(m', b).entries);
    }
    EntriesOfTwo(m', a, b);
    EntriesOfOne(m, a);
    ChainOfTwo(m', a, b, NextOf(PageAt(m, a)));
    LeavesStand(m, info, [a], m', [a, b]);
  }

  lemma DividedIsFreshOrOld(info: Infos, a: PageId, b: PageId)
    requires Known(info, a, 0) && b != NO_PAGE && b !in info
    ensures FreshOrOld(info, 0, [a], [a, b])
  {
  }

  lemma PartsSmall(a: seq<Entry>, b: seq<Entry>)
    requires SmallKeys(a + b)
    ensures SmallKeys(a) && SmallKeys(b)
  {
    assert forall i :: 0 <= i < |a| ==> a[i] == (a + b)[i];
    assert forall i :: 0 <= i < |b| ==> b[i] == (a + b)[|a| + i];
  }

  // ---- a leaf gaining or losing an entry ----

  lemma JoinedSmall(a: seq<Entry>, b: seq<Entry>)
    requires SmallKeys(a) && SmallKeys(b)
    ensures SmallKeys(a + b)
  {
  }

  lemma SameFirst(a: seq<Entry>, b: seq<Entry>, c: seq<Entry>, d: seq<Entry>)
    requires a + b == c + d && a != [] && c != []
    ensures a[0] == c[0]
  {
    assert (a + b)[0] == a[0] && (c + d)[0] == c[0];
  }

  lemma InsertedSmall(a: seq<Entry>, e: Entry, b: seq<Entry>)
    requires SmallKeys(a + b) && EncodedSize(e.key) <= MAX_KEY_BYTES
    ensures SmallKeys(a + [e] + b)
  {
    PartsSmall(a, b);
  }

  /** An entry put at its lower bound in the right leaf keeps the whole index in
      order and adds one key to it. */
  lemma InsertedInOrder(t: DataType, before: seq<Entry>, es: seq<Entry>, after: seq<Entry>, slot: nat, e: Entry)
    requires InOrder(t, before + es + after) && e.key.IsKey(t)
    requires IsLowerBound(es, e.key, slot) && (slot < |es| ==> Compare(es[slot].key, e.key).sign != 0)
    requires forall i :: 0 <= i < |before| ==> Less(before[i].key, e.key)
    requires forall i :: 0 <= i < |after| ==> Compare(after[i].key, e.key).sign > 0
    ensures var new' := before + (es[..slot] + [e] + es[slot..]) + after;
            && InOrder(t, new')
            && e.key !in Contents(before + es + after)
            && Contents(new') == Contents(before + es + after)[e.key := e.rid]
            && |new'| == |before + es + after| + 1
  {
    var a, b := before + es[..slot], es[slot..] + after;
    assert before + es + after == a + b;
    assert before + (es[..slot] + [e] + es[slot..]) + after == a + [e] + b;
    RestIsAbove(t, before, es, after, slot, e);
    forall i | 0 <= i < |a|
      ensures Less(a[i].key, e.key)
    {
      if i >= |before| {
        assert a[i] == es[i - |before|];
      }
    }
    OrderedInsert(t, a, e, b);
    InsertedContents(t, a, e, b);
    NewKeyIsAbsent(t, a, e, b);
  }

  lemma RestIsAbove(t: DataType, before: seq<Entry>, es: seq<Entry>, after: seq<Entry>, slot: nat, e: Entry)
    requires InOrder(t, before + es + after) && e.key.IsKey(t)
    requires IsLowerBound(es, e.key, slot) && (slot < |es| ==> Compare(es[slot].key, e.key).sign != 0)
    requires forall i :: 0 <= i < |after| ==> Compare(after[i].key, e.key).sign > 0
    ensures forall i :: 0 <= i < |es[slot..] + after| ==> Less(e.key, (es[slot..] + after)[i].key)
  {
    var s, b := before + es + after, es[slot..] + after;
    OrderedParts(t, before + es, after);
    OrderedParts(t, before, es);
    forall i | 0 <= i < |b|
      ensures Less(e.key, b[i].key)
    {
      var n := |before| + slot + i;
      assert s[n] == b[i];
      CompareIsTotalOrder(s[n].key, e.key, t);
      if i < |es| - slot {
        assert b[i] == es[slot + i];
        if i > 0 {
          AboveIsAbove(t, es, slot, e.key);
        }
      } else {
        assert b[i] == after[i - (|es| - slot)];
      }
    }
  }

  /** The lower bound is slot 0 only in the first leaf. */
  lemma SlotZeroIsFirstLeaf(m: Pages, levels: Levels, info: Infos, t: DataType, left: seq<PageId>, x: PageId, key: Value)
    requires |levels| > 0 && LevelsOk(m, levels, info, NO_PAGE, |levels|) && x in levels[0] && key.IsKey(t)
    requires left != [] ==> Compare(MinOf(info, x), key).sign <= 0
    requires PageAt(m, x).Leaf? && (forall e :: e in PageAt(m, x).entries ==> e.key.IsKey(t))
    requires PageAt(m, x).entries != [] && IsLowerBound(PageAt(m, x).entries, key, 0)
    requires Compare(PageAt(m, x).entries[0].key, key).sign != 0
    ensures left == []
  {
    LevelNode(m, levels, info, NO_PAGE, |levels|, 0, x);
    assert PageAt(m, x).entries[0] in PageAt(m, x).entries;
  }

  /** Rewriting the page a path ends at leaves the path in place. */
  lemma PathOverPage(m: Pages, levels: Levels, info: Infos, hole: PageId, path: seq<PageId>, m': Pages)
    requires PathTo(m, levels, path) && LevelsOk(m, levels, info, hole, |levels|)
    requires forall id :: id != Last(path) ==> PageAt(m', id) == PageAt(m, id)
    ensures PathTo(m', levels, path)
  {
    hide LevelsOk, LevelOk;
    var k := HeightOf(levels, path);
    LevelKnown(m, levels, info, hole, |levels|, k);
    forall i | 0 <= i < |path| - 1
      ensures PageAt(m', path[i]) == PageAt(m, path[i])
    {
      LevelKnown(m, levels, info, hole, |levels|, |levels| - 1 - i);
    }
    PathSurvives(m, levels, path, m', levels);
  }

  /** Page 0 is no node, so rewriting it disturbs nothing. */
  lemma PageZeroIsFree(m: Pages, levels: Levels, info: Infos, hole: PageId, p: Page)
    requires Shaped(m, levels, info, hole) && |m| > 0
    ensures Shaped(m[0 := p], levels, info, hole) && Flat(m[0 := p], levels) == Flat(m, levels)
  {
    hide LevelOk, NodeOk, NoDup, Chained, Kids;
    var m' := m[0 := p];
    forall j | 0 <= j < |levels|
      ensures LevelOk(m', levels, info, hole, j)
    {
      LevelKnown(m, levels, info, hole, |levels|, j);
      if j > 0 {
        LevelKnown(m, levels, info, hole, |levels|, j - 1);
      }
      LevelFrame(m, levels, info, hole, j, m', levels, info, hole);
    }
    LevelKnown(m, levels, info, hole, |levels|, 0);
    EntriesFrame(m, m', levels[0]);
  }

  /** A tree that is a single leaf. */
  lemma SingleLeaf(m: Pages, root: PageId, es: seq<Entry>, hole: PageId, min: Value)
    requires root != NO_PAGE && root < |m| && m[root] == Leaf(es, NO_PAGE) && SmallKeys(es)
    requires EncodedSize(min) <= MAX_KEY_BYTES && (hole == root || (es != [] && es[0].key == min && hole == NO_PAGE))
    ensures Shaped(m, [[root]], map[root := Info(0, min)], hole) && Flat(m, [[root]]) == es
  {
    EntriesOfOne(m, root);
    assert LevelOk(m, [[root]], map[root := Info(0, min)], hole, 0);
  }

  lemma RootKnown(m: Pages, levels: Levels, info: Infos, hole: PageId, root: PageId)
    requires Shaped(m, levels, info, hole) && [root] == levels[|levels| - 1]
    ensures root != NO_PAGE && root < |m| && |levels| > 0 && NodeOk(m, info, hole, |levels| - 1, root)
  {
    var top := levels[|levels| - 1];
    assert root in top;
    LevelNode(m, levels, info, hole, |levels|, |levels| - 1, root);
  }

  lemma RemovedInOrder(t: DataType, before: seq<Entry>, es: seq<Entry>, after: seq<Entry>, slot: nat)
    requires InOrder(t, before + es + after) && slot < |es|
    ensures var new' := before + (es[..slot] + es[slot + 1..]) + after;
            && InOrder(t, new')
            && es[slot].key in Contents(before + es + after)
            && Contents(new') == Contents(before + es + after) - {es[slot].key}
            && |new'| == |before + es + after| - 1
  {
    var a, b := before + es[..slot], es[slot + 1..] + after;
    assert before + es + after == a + [es[slot]] + b;
    assert before + (es[..slot] + es[slot + 1..]) + after == a + b;
    RemovedOrder(t, a, es[slot], b);
  }

  lemma RemovedSmall(es: seq<Entry>, slot: nat)
    requires SmallKeys(es) && slot < |es|
    ensures SmallKeys(es[..slot] + es[slot + 1..])
  {
  }

  /** A key that differs from its lower bound in the right leaf is nowhere. */
  lemma AbsentKey(t: DataType, before: seq<Entry>, es: seq<Entry>, after: seq<Entry>, slot: nat, key: Value)
    requires InOrder(t, before + es + after) && key.IsKey(t)
    requires IsLowerBound(es, key, slot) && (slot < |es| ==> Compare(es[slot].key, key).sign != 0)
    requires forall i :: 0 <= i < |before| ==> Less(before[i].key, key)
    requires forall i :: 0 <= i < |after| ==> Compare(after[i].key, key).sign > 0
    ensures key !in Contents(before + es + after)
  {
    InsertedInOrder(t, before, es, after, slot, Entry(key, 0));
  }

  /** When the index holds a single entry, the leaf that holds it is the only
      leaf and the last of the chain. */
  lemma OnlyLeaf(m: Pages, levels: Levels, info: Infos, left: seq<PageId>, x: PageId, right: seq<PageId>)
    requires Shaped(m, levels, info, NO_PAGE) && levels[0] == left + [x] + right && |Flat(m, levels)| == 1
    requires EntriesOf(PageAt(m, x)) != []
    ensures NextOf(PageAt(m, x)) == NO_PAGE && levels[0][0] == x
  {
    hide NoDup, Kids, LevelsOk;
    FirstLevelOk(m, levels, info, NO_PAGE);
    LevelKnown(m, levels, info, NO_PAGE, |levels|, 0);
    EntriesAround(m, left, x, right);
    if left != [] {
      LeafHasEntries(m, levels, info, left);
    }
    if right != [] {
      LeafHasEntries(m, levels, info, right);
    }
    assert levels[0] == [x];
  }

  lemma LeafHasEntries(m: Pages, levels: Levels, info: Infos, l: seq<PageId>)
    requires 0 < |levels| && LevelOk(m, levels, info, NO_PAGE, 0) && l != [] && forall x :: x in l ==> x in levels[0]
    ensures Entries(m, l) != []
  {
    assert l[0] in levels[0];
  }

  /** No entry of a sound tree has an oversized key. */
  lemma SmallItems(m: Pages, levels: Levels, info: Infos, i: nat)
    requires Shaped(m, levels, info, NO_PAGE) && i < |Flat(m, levels)|
    ensures EncodedSize(Flat(m, levels)[i].key) <= MAX_KEY_BYTES
  {
    hide Kids, Chained, NoDup;
    LevelKnown(m, levels, info, NO_PAGE, |levels|, 0);
    SmallEntries(m, levels[0], i);
  }

  lemma {:induction false} SmallEntries(m: Pages, l: seq<PageId>, i: nat)
    requires (forall id :: id in l ==> SmallKeys(EntriesOf(PageAt(m, id)))) && i < |Entries(m, l)|
    ensures EncodedSize(Entries(m, l)[i].key) <= MAX_KEY_BYTES
  {
    assert l[0] in l;
    var n := |EntriesOf(PageAt(m, l[0]))|;
    if i >= n {
      assert forall id :: id in l[1..] ==> id in l;
      SmallEntries(m, l[1..], i - n);
    }
  }

  lemma OneLessSize(es: seq<Entry>, slot: nat)
    requires slot < |es|
    ensures LeafBytes(es) == LeafBytes(es[..slot] + es[slot + 1..]) + 10 + EncodedSize(es[slot].key)
  {
    var rest := es[..slot] + es[slot + 1..];
    OneMoreSize(rest, slot, es[slot]);
    assert rest[..slot] + [es[slot]] + rest[slot..] == es;
  }

  lemma OneMoreSize(es: seq<Entry>, slot: nat, e: Entry)
    requires slot <= |es|
    ensures LeafBytes(es[..slot] + [e] + es[slot..]) == LeafBytes(es) + 10 + EncodedSize(e.key)
  {
    assert es == es[..slot] + es[slot..];
    EntriesSizeAppend(es[..slot], es[slot..]);
    EntriesSizeAppend(es[..slot] + [e], es[slot..]);
    EntriesSizeAppend(es[..slot], [e]);
  }

  lemma LastMoved(a: seq<Entry>, b: seq<Entry>)
    requires a != []
    ensures a[..|a| - 1] + ([a[|a| - 1]] + b) == a + b
  {
  }

  lemma HeadMoved(a: seq<Entry>, b: seq<Entry>)
    requires b != []
    ensures (a + [b[0]]) + b[1..] == a + b
  {
  }

  lemma LevelNoDup(m: Pages, levels: Levels, info: Infos, hole: PageId, k: nat)
    requires k < |levels| && LevelsOk(m, levels, info, hole, |levels|)
    ensures NoDup(levels[k])
  {
    hide NodeOk, Chained, Kids;
    LevelKnown(m, levels, info, hole, |levels|, k);
  }
}
