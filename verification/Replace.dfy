/** Replacing a stretch of nodes by another that holds the same entries: the
    argument behind every split, merge, borrow and redistribution. */
module Replace {
  import opened Values
  import opened Nodes
  import opened Shape

  // ---- replacing part of a level ----

  /** The pages of `new'` come from `old'` or are fresh, and no other page's
      record changes. */
  ghost predicate Confined(info: Infos, old': seq<PageId>, info': Infos, new': seq<PageId>) {
    && (forall id :: id in new' ==> id in old' || id !in info)
    && (forall id :: id in info && id !in new' ==> id in info' && info'[id] == info[id])
  }

  /** `new'` can stand at level k of m' where `old'` stood in m: it starts with
      the same page, its other pages come from `old'` or are fresh, every one
      is a sound node, and together they hold what `old'` held. */
  ghost predicate StandsFor(m: Pages, info: Infos, k: nat, old': seq<PageId>, m': Pages, info': Infos, new': seq<PageId>)
  {
    && old' != [] && new' != [] && new'[0] == old'[0] && NoDup(new')
    && Confined(info, old', info', new')
    && (forall id :: id in new' ==> NodeOk(m', info', NO_PAGE, k, id))
    && (forall id :: id in info' ==> id in info || id in new')
    && (k == 0 ==> Entries(m', new') == Entries(m, old'))
    && (k == 0 ==> Chained(m', new', NextOf(PageAt(m, old'[|old'| - 1]))))
    && (k > 0 ==> Kids(m', new') == Kids(m, old'))
  }

  /** Pages of the tree outside `changed`, up to height `top`, are the same. */
  ghost predicate SameBelow(m: Pages, m': Pages, info: Infos, top: nat, changed: seq<PageId>) {
    forall id :: id in info && info[id].level <= top && id !in changed ==> PageAt(m', id) == PageAt(m, id)
  }

  function HeadOr(l: seq<PageId>, last: PageId): PageId {
    if l == [] then last else l[0]
  }

  /** A list is chained exactly when both its parts are. */
  lemma ChainedParts(m: Pages, x: seq<PageId>, y: seq<PageId>, last: PageId)
    ensures Chained(m, x + y, last) <==> Chained(m, x, HeadOr(y, last)) && Chained(m, y, last)
  {
    hide NextOf, PageAt;
    var l := x + y;
    if Chained(m, l, last) {
      forall i | 0 <= i < |x|
        ensures NextOf(PageAt(m, x[i])) == if i + 1 < |x| then SuccessorAt(x, i) else HeadOr(y, last)
      {
        assert l[i] == x[i];
      }
      ChainedEnd(m, x, y, last);
    }
    if Chained(m, x, HeadOr(y, last)) && Chained(m, y, last) {
      ChainedWhole(m, x, y, last);
    }
  }

  lemma ChainedEnd(m: Pages, x: seq<PageId>, y: seq<PageId>, last: PageId)
    requires Chained(m, x + y, last)
    ensures Chained(m, y, last)
  {
    hide NextOf, PageAt;
    var l := x + y;
    forall i | 0 <= i < |y|
      ensures NextOf(PageAt(m, y[i])) == if i + 1 < |y| then SuccessorAt(y, i) else last
    {
      assert l[|x| + i] == y[i];
    }
  }

  lemma ChainedWhole(m: Pages, x: seq<PageId>, y: seq<PageId>, last: PageId)
    requires Chained(m, x, HeadOr(y, last)) && Chained(m, y, last)
    ensures Chained(m, x + y, last)
  {
    hide NextOf, PageAt;
    var l := x + y;
    forall i | 0 <= i < |l|
      ensures NextOf(PageAt(m, l[i])) == if i + 1 < |l| then SuccessorAt(l, i) else last
    {
      if i < |x| {
        assert l[i] == x[i];
      } else {
        assert l[i] == y[i - |x|];
      }
    }
  }

  lemma ChainedFrame(m: Pages, m': Pages, l: seq<PageId>, last: PageId)
    requires Chained(m, l, last) && forall id :: id in l ==> PageAt(m', id) == PageAt(m, id)
    ensures Chained(m', l, last)
  {
    hide NextOf, PageAt;
    assert forall i :: 0 <= i < |l| ==> l[i] in l;
  }

  lemma ChainedLast(m: Pages, l: seq<PageId>, last: PageId)
    requires Chained(m, l, last) && l != []
    ensures NextOf(PageAt(m, l[|l| - 1])) == last
  {
  }

  lemma ChainedReplace(m: Pages, m': Pages, a: seq<PageId>, old': seq<PageId>, new': seq<PageId>, b: seq<PageId>)
    requires old' != [] && new' != [] && new'[0] == old'[0]
    requires Chained(m, a + old' + b, NO_PAGE)
    requires Chained(m', new', NextOf(PageAt(m, old'[|old'| - 1])))
    requires forall id :: id in a || id in b ==> PageAt(m', id) == PageAt(m, id)
    ensures Chained(m', a + new' + b, NO_PAGE)
  {
    hide Chained, NextOf, PageAt;
    ChainedParts(m, a + old', b, NO_PAGE);
    ChainedParts(m, a, old', HeadOr(b, NO_PAGE));
    ChainedLast(m, old', HeadOr(b, NO_PAGE));
    ChainedFrame(m, m', a, old'[0]);
    ChainedFrame(m, m', b, NO_PAGE);
    ChainedParts(m', a, new', HeadOr(b, NO_PAGE));
    ChainedParts(m', a + new', b, NO_PAGE);
  }

  /** A replacement at level k leaves the levels below it as they were. */
  lemma LowerLevelsUntouched(m: Pages, levels: Levels, info: Infos, hole: PageId, k: nat,
                             old': seq<PageId>, new': seq<PageId>, m': Pages, levels': Levels, info': Infos)
    requires k < |levels| == |levels'| && LevelsOk(m, levels, info, hole, k + 1)
    requires forall j :: 0 <= j < k ==> levels'[j] == levels[j]
    requires hole == NO_PAGE || hole in levels[k]
    requires forall x :: x in old' + new' ==> x in levels[k] || x !in info
    requires forall id :: id in info && id !in new' ==> id in info' && info'[id] == info[id]
    requires SameBelow(m, m', info, k, old' + new')
    ensures LevelsOk(m', levels', info', NO_PAGE, k)
  {
    LevelKnown(m, levels, info, hole, k + 1, k);
    forall j | 0 <= j < k
      ensures LevelOk(m', levels', info', NO_PAGE, j)
    {
      LevelKnown(m, levels, info, hole, k + 1, j);
      if j > 0 {
        LevelKnown(m, levels, info, hole, k + 1, j - 1);
      }
      LevelFrame(m, levels, info, hole, j, m', levels', info', NO_PAGE);
    }
  }

  /** The nodes of level k that are not replaced are as sound as before. */
  lemma NeighboursUntouched(m: Pages, levels: Levels, info: Infos, hole: PageId, k: nat,
                            a: seq<PageId>, old': seq<PageId>, new': seq<PageId>, b: seq<PageId>,
                            m': Pages, info': Infos)
    requires k < |levels| && LevelsOk(m, levels, info, hole, k + 1)
    requires levels[k] == a + old' + b
    requires hole == NO_PAGE || hole in old'
    requires Confined(info, old', info', new')
    requires SameBelow(m, m', info, k, old' + new')
    ensures forall x :: x in a || x in b ==>
              x !in new' && PageAt(m', x) == PageAt(m, x) && NodeOk(m', info', NO_PAGE, k, x)
  {
    hide NoDup, Chained, Kids, Entries;
    LevelKnown(m, levels, info, hole, k + 1, k);
    NoDupDisjoint(a, old', b);
    assert forall y :: y in old' ==> y in levels[k];
    forall x | x in a || x in b
      ensures x !in new' && PageAt(m', x) == PageAt(m, x) && NodeOk(m', info', NO_PAGE, k, x)
    {
      assert x in levels[k];
      if k > 0 {
        LevelKnown(m, levels, info, hole, k + 1, k - 1);
        forall c | c in ChildrenOf(PageAt(m, x))
          ensures MinOf(info', c) == MinOf(info, c)
        {
          ChildIsKid(m, levels[k], x, c);
        }
      }
      UntouchedNode(m, levels, info, hole, k, x, m', info');
    }
  }

  /** The level in which the replacement happens, and all below it, are sound. */
  lemma ReplaceLevel(m: Pages, levels: Levels, info: Infos, hole: PageId, k: nat,
                     a: seq<PageId>, old': seq<PageId>, new': seq<PageId>, b: seq<PageId>,
                     m': Pages, info': Infos)
    requires k < |levels| && LevelsOk(m, levels, info, hole, k + 1)
    requires levels[k] == a + old' + b
    requires hole == NO_PAGE || hole in old'
    requires StandsFor(m, info, k, old', m', info', new')
    requires SameBelow(m, m', info, k, old' + new')
    ensures LevelsOk(m', levels[k := a + new' + b], info', NO_PAGE, k + 1)
    ensures Entries(m', levels[k := a + new' + b][0]) == Entries(m, levels[0])
  {
    var levels' := levels[k := a + new' + b];
    LowerLevelsUntouched(m, levels, info, hole, k, old', new', m', levels', info');
    NeighboursUntouched(m, levels, info, hole, k, a, old', new', b, m', info');
    LevelKnown(m, levels, info, hole, k + 1, k);
    assert forall x :: x in new' ==> x in old' || x !in a + old' + b;
    NoDupReplace(a, old', new', b);
    if k == 0 {
      ChainedReplace(m, m', a, old', new', b);
      EntriesReplace(m, m', a, old', new', b);
    } else {
      LevelKnown(m, levels, info, hole, k + 1, k - 1);
      KidsReplace(m, m', a, old', new', b);
      LevelKnown(m, levels, info, hole, k + 1, 0);
      EntriesFrame(m, m', levels[0]);
    }
    assert LevelOk(m', levels', info', NO_PAGE, k);
  }

  lemma UntouchedNode(m: Pages, levels: Levels, info: Infos, hole: PageId, k: nat, x: PageId, m': Pages, info': Infos)
    requires k < |levels| && LevelOk(m, levels, info, hole, k)
    requires x in levels[k] && x != hole
    requires PageAt(m', x) == PageAt(m, x) && x in info' && info'[x] == info[x]
    requires k > 0 ==> forall c :: c in ChildrenOf(PageAt(m, x)) ==> MinOf(info', c) == MinOf(info, c)
    ensures NodeOk(m', info', NO_PAGE, k, x)
  {
  }

  lemma EntriesReplace(m: Pages, m': Pages, a: seq<PageId>, old': seq<PageId>, new': seq<PageId>, b: seq<PageId>)
    requires Entries(m', new') == Entries(m, old')
    requires forall id :: id in a || id in b ==> PageAt(m', id) == PageAt(m, id)
    ensures Entries(m', a + new' + b) == Entries(m, a + old' + b)
  {
    EntriesFrame(m, m', a);
    EntriesFrame(m, m', b);
    EntriesAppend(m, a + old', b);
    EntriesAppend(m, a, old');
    EntriesAppend(m', a + new', b);
    EntriesAppend(m', a, new');
  }

  lemma KidsReplace(m: Pages, m': Pages, a: seq<PageId>, old': seq<PageId>, new': seq<PageId>, b: seq<PageId>)
    requires Kids(m', new') == Kids(m, old')
    requires forall id :: id in a || id in b ==> PageAt(m', id) == PageAt(m, id)
    ensures Kids(m', a + new' + b) == Kids(m, a + old' + b)
  {
    KidsFrame(m, m', a);
    KidsFrame(m, m', b);
    KidsAppend(m, a + old', b);
    KidsAppend(m, a, old');
    KidsAppend(m', a + new', b);
    KidsAppend(m', a, new');
  }

  // ---- replacing some children of one parent ----

  /** Where a stretch of children sits: `levels[k + 1]` is left + [parent] +
      right, and the parent's children are before + old + after. */
  datatype Site = Site(left: seq<PageId>, parent: PageId, right: seq<PageId>,
                       before: seq<PageId>, old': seq<PageId>, after: seq<PageId>)

  ghost predicate At(m: Pages, levels: Levels, k: nat, s: Site) {
    && k + 1 < |levels|
    && levels[k + 1] == s.left + [s.parent] + s.right
    && ChildrenOf(PageAt(m, s.parent)) == s.before + s.old' + s.after
  }

  /** Every page the replacement may change. */
  function Touched(s: Site, new': seq<PageId>): seq<PageId> {
    s.old' + new' + [s.parent]
  }

  /** Level k to the left and to the right of the stretch. */
  ghost function LevelBefore(m: Pages, s: Site): seq<PageId> {
    Kids(m, s.left) + s.before
  }

  ghost function LevelAfter(m: Pages, s: Site): seq<PageId> {
    s.after + Kids(m, s.right)
  }

  /** Level k once the stretch has become `new'`. */
  ghost function Spliced(m: Pages, levels: Levels, k: nat, s: Site, new': seq<PageId>): Levels
    requires k < |levels|
  {
    levels[k := LevelBefore(m, s) + new' + LevelAfter(m, s)]
  }

  lemma SiteInLevel(m: Pages, levels: Levels, k: nat, s: Site)
    requires At(m, levels, k, s) && Kids(m, levels[k + 1]) == levels[k]
    ensures levels[k] == LevelBefore(m, s) + s.old' + LevelAfter(m, s)
  {
    KidsAround(m, s.left, s.parent, s.right);
    Reassociate(Kids(m, s.left), s.before, s.old', s.after, Kids(m, s.right));
  }

  lemma Reassociate(a: seq<PageId>, b: seq<PageId>, c: seq<PageId>, d: seq<PageId>, e: seq<PageId>)
    ensures a + (b + c + d) + e == (a + b) + c + (d + e)
  {
  }

  /** The replacement keeps the recorded minimum of every child that is not part
      of the stretch. */
  lemma OtherChildrenKeepInfo(m: Pages, levels: Levels, info: Infos, k: nat, s: Site, new': seq<PageId>, info': Infos)
    requires At(m, levels, k, s) && Kids(m, levels[k + 1]) == levels[k]
    requires NoDup(levels[k]) && NoDup(levels[k + 1])
    requires forall id :: id in levels[k] ==> id in info
    requires Confined(info, s.old', info', new')
    ensures forall c :: c in s.before || c in s.after ==> MinOf(info', c) == MinOf(info, c)
    ensures forall x, c :: x in levels[k + 1] && x != s.parent && c in ChildrenOf(PageAt(m, x)) ==>
              MinOf(info', c) == MinOf(info, c)
  {
    SiteInLevel(m, levels, k, s);
    var a, b := LevelBefore(m, s), LevelAfter(m, s);
    NoDupDisjoint(a, s.old', b);
    forall c | c in a || c in b
      ensures MinOf(info', c) == MinOf(info, c)
    {
      assert c in levels[k];
    }
    forall x, c | x in levels[k + 1] && x != s.parent && c in ChildrenOf(PageAt(m, x))
      ensures MinOf(info', c) == MinOf(info, c)
    {
      if x in s.left {
        ChildIsKid(m, s.left, x, c);
      } else {
        ChildIsKid(m, s.right, x, c);
      }
    }
  }

  ghost predicate ParentRebuilt(m': Pages, info': Infos, s: Site, new': seq<PageId>) {
    && PageAt(m', s.parent).Inner?
    && PageAt(m', s.parent).children == s.before + new' + s.after
    && ExactKeys(info', PageAt(m', s.parent).keys, PageAt(m', s.parent).children)
  }

  /** The first child of the parent keeps its recorded minimum. */
  ghost predicate FirstKept(info: Infos, info': Infos, s: Site, new': seq<PageId>) {
    s.before != [] || (new' != [] && MinOf(info', new'[0]) == MinOf(info, new'[0]))
  }

  lemma ParentLevel(m: Pages, levels: Levels, info: Infos, hole: PageId, k: nat, s: Site, new': seq<PageId>,
                    m': Pages, info': Infos, hole': PageId)
    requires At(m, levels, k, s) && LevelOk(m, levels, info, hole, k) && LevelOk(m, levels, info, hole, k + 1)
    requires hole == NO_PAGE || hole in s.old'
    requires Confined(info, s.old', info', new') && ParentRebuilt(m', info', s, new')
    requires new' != [] && s.old' != [] && new'[0] == s.old'[0]
    requires SameBelow(m, m', info, k + 1, Touched(s, new'))
    requires hole' == s.parent || (hole' == NO_PAGE && FirstKept(info, info', s, new'))
    ensures LevelOk(m', Spliced(m, levels, k, s, new'), info', hole', k + 1)
  {
    ParentLevelKids(m, levels, info, hole, k, s, new', m', info');
    var l := levels[k + 1];
    forall x | x in l
      ensures NodeOk(m', info', hole', k + 1, x)
    {
      ParentLevelNode(m, levels, info, hole, k, s, new', m', info', hole', x);
    }
  }

  lemma ParentLevelNode(m: Pages, levels: Levels, info: Infos, hole: PageId, k: nat, s: Site, new': seq<PageId>,
                        m': Pages, info': Infos, hole': PageId, x: PageId)
    requires At(m, levels, k, s) && LevelOk(m, levels, info, hole, k) && LevelOk(m, levels, info, hole, k + 1)
    requires hole == NO_PAGE || hole in s.old'
    requires Confined(info, s.old', info', new') && ParentRebuilt(m', info', s, new')
    requires new' != [] && s.old' != [] && new'[0] == s.old'[0]
    requires SameBelow(m, m', info, k + 1, Touched(s, new'))
    requires hole' == s.parent || (hole' == NO_PAGE && FirstKept(info, info', s, new'))
    requires x in levels[k + 1]
    ensures NodeOk(m', info', hole', k + 1, x)
  {
    hide NoDup, Chained, Kids, Entries, SameBelow;
    ParentLevelPages(m, levels, info, hole, k, s, new', m', info');
    assert NodeOk(m, info, hole, k + 1, x);
    OtherChildrenKeepInfo(m, levels, info, k, s, new', info');
    if x != s.parent {
      UntouchedNode(m, levels, info, hole, k + 1, x, m', info');
    } else {
      RebuiltParent(m, info, hole, k, s, new', m', info', hole');
    }
  }

  lemma RebuiltParent(m: Pages, info: Infos, hole: PageId, k: nat, s: Site, new': seq<PageId>,
                      m': Pages, info': Infos, hole': PageId)
    requires ChildrenOf(PageAt(m, s.parent)) == s.before + s.old' + s.after
    requires InnerOk(m, info, hole, k + 1, s.parent) && s.parent != hole
    requires s.parent in info' && info'[s.parent] == info[s.parent]
    requires new' != [] && s.old' != [] && new'[0] == s.old'[0] && ParentRebuilt(m', info', s, new')
    requires forall c :: c in s.before ==> MinOf(info', c) == MinOf(info, c)
    requires hole' == s.parent || FirstKept(info, info', s, new')
    ensures InnerOk(m', info', hole', k + 1, s.parent)
  {
    if s.before != [] {
      assert s.before[0] in s.before;
    }
  }

  lemma ParentLevelKids(m: Pages, levels: Levels, info: Infos, hole: PageId, k: nat, s: Site, new': seq<PageId>,
                        m': Pages, info': Infos)
    requires At(m, levels, k, s) && LevelOk(m, levels, info, hole, k) && LevelOk(m, levels, info, hole, k + 1)
    requires hole == NO_PAGE || hole in s.old'
    requires Confined(info, s.old', info', new') && ParentRebuilt(m', info', s, new')
    requires SameBelow(m, m', info, k + 1, Touched(s, new'))
    ensures Kids(m', levels[k + 1]) == LevelBefore(m, s) + new' + LevelAfter(m, s)
  {
    ParentLevelPages(m, levels, info, hole, k, s, new', m', info');
    KidsFrame(m, m', s.left);
    KidsFrame(m, m', s.right);
    KidsAround(m', s.left, s.parent, s.right);
    Reassociate(Kids(m, s.left), s.before, new', s.after, Kids(m, s.right));
  }

  /** Level k + 1 keeps its pages, except for the parent, and all its records. */
  lemma PagesKnown(m: Pages, levels: Levels, info: Infos, hole: PageId, k: nat)
    requires k < |levels| && LevelOk(m, levels, info, hole, k)
    ensures NoDup(levels[k]) && (k > 0 ==> Kids(m, levels[k]) == levels[k - 1])
    ensures forall x :: x in levels[k] ==> Known(info, x, k)
  {
  }

  lemma ParentLevelPages(m: Pages, levels: Levels, info: Infos, hole: PageId, k: nat, s: Site, new': seq<PageId>,
                         m': Pages, info': Infos)
    requires At(m, levels, k, s) && LevelOk(m, levels, info, hole, k) && LevelOk(m, levels, info, hole, k + 1)
    requires hole == NO_PAGE || hole in s.old'
    requires Confined(info, s.old', info', new')
    requires SameBelow(m, m', info, k + 1, Touched(s, new'))
    ensures forall x :: x in levels[k + 1] ==> x != hole && x in info' && info'[x] == info[x]
    ensures forall x :: x in levels[k + 1] && x != s.parent ==> PageAt(m', x) == PageAt(m, x)
    ensures forall x :: x in s.left || x in s.right ==> x in levels[k + 1] && x != s.parent
  {
    hide LevelOk, NoDup, Chained, Kids, Entries;
    PagesKnown(m, levels, info, hole, k);
    PagesKnown(m, levels, info, hole, k + 1);
    SiteInLevel(m, levels, k, s);
    NoDupDisjoint(s.left, [s.parent], s.right);
    assert forall x :: x in s.old' ==> x in levels[k];
    var l := levels[k + 1];
    assert forall x :: x in l ==> x !in new';
  }

  /** The replacement only concerns pages up to height k + 1. */
  lemma ReplacementIsLow(m: Pages, levels: Levels, info: Infos, hole: PageId, k: nat, s: Site, new': seq<PageId>,
                         m': Pages, info': Infos)
    requires At(m, levels, k, s) && LevelOk(m, levels, info, hole, k) && LevelOk(m, levels, info, hole, k + 1)
    requires hole == NO_PAGE || hole in s.old'
    requires Confined(info, s.old', info', new')
    ensures forall id :: id in Touched(s, new') && id in info ==> info[id].level <= k + 1
    ensures forall id :: id in info && info[id].level > k ==> id in info' && info'[id] == info[id]
    ensures hole == NO_PAGE || hole in levels[k]
  {
    hide LevelOk, NoDup, Chained, Kids, Entries;
    PagesKnown(m, levels, info, hole, k);
    PagesKnown(m, levels, info, hole, k + 1);
    SiteInLevel(m, levels, k, s);
    assert forall x :: x in s.old' ==> x in levels[k];
    assert s.parent in levels[k + 1];
    assert forall id :: id in new' && id in info ==> info[id].level == k;
  }

  lemma UpperLevelUntouched(m: Pages, levels: Levels, info: Infos, hole: PageId, k: nat, j: nat,
                            changed: seq<PageId>, m': Pages, levels': Levels, info': Infos, hole': PageId)
    requires k + 1 < j < |levels| == |levels'| && LevelsOk(m, levels, info, hole, |levels|)
    requires levels'[j] == levels[j] && levels'[j - 1] == levels[j - 1]
    requires forall id :: id in changed && id in info ==> info[id].level <= k + 1
    requires forall id :: id in info && info[id].level > k ==> id in info' && info'[id] == info[id]
    requires SameBelow(m, m', info, |levels|, changed)
    requires hole == NO_PAGE || hole in levels[k]
    ensures LevelOk(m', levels', info', hole', j)
  {
    LevelKnown(m, levels, info, hole, |levels|, j);
    LevelKnown(m, levels, info, hole, |levels|, j - 1);
    LevelKnown(m, levels, info, hole, |levels|, k);
    LevelFrame(m, levels, info, hole, j, m', levels', info', NO_PAGE);
    WeakerHole(m', levels', info', hole', j);
  }

  /** The heart of every split, merge, borrow and redistribution: a stretch of
      neighbouring children of one parent is replaced by `new'` and the parent
      is rebuilt. What the index holds stays the same, and the only page whose
      recorded minimum may now be out of step is the parent. */
  lemma ReplaceChildren(m: Pages, levels: Levels, info: Infos, hole: PageId, k: nat, s: Site, new': seq<PageId>,
                        m': Pages, info': Infos)
    requires Shaped(m, levels, info, hole) && At(m, levels, k, s)
    requires hole == NO_PAGE || hole in s.old'
    requires StandsFor(m, info, k, s.old', m', info', new') && ParentRebuilt(m', info', s, new')
    requires SameBelow(m, m', info, |levels|, Touched(s, new'))
    requires InfoBounded(m', info')
    ensures Shaped(m', Spliced(m, levels, k, s, new'), info', s.parent)
    ensures FirstKept(info, info', s, new') ==> Shaped(m', Spliced(m, levels, k, s, new'), info', NO_PAGE)
    ensures Flat(m', Spliced(m, levels, k, s, new')) == Flat(m, levels)
  {
    hide LevelOk, NodeOk, NoDup, Chained, Kids, Entries, StandsFor, ParentRebuilt, Confined, SameBelow;
    var levels' := Spliced(m, levels, k, s, new');
    assert LevelsOk(m, levels, info, hole, k + 2);
    assert SameBelow(m, m', info, k, Touched(s, new')) by {
      SameBelowLess(m, m', info, |levels|, k, Touched(s, new'));
    }
    ReplaceChildrenLow(m, levels, info, hole, k, s, new', m', info');
    ReplaceChildrenHigh(m, levels, info, hole, k, s, new', m', info', s.parent);
    JoinLevels(m', levels', info', s.parent, k);
    if FirstKept(info, info', s, new') {
      ReplaceChildrenHigh(m, levels, info, hole, k, s, new', m', info', NO_PAGE);
      JoinLevels(m', levels', info', NO_PAGE, k);
    }
  }

  lemma SameBelowLess(m: Pages, m': Pages, info: Infos, top: nat, k: nat, changed: seq<PageId>)
    requires SameBelow(m, m', info, top, changed) && k <= top
    ensures SameBelow(m, m', info, k, changed)
  {
  }

  lemma ReplaceChildrenLow(m: Pages, levels: Levels, info: Infos, hole: PageId, k: nat, s: Site, new': seq<PageId>,
                           m': Pages, info': Infos)
    requires At(m, levels, k, s) && LevelsOk(m, levels, info, hole, k + 2)
    requires hole == NO_PAGE || hole in s.old'
    requires StandsFor(m, info, k, s.old', m', info', new')
    requires SameBelow(m, m', info, k, Touched(s, new'))
    ensures LevelsOk(m', Spliced(m, levels, k, s, new'), info', NO_PAGE, k + 1)
    ensures Flat(m', Spliced(m, levels, k, s, new')) == Flat(m, levels)
  {
    LevelKnown(m, levels, info, hole, k + 2, k + 1);
    SiteInLevel(m, levels, k, s);
    assert s.parent in levels[k + 1];
    assert forall j :: 0 <= j < k + 1 ==> LevelOk(m, levels, info, hole, j);
    ReplaceLevel(m, levels, info, hole, k, LevelBefore(m, s), s.old', new', LevelAfter(m, s), m', info');
  }

  lemma ReplaceChildrenHigh(m: Pages, levels: Levels, info: Infos, hole: PageId, k: nat, s: Site, new': seq<PageId>,
                            m': Pages, info': Infos, hole': PageId)
    requires At(m, levels, k, s) && LevelsOk(m, levels, info, hole, |levels|)
    requires hole == NO_PAGE || hole in s.old'
    requires StandsFor(m, info, k, s.old', m', info', new') && ParentRebuilt(m', info', s, new')
    requires SameBelow(m, m', info, |levels|, Touched(s, new'))
    requires hole' == s.parent || (hole' == NO_PAGE && FirstKept(info, info', s, new'))
    ensures forall j :: k < j < |levels| ==> LevelOk(m', Spliced(m, levels, k, s, new'), info', hole', j)
  {
    var levels' := Spliced(m, levels, k, s, new');
    LevelKnown(m, levels, info, hole, |levels|, k);
    LevelKnown(m, levels, info, hole, |levels|, k + 1);
    assert LevelOk(m', levels', info', hole', k + 1) by {
      ParentLevel(m, levels, info, hole, k, s, new', m', info', hole');
    }
    ReplacementIsLow(m, levels, info, hole, k, s, new', m', info');
    forall j | k + 1 < j < |levels|
      ensures LevelOk(m', levels', info', hole', j)
    {
      UpperLevelUntouched(m, levels, info, hole, k, j, Touched(s, new'), m', levels', info', hole');
    }
  }

  lemma LocateChildren(m: Pages, levels: Levels, k: nat, parent: PageId, i: nat, n: nat) returns (s: Site)
    requires k + 1 < |levels| && parent in levels[k + 1]
    requires i + n <= |ChildrenOf(PageAt(m, parent))|
    ensures At(m, levels, k, s) && s.parent == parent
    ensures var cs := ChildrenOf(PageAt(m, parent));
            s.before == cs[..i] && s.old' == cs[i..i + n] && s.after == cs[i + n..]
  {
    var l := levels[k + 1];
    var left, right := Locate(l, parent);
    var cs := ChildrenOf(PageAt(m, parent));
    assert cs == cs[..i] + cs[i..i + n] + cs[i + n..];
    s := Site(left, parent, right, cs[..i], cs[i..i + n], cs[i + n..]);
  }

  // ---- moving the hole up ----

  /** The minimum of a node's subtree, read off the node and the records of its
      children. */
  ghost predicate TrueMin(m: Pages, info: Infos, x: PageId, v: Value) {
    match PageAt(m, x)
    case Leaf(es, _) => es != [] && es[0].key == v
    case Inner(_, cs) => cs != [] && MinOf(info, cs[0]) == v
    case _ => false
  }

  /** Recording the right minimum of the hole x moves the hole to its parent, or
      closes it when x is not the parent's first child and the parent's
      separator for x has been corrected in m'. */
  lemma RecordMin(m: Pages, levels: Levels, info: Infos, x: PageId, k: nat, parent: PageId, i: nat, v: Value, m': Pages)
    requires Shaped(m, levels, info, x) && k + 1 < |levels| && x in levels[k]
    requires parent in levels[k + 1] && i < |ChildrenOf(PageAt(m, parent))| && ChildrenOf(PageAt(m, parent))[i] == x
    requires TrueMin(m, info, x, v) && EncodedSize(v) <= MAX_KEY_BYTES
    requires i == 0 ==> m' == m
    requires i > 0 ==> parent < |m| && m[parent].Inner? && i <= |m[parent].keys|
                       && m' == m[parent := Inner(m[parent].keys[i - 1 := v], m[parent].children)]
    ensures Shaped(m', levels, info[x := Info(k, v)], if i == 0 then parent else NO_PAGE)
    ensures Flat(m', levels) == Flat(m, levels)
  {
    hide *;
    var s := RecordSite(m, levels, info, x, k, parent, i);
    RecordingIsLocal(m, levels, info, x, k, parent, i, v, m', s);
    RecordedStands(m, levels, info, k, x, v, m') by {
      RecordingKeeps(m, levels, info, x, k, parent, i, v, m');
    }
    ReplaceChildren(m, levels, info, x, k, s, [x], m', info[x := Info(k, v)]);
  }

  /** The stretch to be replaced is the page itself. */
  lemma RecordSite(m: Pages, levels: Levels, info: Infos, x: PageId, k: nat, parent: PageId, i: nat)
    returns (s: Site)
    requires Shaped(m, levels, info, x) && k + 1 < |levels| && x in levels[k]
    requires parent in levels[k + 1] && i < |ChildrenOf(PageAt(m, parent))| && ChildrenOf(PageAt(m, parent))[i] == x
    ensures At(m, levels, k, s) && s.parent == parent && s.old' == [x] && s.before == ChildrenOf(PageAt(m, parent))[..i]
    ensures Spliced(m, levels, k, s, [x]) == levels && x in s.old' && LevelsOk(m, levels, info, x, |levels|)
  {
    hide LevelOk, LevelsOk, Spliced;
    s := LocateChildren(m, levels, k, parent, i, 1);
    assert s.old' == [x];
    SplicedSame(m, levels, info, x, k, s);
  }

  lemma RecordingKeeps(m: Pages, levels: Levels, info: Infos, x: PageId, k: nat, parent: PageId, i: nat, v: Value,
                       m': Pages)
    requires Shaped(m, levels, info, x) && k + 1 < |levels| && x in levels[k]
    requires parent in levels[k + 1] && i < |ChildrenOf(PageAt(m, parent))| && ChildrenOf(PageAt(m, parent))[i] == x
    requires i == 0 ==> m' == m
    requires i > 0 ==> parent < |m| && m[parent].Inner? && i <= |m[parent].keys|
                       && m' == m[parent := Inner(m[parent].keys[i - 1 := v], m[parent].children)]
    ensures PageAt(m', x) == PageAt(m, x) && LevelsOk(m, levels, info, x, |levels|)
  {
    hide LevelOk, LevelsOk;
    RecordedParent(m, levels, info, k, parent, i, x, v, m');
  }

  /** Recording a minimum changes the parent at most. */
  lemma RecordingIsLocal(m: Pages, levels: Levels, info: Infos, x: PageId, k: nat, parent: PageId, i: nat, v: Value,
                         m': Pages, s: Site)
    requires Shaped(m, levels, info, x) && k + 1 < |levels| && x in levels[k]
    requires parent in levels[k + 1] && i < |ChildrenOf(PageAt(m, parent))| && ChildrenOf(PageAt(m, parent))[i] == x
    requires i == 0 ==> m' == m
    requires i > 0 ==> parent < |m| && m[parent].Inner? && i <= |m[parent].keys|
                       && m' == m[parent := Inner(m[parent].keys[i - 1 := v], m[parent].children)]
    requires At(m, levels, k, s) && s.parent == parent && s.old' == [x] && s.before == ChildrenOf(PageAt(m, parent))[..i]
    ensures ParentRebuilt(m', info[x := Info(k, v)], s, [x])
    ensures i > 0 ==> FirstKept(info, info[x := Info(k, v)], s, [x])
    ensures SameBelow(m, m', info, |levels|, Touched(s, [x])) && InfoBounded(m', info[x := Info(k, v)])
  {
    hide LevelOk, LevelsOk, ExactKeys;
    RecordedParent(m, levels, info, k, parent, i, x, v, m');
    LevelKnown(m, levels, info, x, |levels|, k);
  }

  /** Putting the stretch back in its own place changes no level. */
  lemma SplicedSame(m: Pages, levels: Levels, info: Infos, hole: PageId, k: nat, s: Site)
    requires At(m, levels, k, s) && LevelsOk(m, levels, info, hole, |levels|)
    ensures Spliced(m, levels, k, s, s.old') == levels
  {
    LevelKnown(m, levels, info, hole, |levels|, k + 1);
    SiteInLevel(m, levels, k, s);
  }

  lemma RecordedStands(m: Pages, levels: Levels, info: Infos, k: nat, x: PageId, v: Value, m': Pages)
    requires k < |levels| && LevelsOk(m, levels, info, x, |levels|) && x in levels[k]
    requires TrueMin(m, info, x, v) && EncodedSize(v) <= MAX_KEY_BYTES
    requires PageAt(m', x) == PageAt(m, x)
    ensures StandsFor(m, info, k, [x], m', info[x := Info(k, v)], [x])
  {
    LevelKnown(m, levels, info, x, |levels|, k);
    RecordedNode(m, levels, info, k, x, v, m');
    EntriesFrame(m, m', [x]);
    KidsFrame(m, m', [x]);
  }

  lemma RecordedNode(m: Pages, levels: Levels, info: Infos, k: nat, x: PageId, v: Value, m': Pages)
    requires k < |levels| && LevelsOk(m, levels, info, x, |levels|) && x in levels[k]
    requires TrueMin(m, info, x, v) && EncodedSize(v) <= MAX_KEY_BYTES
    requires PageAt(m', x) == PageAt(m, x)
    ensures NodeOk(m', info[x := Info(k, v)], NO_PAGE, k, x)
  {
    LevelKnown(m, levels, info, x, |levels|, k);
    if k > 0 {
      forall c | c in ChildrenOf(PageAt(m, x))
        ensures c != x && c in info
      {
        ChildLevel(m, levels, info, x, |levels|, k, x, c);
      }
    }
  }

  lemma RecordedParent(m: Pages, levels: Levels, info: Infos, k: nat, parent: PageId, i: nat, x: PageId, v: Value,
                       m': Pages)
    requires k + 1 < |levels| && LevelsOk(m, levels, info, x, |levels|) && x in levels[k]
    requires parent in levels[k + 1] && i < |ChildrenOf(PageAt(m, parent))| && ChildrenOf(PageAt(m, parent))[i] == x
    requires i == 0 ==> m' == m
    requires i > 0 ==> parent < |m| && m[parent].Inner? && i <= |m[parent].keys|
                       && m' == m[parent := Inner(m[parent].keys[i - 1 := v], m[parent].children)]
    ensures PageAt(m', x) == PageAt(m, x) && x != parent
    ensures PageAt(m', parent).Inner? && PageAt(m', parent).children == PageAt(m, parent).children
    ensures ExactKeys(info[x := Info(k, v)], PageAt(m', parent).keys, PageAt(m', parent).children)
  {
    hide Chained, Kids, Entries;
    LevelKnown(m, levels, info, x, |levels|, k);
    LevelKnown(m, levels, info, x, |levels|, k + 1);
    var cs := PageAt(m, parent).children;
    ChildrenDistinct(m, levels, info, x, k, parent);
    assert forall j :: 0 <= j < |cs| && j != i ==> cs[j] != cs[i];
  }

  lemma ChildrenDistinct(m: Pages, levels: Levels, info: Infos, hole: PageId, k: nat, parent: PageId)
    requires k + 1 < |levels| && LevelsOk(m, levels, info, hole, |levels|) && parent in levels[k + 1]
    ensures NoDup(ChildrenOf(PageAt(m, parent)))
  {
    LevelKnown(m, levels, info, hole, |levels|, k);
    LevelKnown(m, levels, info, hole, |levels|, k + 1);
    var l := levels[k + 1];
    var left, right := Locate(l, parent);
    KidsAround(m, left, parent, right);
    NoDupDisjoint(Kids(m, left), ChildrenOf(PageAt(m, parent)), Kids(m, right));
  }

  /** At the root there is nobody left to tell. */
  lemma RecordRootMin(m: Pages, levels: Levels, info: Infos, x: PageId, v: Value)
    requires Shaped(m, levels, info, x) && levels[|levels| - 1] == [x]
    requires TrueMin(m, info, x, v) && EncodedSize(v) <= MAX_KEY_BYTES
    ensures Shaped(m, levels, info[x := Info(|levels| - 1, v)], NO_PAGE)
  {
    var k := |levels| - 1;
    var info' := info[x := Info(k, v)];
    LevelKnown(m, levels, info, x, |levels|, k);
    assert x in levels[k];
    RecordedStands(m, levels, info, k, x, v, m);
    assert levels[k] == [] + [x] + [];
    ReplaceLevel(m, levels, info, x, k, [], [x], [x], [], m, info');
    assert levels[k := [] + [x] + []] == levels;
  }
}
