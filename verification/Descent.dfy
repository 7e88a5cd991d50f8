/** Why following separators down finds the right leaf. */
module Descent {
  import opened Values
  import opened Nodes
  import opened Ordered
  import opened Shape
  import opened Surgery

  /** `x` is the right page of its level for `key`: neither the pages to its left
      nor those to its right can hold it. */
  ghost predicate RightPage(info: Infos, level: seq<PageId>, left: seq<PageId>, x: PageId, right: seq<PageId>, key: Value)
  {
    && level == left + [x] + right
    && (left != [] ==> Compare(MinOf(info, x), key).sign <= 0)
    && (right != [] ==> Compare(MinOf(info, right[0]), key).sign > 0)
  }

  /** Which child the separators choose: the one after the last separator that is not
      above the key. */
  function ChildFor(keys: seq<Value>, key: Value): (child: nat)
    ensures child <= |keys|
  {
    if keys == [] then 0
    else if Compare(keys[|keys| - 1], key).sign <= 0 then |keys|
    else ChildFor(keys[..|keys| - 1], key)
  }

  function ChildOn(p: Page, key: Value): PageId {
    if p.Inner? && ChildFor(p.keys, key) < |p.children| then p.children[ChildFor(p.keys, key)] else NO_PAGE
  }

  /** The pages visited in n steps down from the root. */
  function Descend(m: Pages, root: PageId, key: Value, n: nat): (path: seq<PageId>)
    ensures |path| == n + 1
  {
    if n == 0 then [root]
    else
      var up := Descend(m, root, key, n - 1);
      up + [ChildOn(PageAt(m, Last(up)), key)]
  }

  lemma {:induction false} PathStarts(m: Pages, root: PageId, key: Value, n: nat)
    ensures Descend(m, root, key, n)[0] == root
  {
    hide ChildOn;
    if n > 0 {
      PathStarts(m, root, key, n - 1);
    }
  }

  /** The child chosen by the separators is again the right page. */
  lemma ChildIsRightPage(m: Pages, levels: Levels, info: Infos, k: nat, left: seq<PageId>, x: PageId, right: seq<PageId>,
                         key: Value, child: nat)
    requires 0 < k < |levels| && LevelsOk(m, levels, info, NO_PAGE, k + 1)
    requires RightPage(info, levels[k], left, x, right, key)
    requires PageAt(m, x).Inner? && child < |PageAt(m, x).children| == |PageAt(m, x).keys| + 1
    requires child > 0 ==> Compare(PageAt(m, x).keys[child - 1], key).sign <= 0
    requires child < |PageAt(m, x).keys| ==> Compare(PageAt(m, x).keys[child], key).sign > 0
    ensures var cs := PageAt(m, x).children;
            RightPage(info, levels[k - 1], Kids(m, left) + cs[..child], cs[child], cs[child + 1..] + Kids(m, right), key)
  {
    var cs := PageAt(m, x).children;
    LevelKnown(m, levels, info, NO_PAGE, k + 1, k);
    var l := levels[k];
    assert x in l && InnerOk(m, info, NO_PAGE, k, x);
    KidsAround(m, left, x, right);
    assert levels[k - 1] == Kids(m, left) + cs + Kids(m, right);
    if right != [] {
      assert right[0] in l;
      assert InnerOk(m, info, NO_PAGE, k, right[0]);
    }
    hide LevelsOk, LevelOk, NoDup, RightPage;
    SplitChildren(Kids(m, left), cs, Kids(m, right), child);
  }

  lemma SplitChildren(a: seq<PageId>, cs: seq<PageId>, b: seq<PageId>, child: nat)
    requires child < |cs|
    ensures a + cs + b == (a + cs[..child]) + [cs[child]] + (cs[child + 1..] + b)
    ensures child + 1 < |cs| ==> (cs[child + 1..] + b)[0] == cs[child + 1]
    ensures child + 1 == |cs| ==> cs[child + 1..] + b == b
    ensures child == 0 ==> a + cs[..child] == a
  {
  }

  /** One step of the descent, with the path it extends. */
  lemma StepDown(m: Pages, levels: Levels, info: Infos, k: nat, left: seq<PageId>, path: seq<PageId>,
                 right: seq<PageId>, key: Value, child: nat)
    requires 0 < k && |path| + k == |levels| && LevelsOk(m, levels, info, NO_PAGE, |levels|)
    requires PathTo(m, levels, path) && RightPage(info, levels[k], left, Last(path), right, key)
    requires PageAt(m, Last(path)).Inner?
    requires var p := PageAt(m, Last(path));
             && child < |p.children| == |p.keys| + 1
             && (child > 0 ==> Compare(p.keys[child - 1], key).sign <= 0)
             && (child < |p.keys| ==> Compare(p.keys[child], key).sign > 0)
    ensures var cs := PageAt(m, Last(path)).children;
            && NodeOk(m, info, NO_PAGE, k - 1, cs[child])
            && (PageAt(m, cs[child]).Leaf? || PageAt(m, cs[child]).Inner?)
            && PathTo(m, levels, path + [cs[child]]) && Last(path + [cs[child]]) == cs[child]
            && RightPage(info, levels[k - 1], Kids(m, left) + cs[..child], cs[child], cs[child + 1..] + Kids(m, right), key)
  {
    var cs := PageAt(m, Last(path)).children;
    assert forall j :: 0 <= j < k + 1 ==> LevelOk(m, levels, info, NO_PAGE, j);
    ChildIsRightPage(m, levels, info, k, left, Last(path), right, key, child);
    assert Last(path) in levels[|levels| - 1 - (|path| - 1)];
    ChildLevel(m, levels, info, NO_PAGE, |levels|, k, Last(path), cs[child]);
    ExtendPath(m, levels, path, cs[child]);
  }

  lemma NoDescent(m: Pages, root: PageId, key: Value)
    ensures Descend(m, root, key, 0) == [root]
  {
  }

  lemma DescendFurther(m: Pages, root: PageId, key: Value, n: nat, child: nat)
    requires n > 0
    ensures var path := Descend(m, root, key, n - 1);
            var p := PageAt(m, Last(path));
            p.Inner? && child < |p.children| && child == ChildFor(p.keys, key) ==>
              Descend(m, root, key, n) == path + [p.children[child]]
  {
  }

  lemma {:induction false} ChildForSeparates(keys: seq<Value>, key: Value)
    ensures var child := ChildFor(keys, key);
            && (child > 0 ==> Compare(keys[child - 1], key).sign <= 0)
            && (child < |keys| ==> Compare(keys[child], key).sign > 0)
  {
    if keys != [] && Compare(keys[|keys| - 1], key).sign > 0 {
      ChildForSeparates(keys[..|keys| - 1], key);
    }
  }

  /** Following the separators from the root leads to the right page of every level. */
  lemma {:induction false} DescentIsRight(m: Pages, levels: Levels, info: Infos, root: PageId, key: Value, n: nat)
    returns (left: seq<PageId>, right: seq<PageId>)
    requires Shaped(m, levels, info, NO_PAGE) && [root] == levels[|levels| - 1] && n < |levels|
    ensures PathTo(m, levels, Descend(m, root, key, n))
    ensures RightPage(info, levels[|levels| - 1 - n], left, Last(Descend(m, root, key, n)), right, key)
  {
    hide LevelOk, LevelsOk, NodeOk, RightPage, Kids, ChildOn, PathTo;
    StartAtRoot(m, levels, info, NO_PAGE, root, key);
    if n == 0 {
      left, right := [], [];
    } else {
      left, right := DescentIsRight(m, levels, info, root, key, n - 1);
      left, right := DescentStep(m, levels, info, key, Descend(m, root, key, n - 1), left, right);
    }
  }

  /** One step of the descent, wherever it stands. */
  lemma DescentStep(m: Pages, levels: Levels, info: Infos, key: Value, path: seq<PageId>, left: seq<PageId>,
                    right: seq<PageId>) returns (l: seq<PageId>, r: seq<PageId>)
    requires LevelsOk(m, levels, info, NO_PAGE, |levels|) && PathTo(m, levels, path) && 0 < |path| < |levels|
    requires RightPage(info, levels[|levels| - |path|], left, Last(path), right, key)
    ensures var next := path + [ChildOn(PageAt(m, Last(path)), key)];
            PathTo(m, levels, next) && RightPage(info, levels[|levels| - |path| - 1], l, Last(next), r, key)
  {
    hide LevelOk, LevelsOk, NodeOk, RightPage, Kids, ChildFor, PathTo;
    var k := |levels| - |path|;
    OnLevel(m, levels, path);
    LevelNode(m, levels, info, NO_PAGE, |levels|, k, Last(path));
    InnerAbove(m, info, k, Last(path));
    var p := PageAt(m, Last(path));
    var child := ChildFor(p.keys, key);
    ChildForSeparates(p.keys, key);
    StepDown(m, levels, info, k, left, path, right, key, child);
    l, r := Kids(m, left) + p.children[..child], p.children[child + 1..] + Kids(m, right);
  }

  lemma OnLevel(m: Pages, levels: Levels, path: seq<PageId>)
    requires PathTo(m, levels, path)
    ensures path != [] && Last(path) in levels[HeightOf(levels, path)]
  {
  }

  lemma InnerAbove(m: Pages, info: Infos, k: nat, id: PageId)
    requires k > 0 && NodeOk(m, info, NO_PAGE, k, id)
    ensures PageAt(m, id).Inner? && |PageAt(m, id).children| == |PageAt(m, id).keys| + 1
  {
  }

  lemma StartAtRoot(m: Pages, levels: Levels, info: Infos, hole: PageId, root: PageId, key: Value)
    requires Shaped(m, levels, info, hole) && [root] == levels[|levels| - 1]
    ensures PathTo(m, levels, [root]) && Last([root]) == root
    ensures NodeOk(m, info, hole, |levels| - 1, root) && (PageAt(m, root).Leaf? || PageAt(m, root).Inner?)
    ensures LevelsOk(m, levels, info, hole, |levels|)
    ensures RightPage(info, levels[|levels| - 1], [], root, [], key)
  {
    var top := levels[|levels| - 1];
    assert top[0] == root && root in top;
    LevelNode(m, levels, info, hole, |levels|, |levels| - 1, root);
  }

  lemma LeafNode(m: Pages, info: Infos, hole: PageId, k: nat, level: seq<PageId>, left: seq<PageId>, x: PageId,
                 right: seq<PageId>, key: Value)
    requires NodeOk(m, info, hole, k, x) && PageAt(m, x).Leaf? && RightPage(info, level, left, x, right, key)
    ensures k == 0 && level == left + [x] + right
  {
  }

  lemma InnerNode(m: Pages, info: Infos, hole: PageId, k: nat, x: PageId)
    requires NodeOk(m, info, hole, k, x) && !PageAt(m, x).Leaf?
    ensures k > 0 && PageAt(m, x).Inner? && |PageAt(m, x).children| == |PageAt(m, x).keys| + 1
  {
  }

  lemma ExtendPath(m: Pages, levels: Levels, path: seq<PageId>, c: PageId)
    requires PathTo(m, levels, path) && |path| < |levels|
    requires c in levels[HeightOf(levels, path) - 1] && c in ChildrenOf(PageAt(m, Last(path)))
    ensures PathTo(m, levels, path + [c])
  {
  }

  /** At leaf level: everything to the left is smaller and everything to the
      right is larger than the key. */
  lemma RightLeafSeparates(m: Pages, levels: Levels, info: Infos, t: DataType,
                           left: seq<PageId>, x: PageId, right: seq<PageId>, key: Value)
    requires |levels| > 0 && LevelsOk(m, levels, info, NO_PAGE, 1)
    requires RightPage(info, levels[0], left, x, right, key)
    requires InOrder(t, Flat(m, levels)) && key.IsKey(t)
    ensures forall i :: 0 <= i < |Entries(m, left)| ==> Less(Entries(m, left)[i].key, key)
    ensures forall i :: 0 <= i < |Entries(m, right)| ==> Compare(Entries(m, right)[i].key, key).sign > 0
  {
    EntriesAround(m, left, x, right);
    LevelKnown(m, levels, info, NO_PAGE, 1, 0);
    var l := levels[0];
    var a, e, b := Entries(m, left), EntriesOf(PageAt(m, x)), Entries(m, right);
    if left != [] {
      assert x in l && LeafOk(m, info, NO_PAGE, x);
      AllBelow(t, a, e, b, key);
    }
    if right != [] {
      assert right[0] in l && LeafOk(m, info, NO_PAGE, right[0]);
      AllAbove(t, a, e, b, key);
    }
  }

  lemma AllBelow(t: DataType, a: seq<Entry>, e: seq<Entry>, b: seq<Entry>, key: Value)
    requires InOrder(t, a + e + b) && key.IsKey(t) && e != [] && Compare(e[0].key, key).sign <= 0
    ensures forall i :: 0 <= i < |a| ==> Less(a[i].key, key)
  {
    var s := a + e + b;
    assert s[|a|] == e[0];
    BelowIsBelow(t, s, |a|, key);
    assert forall i :: 0 <= i < |a| ==> a[i] == s[i];
  }

  lemma AllAbove(t: DataType, a: seq<Entry>, e: seq<Entry>, b: seq<Entry>, key: Value)
    requires InOrder(t, a + e + b) && key.IsKey(t) && b != [] && Compare(b[0].key, key).sign > 0
    ensures forall i :: 0 <= i < |b| ==> Compare(b[i].key, key).sign > 0
  {
    var s := a + e + b;
    var n := |a| + |e|;
    assert s[n] == b[0];
    AboveIsAbove(t, s, n, key);
    assert forall i :: 0 <= i < |b| ==> b[i] == s[n + i];
  }
}
