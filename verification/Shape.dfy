/** The structural invariant of an index, stated level by level.

    `levels[0]` lists the leaves from left to right and `levels[k]` the nodes
    at height k, so "all leaves are equally deep" is built in. `info` records
    for every page of the tree its height and the minimum key of its subtree.
    One page, the `hole`, may be out of step with its recorded minimum: while
    an operation climbs the tree the hole is the node whose first key has
    changed and whose ancestors have not been told yet. */
module Shape {
  import opened Values
  import opened Nodes

  datatype Info = Info(level: nat, min: Value)
  type Infos = map<PageId, Info>
  type Levels = seq<seq<PageId>>
  type Pages = seq<Page>

  const NO_PAGE: PageId := 0

  function PageAt(m: Pages, id: PageId): Page {
    if id < |m| then m[id] else Raw
  }

  function EntriesOf(p: Page): seq<Entry> {
    if p.Leaf? then p.entries else []
  }

  function ChildrenOf(p: Page): seq<PageId> {
    if p.Inner? then p.children else []
  }

  function NextOf(p: Page): PageId {
    if p.Leaf? then p.next else NO_PAGE
  }

  /** `std::find` over a list of children: the length when it is not there. */
  function IndexOf(l: seq<PageId>, x: PageId): (i: nat)
    ensures i <= |l|
    ensures x in l ==> i < |l| && l[i] == x
    ensures i < |l| ==> l[i] == x
  {
    if l == [] || l[0] == x then 0 else 1 + IndexOf(l[1..], x)
  }

  function MinOf(info: Infos, id: PageId): Value {
    if id in info then info[id].min else Null
  }

  /** All entries of a list of leaves, in order. */
  ghost function Entries(m: Pages, l: seq<PageId>): seq<Entry> {
    if l == [] then [] else EntriesOf(PageAt(m, l[0])) + Entries(m, l[1..])
  }

  /** All children of a list of inner nodes, in order. */
  ghost function Kids(m: Pages, l: seq<PageId>): seq<PageId> {
    if l == [] then [] else ChildrenOf(PageAt(m, l[0])) + Kids(m, l[1..])
  }

  ghost predicate NoDup(l: seq<PageId>) {
    forall i, j :: 0 <= i < j < |l| ==> l[i] != l[j]
  }

  function SuccessorAt(l: seq<PageId>, i: nat): PageId {
    if i + 1 < |l| then l[i + 1] else NO_PAGE
  }

  /** `next` links lead from each leaf of `l` to the one after it, the last one
      to `last`. */
  ghost predicate Chained(m: Pages, l: seq<PageId>, last: PageId) {
    forall i :: 0 <= i < |l| ==>
      NextOf(PageAt(m, l[i])) == if i + 1 < |l| then SuccessorAt(l, i) else last
  }

  /** The separators of a node with these children. */
  ghost predicate ExactKeys(info: Infos, keys: seq<Value>, children: seq<PageId>) {
    |keys| + 1 == |children| && forall i :: 0 <= i < |keys| ==> keys[i] == MinOf(info, children[i + 1])
  }

  ghost predicate Known(info: Infos, id: PageId, level: nat) {
    id != NO_PAGE && id in info && info[id].level == level && EncodedSize(info[id].min) <= MAX_KEY_BYTES
  }

  ghost predicate LeafOk(m: Pages, info: Infos, hole: PageId, id: PageId) {
    && Known(info, id, 0)
    && PageAt(m, id).Leaf?
    && SmallKeys(PageAt(m, id).entries)
    && (id != hole ==> PageAt(m, id).entries != [] && info[id].min == PageAt(m, id).entries[0].key)
  }

  ghost predicate InnerOk(m: Pages, info: Infos, hole: PageId, level: nat, id: PageId) {
    && Known(info, id, level)
    && PageAt(m, id).Inner?
    && ExactKeys(info, PageAt(m, id).keys, PageAt(m, id).children)
    && (id != hole ==> info[id].min == MinOf(info, PageAt(m, id).children[0]))
  }

  ghost predicate NodeOk(m: Pages, info: Infos, hole: PageId, level: nat, id: PageId) {
    if level == 0 then LeafOk(m, info, hole, id) else InnerOk(m, info, hole, level, id)
  }

  ghost predicate LevelOk(m: Pages, levels: Levels, info: Infos, hole: PageId, k: nat)
    requires k < |levels|
  {
    && NoDup(levels[k])
    && (forall id :: id in levels[k] ==> NodeOk(m, info, hole, k, id))
    && (k == 0 ==> Chained(m, levels[0], NO_PAGE))
    && (k > 0 ==> Kids(m, levels[k]) == levels[k - 1])
  }

  /** Levels 0 to n - 1 are in order. */
  ghost predicate LevelsOk(m: Pages, levels: Levels, info: Infos, hole: PageId, n: nat)
    requires n <= |levels|
  {
    forall k :: 0 <= k < n ==> LevelOk(m, levels, info, hole, k)
  }

  /** Every inner node has two children or more. */
  ghost predicate TwoChildrenEach(m: Pages) {
    forall id: PageId :: PageAt(m, id).Inner? ==> |PageAt(m, id).children| >= 2
  }

  ghost predicate InfoBounded(m: Pages, info: Infos) {
    forall id :: id in info ==> id < |m|
  }

  /** The invariant of a whole tree. */
  ghost predicate Shaped(m: Pages, levels: Levels, info: Infos, hole: PageId) {
    && |levels| > 0
    && |levels[|levels| - 1]| == 1
    && LevelsOk(m, levels, info, hole, |levels|)
    && InfoBounded(m, info)
  }

  /** What an index holds: the entries of its leaves from left to right. */
  ghost function Flat(m: Pages, levels: Levels): seq<Entry> {
    if |levels| == 0 then [] else Entries(m, levels[0])
  }

  // ---- lists of nodes ----

  lemma {:induction false} EntriesAppend(m: Pages, a: seq<PageId>, b: seq<PageId>)
    ensures Entries(m, a + b) == Entries(m, a) + Entries(m, b)
  {
    if a == [] {
      assert a + b == b;
    } else {
      assert (a + b)[1..] == a[1..] + b;
      EntriesAppend(m, a[1..], b);
    }
  }

  lemma {:induction false} KidsAppend(m: Pages, a: seq<PageId>, b: seq<PageId>)
    ensures Kids(m, a + b) == Kids(m, a) + Kids(m, b)
  {
    if a == [] {
      assert a + b == b;
    } else {
      assert (a + b)[1..] == a[1..] + b;
      KidsAppend(m, a[1..], b);
    }
  }

  lemma {:induction false} EntriesFrame(m: Pages, m': Pages, l: seq<PageId>)
    requires forall id :: id in l ==> PageAt(m', id) == PageAt(m, id)
    ensures Entries(m', l) == Entries(m, l)
  {
    if l != [] {
      assert l[0] in l;
      assert forall id :: id in l[1..] ==> id in l;
      EntriesFrame(m, m', l[1..]);
    }
  }

  lemma {:induction false} KidsFrame(m: Pages, m': Pages, l: seq<PageId>)
    requires forall id :: id in l ==> PageAt(m', id) == PageAt(m, id)
    ensures Kids(m', l) == Kids(m, l)
  {
    if l != [] {
      assert l[0] in l;
      assert forall id :: id in l[1..] ==> id in l;
      KidsFrame(m, m', l[1..]);
    }
  }

  lemma {:induction false} ChildIsKid(m: Pages, l: seq<PageId>, id: PageId, c: PageId)
    requires id in l && c in ChildrenOf(PageAt(m, id))
    ensures c in Kids(m, l)
  {
    if id != l[0] {
      ChildIsKid(m, l[1..], id, c);
    }
  }

  lemma KidsAround(m: Pages, left: seq<PageId>, x: PageId, right: seq<PageId>)
    ensures Kids(m, left + [x] + right) == Kids(m, left) + ChildrenOf(PageAt(m, x)) + Kids(m, right)
  {
    KidsAppend(m, left + [x], right);
    KidsAppend(m, left, [x]);
    assert Kids(m, [x]) == ChildrenOf(PageAt(m, x)) + Kids(m, [x][1..]);
  }

  lemma EntriesAround(m: Pages, left: seq<PageId>, x: PageId, right: seq<PageId>)
    ensures Entries(m, left + [x] + right) == Entries(m, left) + EntriesOf(PageAt(m, x)) + Entries(m, right)
  {
    EntriesAppend(m, left + [x], right);
    EntriesAppend(m, left, [x]);
    assert Entries(m, [x]) == EntriesOf(PageAt(m, x)) + Entries(m, [x][1..]);
  }

  lemma NoDupReplace(a: seq<PageId>, old': seq<PageId>, new': seq<PageId>, b: seq<PageId>)
    requires NoDup(a + old' + b) && NoDup(new')
    requires forall x :: x in new' ==> x in old' || x !in a + old' + b
    ensures NoDup(a + new' + b)
  {
    var s := a + old' + b;
    var t := a + new' + b;
    forall i, j | 0 <= i < j < |t|
      ensures t[i] != t[j]
    {
      NoDupDisjoint(a, old', b);
      if i < |a| {
        assert t[i] == a[i] == s[i];
        if j < |a| {
          assert t[j] == s[j];
        } else if j < |a| + |new'| {
          assert t[j] == new'[j - |a|] && t[j] in new';
          assert a[i] in a && a[i] in s;
        } else {
          assert t[j] == b[j - |a| - |new'|] == s[j - |new'| + |old'|];
        }
      } else if i < |a| + |new'| {
        assert t[i] == new'[i - |a|] && t[i] in new';
        if j >= |a| + |new'| {
          assert t[j] == b[j - |a| - |new'|] && t[j] in b && t[j] in s;
        }
      } else {
        assert t[i] == b[i - |a| - |new'|] == s[i - |new'| + |old'|];
        assert t[j] == b[j - |a| - |new'|] == s[j - |new'| + |old'|];
      }
    }
  }

  lemma NoDupDisjoint(a: seq<PageId>, c: seq<PageId>, b: seq<PageId>)
    requires NoDup(a + c + b)
    ensures NoDup(a) && NoDup(c) && NoDup(b)
    ensures forall x :: x in c ==> x !in a && x !in b
    ensures forall x :: x in a ==> x !in b
  {
    var s := a + c + b;
    assert forall i :: 0 <= i < |a| ==> s[i] == a[i];
    assert forall i :: 0 <= i < |c| ==> s[|a| + i] == c[i];
    assert forall i :: 0 <= i < |b| ==> s[|a| + |c| + i] == b[i];
    forall i, j | 0 <= i < |b| && 0 <= j < |b| && i < j
      ensures b[i] != b[j]
    {
      assert s[|a| + |c| + i] != s[|a| + |c| + j];
    }
    forall i, j | 0 <= i < |c| && 0 <= j < |c| && i < j
      ensures c[i] != c[j]
    {
      assert s[|a| + i] != s[|a| + j];
    }
  }

  // ---- levels ----

  lemma LevelKnown(m: Pages, levels: Levels, info: Infos, hole: PageId, n: nat, k: nat)
    requires k < n <= |levels| && LevelsOk(m, levels, info, hole, n)
    ensures LevelOk(m, levels, info, hole, k)
    ensures forall id :: id in levels[k] ==> Known(info, id, k)
  {
    assert LevelOk(m, levels, info, hole, k);
  }

  lemma LevelFrame(m: Pages, levels: Levels, info: Infos, hole: PageId, k: nat,
                   m': Pages, levels': Levels, info': Infos, hole': PageId)
    requires k < |levels| && k < |levels'|
    requires LevelOk(m, levels, info, hole, k)
    requires levels'[k] == levels[k] && (k > 0 ==> levels'[k - 1] == levels[k - 1])
    requires forall id :: id in levels[k] ==> PageAt(m', id) == PageAt(m, id)
    requires forall id :: id in levels[k] ==> id in info' && info'[id] == info[id]
    requires k > 0 ==> forall id :: id in levels[k - 1] ==> MinOf(info', id) == MinOf(info, id)
    requires hole in levels[k] ==> hole' == hole
    ensures LevelOk(m', levels', info', hole', k)
  {
    if k == 0 {
      assert forall i :: 0 <= i < |levels[0]| ==> levels[0][i] in levels[0];
    } else {
      KidsFrame(m, m', levels[k]);
      forall id | id in levels[k]
        ensures NodeOk(m', info', hole', k, id)
      {
        var cs := PageAt(m, id).children;
        forall i | 0 <= i < |cs|
          ensures MinOf(info', cs[i]) == MinOf(info, cs[i])
        {
          ChildIsKid(m, levels[k], id, cs[i]);
        }
      }
    }
  }

  lemma FirstLevelOk(m: Pages, levels: Levels, info: Infos, hole: PageId)
    requires 0 < |levels| && LevelsOk(m, levels, info, hole, |levels|)
    ensures LevelsOk(m, levels, info, hole, 1)
  {
  }

  lemma LevelNode(m: Pages, levels: Levels, info: Infos, hole: PageId, n: nat, k: nat, x: PageId)
    requires k < n <= |levels| && LevelsOk(m, levels, info, hole, n) && x in levels[k]
    ensures NodeOk(m, info, hole, k, x)
  {
    assert LevelOk(m, levels, info, hole, k);
  }

  lemma JoinLevels(m: Pages, levels: Levels, info: Infos, hole: PageId, k: nat)
    requires k < |levels| && LevelsOk(m, levels, info, NO_PAGE, k + 1)
    requires forall j :: k < j < |levels| ==> LevelOk(m, levels, info, hole, j)
    ensures LevelsOk(m, levels, info, hole, |levels|)
  {
    forall j | 0 <= j < |levels|
      ensures LevelOk(m, levels, info, hole, j)
    {
      if j <= k {
        LevelKnown(m, levels, info, NO_PAGE, k + 1, j);
        WeakerHole(m, levels, info, hole, j);
      }
    }
  }

  lemma WeakerHole(m: Pages, levels: Levels, info: Infos, hole: PageId, k: nat)
    requires k < |levels| && LevelOk(m, levels, info, NO_PAGE, k)
    ensures LevelOk(m, levels, info, hole, k)
  {
  }

  lemma NodeHoleless(m: Pages, info: Infos, hole: PageId, k: nat, x: PageId)
    requires NodeOk(m, info, hole, k, x) && x != hole
    ensures NodeOk(m, info, NO_PAGE, k, x)
  {
  }

  // ---- finding the place of a page ----

  lemma Locate(l: seq<PageId>, x: PageId) returns (left: seq<PageId>, right: seq<PageId>)
    requires x in l
    ensures l == left + [x] + right
  {
    var i :| 0 <= i < |l| && l[i] == x;
    left, right := l[..i], l[i + 1..];
  }

  /** Children live one level below their parent. */
  lemma ChildLevel(m: Pages, levels: Levels, info: Infos, hole: PageId, n: nat, k: nat, x: PageId, c: PageId)
    requires 0 < k < n <= |levels| && LevelsOk(m, levels, info, hole, n)
    requires x in levels[k] && c in ChildrenOf(PageAt(m, x))
    ensures c in levels[k - 1] && Known(info, c, k - 1) && NodeOk(m, info, hole, k - 1, c)
  {
    LevelKnown(m, levels, info, hole, n, k);
    LevelKnown(m, levels, info, hole, n, k - 1);
    ChildIsKid(m, levels[k], x, c);
  }
}
