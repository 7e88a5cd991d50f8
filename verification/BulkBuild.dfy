/** Building a whole index bottom-up from sorted entries (`bulk_build` and
    `bulk_build_from_flat` of disk_bsp_index.cpp). */
module BulkBuild {
  import opened Outcomes
  import opened Values
  import opened Nodes
  import opened Ordered
  import opened Shape
  import opened Replace
  import opened Surgery
  import opened Index
  import opened Capacity
  import opened Fanout

  // ---- checking the input ----

  lemma {:induction false} AdjacentIsOrdered(es: seq<Entry>, i: nat, j: nat)
    requires i < j < |es| && forall k :: 0 < k < |es| ==> Less(es[k - 1].key, es[k].key)
    ensures Less(es[i].key, es[j].key)
    decreases j
  {
    if i + 1 < j {
      AdjacentIsOrdered(es, i, j - 1);
      LessTransitive(es[i].key, es[j - 1].key, es[j].key);
    }
  }

  function TypeOf(v: Value): DataType {
    if v.Int? then IntType else StrType
  }

  /** The checks before a bulk build: no NULL and no oversized key
      (`validate_bulk_build_input`), and each key above the one before it, which keys
      of different types never are. */
  method CheckInput(es: seq<Entry>) returns (ok: bool)
    ensures ok <==> SmallKeys(es) && exists t :: InOrder(t, es)
    ensures ok && es != [] ==> InOrder(TypeOf(es[0].key), es)
  {
    for i := 0 to |es|
      invariant forall k :: 0 <= k < i ==> !es[k].key.Null? && EncodedSize(es[k].key) <= MAX_KEY_BYTES
    {
      if es[i].key.Null? || EncodedSize(es[i].key) > MAX_KEY_BYTES {
        return false;
      }
    }
    ghost var t := if es == [] then IntType else TypeOf(es[0].key);
    var i := 1;
    while i < |es|
      invariant 1 <= i
      invariant forall k :: 0 < k < i && k < |es| ==> Less(es[k - 1].key, es[k].key)
      invariant forall k :: 0 <= k < i && k < |es| ==> es[k].key.IsKey(t)
    {
      if Compare(es[i - 1].key, es[i].key).sign >= 0 {
        return false;
      }
      i := i + 1;
    }
    forall i, j | 0 <= i < j < |es|
      ensures Less(es[i].key, es[j].key)
    {
      AdjacentIsOrdered(es, i, j);
    }
    assert InOrder(t, es);
    return true;
  }

  // ---- the leaves ----

  /** n consecutive page ids. */
  ghost function Run(start: PageId, n: nat): (ids: seq<PageId>)
    ensures |ids| == n && NoDup(ids)
    ensures forall i :: 0 <= i < n ==> ids[i] == start + i
    ensures forall id :: id in ids <==> start <= id < start + n
  {
    var ids := seq(n, i requires 0 <= i < n => start + i);
    assert forall id :: start <= id < start + n ==> id in ids by {
      forall id | start <= id < start + n
        ensures id in ids
      {
        assert ids[id - start] == id;
      }
    }
    ids
  }

  lemma RunSnoc(start: PageId, n: nat)
    ensures Run(start, n + 1) == Run(start, n) + [start + n]
  {
  }

  /** Freshly written leaves, not linked yet. */
  ghost predicate LeavesWritten(m: Pages, n: nat, es: seq<Entry>) {
    && |m| == n + 1
    && (forall id :: id in Run(1, n) ==> SoundLeaf(PageAt(m, id)) && Fits(PageAt(m, id)) && NextOf(PageAt(m, id)) == NO_PAGE)
    && Entries(m, Run(1, n)) == es
  }

  lemma LeafAdded(m: Pages, n: nat, es: seq<Entry>, chunk: seq<Entry>)
    requires LeavesWritten(m, n, es) && SmallKeys(chunk) && chunk != [] && !LeafOverflow(chunk)
    ensures LeavesWritten(m + [Leaf(chunk, NO_PAGE)], n + 1, es + chunk)
  {
    hide Entries, LeafOverflow, SmallKeys;
    RunSnoc(1, n);
    EntriesSnoc(m, Run(1, n), Leaf(chunk, NO_PAGE));
    PagesKept(m, Run(1, n), Leaf(chunk, NO_PAGE));
  }

  lemma PagesKept(m: Pages, l: seq<PageId>, p: Page)
    requires forall id :: id in l ==> id < |m|
    ensures PageAt(m + [p], |m|) == p
    ensures forall id :: id in l ==> PageAt(m + [p], id) == PageAt(m, id)
  {
  }

  lemma EntriesSnoc(m: Pages, l: seq<PageId>, p: Page)
    requires forall id :: id in l ==> id < |m|
    ensures Entries(m + [p], l + [|m|]) == Entries(m, l) + EntriesOf(p)
  {
    hide Entries, EntriesOf, PageAt;
    PagesKept(m, l, p);
    EntriesFrame(m, m + [p], l);
    EntriesAppend(m + [p], l, [|m|]);
    EntriesOfOne(m + [p], |m|);
  }

  lemma KidsSnoc(m: Pages, l: seq<PageId>, p: Page)
    requires forall id :: id in l ==> id < |m|
    ensures Kids(m + [p], l + [|m|]) == Kids(m, l) + ChildrenOf(p)
  {
    hide Kids, ChildrenOf, PageAt;
    PagesKept(m, l, p);
    KidsFrame(m, m + [p], l);
    KidsAppend(m + [p], l, [|m|]);
    KidsOfOne(m + [p], |m|);
  }

  /** Writes one chunk to a page of its own. */
  method WriteChunk(idx: DiskBspIndex, ghost n: nat, ghost es: seq<Entry>, chunk: seq<Entry>) returns (id: PageId)
    requires LeavesWritten(idx.pages, n, es) && SmallKeys(chunk) && chunk != [] && !LeafOverflow(chunk)
    modifies idx`pages
    ensures id == n + 1 == |old(idx.pages)| && LeavesWritten(idx.pages, n + 1, es + chunk)
    ensures idx.pages == old(idx.pages) + [Leaf(chunk, NO_PAGE)]
  {
    hide LeavesWritten, SmallKeys, LeafOverflow;
    LeafAdded(idx.pages, n, es, chunk);
    WrittenPages(idx.pages, n, es);
    id := idx.AllocatePage();
    var w := idx.WritePage(id, Leaf(chunk, NO_PAGE));
    assert idx.pages == old(idx.pages) + [Leaf(chunk, NO_PAGE)];
  }

  lemma WrittenPages(m: Pages, n: nat, es: seq<Entry>)
    requires LeavesWritten(m, n, es)
    ensures |m| == n + 1
  {
  }

  lemma ChunkGrows(chunk: seq<Entry>, e: Entry)
    requires SmallKeys(chunk) && EncodedSize(e.key) <= MAX_KEY_BYTES
    requires chunk == [] || LeafBytes(chunk) + 2 + EncodedSize(e.key) + 8 <= PAGE_SIZE
    ensures SmallKeys(chunk + [e]) && !LeafOverflow(chunk + [e])
    ensures LeafBytes(chunk + [e]) == LeafBytes(chunk) + 2 + EncodedSize(e.key) + 8
  {
    EntriesSizeAppend(chunk, [e]);
    EntriesSizeBound([e]);
  }

  lemma LongerStretch(es: seq<Entry>, a: nat, b: nat)
    requires a <= b < |es|
    ensures es[a..b] + [es[b]] == es[a..b + 1]
  {
  }

  lemma LeafLoad(es: seq<Entry>, a: nat, b: nat)
    requires a <= b < |es|
    ensures SmallKeys(es) ==> EncodedSize(es[b].key) <= MAX_KEY_BYTES
    ensures AllInts(es) ==> LeafBytes(es[a..b]) == HEADER + 19 * (b - a) && EncodedSize(es[b].key) == 9
  {
    if AllInts(es) {
      IntsSize(es[a..b]);
    }
  }

  /** Each leaf written so far begins with the key it should. */
  ghost predicate HeadsWritten(m: Pages, leaves: seq<PageId>, heads: seq<Value>) {
    && |heads| == |leaves|
    && forall g :: 0 <= g < |leaves| ==> 0 < leaves[g] < |m| && TrueMinOf(m, map[], leaves[g]) == heads[g]
  }

  lemma HeadWritten(m: Pages, leaves: seq<PageId>, heads: seq<Value>, chunk: seq<Entry>, next: PageId)
    requires HeadsWritten(m, leaves, heads) && chunk != [] && 0 < |m|
    ensures HeadsWritten(m + [Leaf(chunk, next)], leaves + [|m|], heads + [chunk[0].key])
  {
    var m' := m + [Leaf(chunk, next)];
    forall g | 0 <= g < |leaves|
      ensures TrueMinOf(m', map[], leaves[g]) == heads[g]
    {
      assert PageAt(m', leaves[g]) == PageAt(m, leaves[g]);
    }
  }

  /** The chunk es[a..b] is on its way to become the leaf that starts at a. */
  ghost predicate Filling(es: seq<Entry>, heads: seq<Value>, a: nat, b: nat, bytes: nat) {
    && a <= b <= |es|
    && heads + LeafHeads(es[a..]) == LeafHeads(es)
    && Filled(es[a..], b - a, bytes) == Filled(es[a..], 0, HEADER)
  }

  lemma FillingStarts(es: seq<Entry>)
    ensures Filling(es, [], 0, 0, HEADER)
  {
    assert es[0..] == es;
  }

  lemma FillingGoesOn(es: seq<Entry>, heads: seq<Value>, a: nat, b: nat, bytes: nat)
    requires Filling(es, heads, a, b, bytes) && b < |es|
    requires b == a || bytes + (2 + EncodedSize(es[b].key) + 8) <= PAGE_SIZE
    ensures Filling(es, heads, a, b + 1, bytes + (2 + EncodedSize(es[b].key) + 8))
  {
    hide EncodedSize, LeafHeads;
    assert es[a..][b - a] == es[b];
  }

  lemma FillingEnds(es: seq<Entry>, heads: seq<Value>, a: nat, b: nat, bytes: nat)
    requires Filling(es, heads, a, b, bytes) && a < b
    requires b == |es| || bytes + (2 + EncodedSize(es[b].key) + 8) > PAGE_SIZE
    ensures Filling(es, heads + [es[a].key], b, b, HEADER)
  {
    hide EncodedSize, LeafHeads;
    if b < |es| {
      assert es[a..][b - a] == es[b];
    }
    NextLeafHead(es, a);
    var rest := LeafHeads(es[b..]);
    assert heads + ([es[a].key] + rest) == (heads + [es[a].key]) + rest;
  }

  lemma FillingDone(es: seq<Entry>, heads: seq<Value>)
    requires Filling(es, heads, |es|, |es|, HEADER)
    ensures heads == LeafHeads(es)
  {
    assert es[|es|..] == [];
    assert heads + [] == heads;
  }

  /** Leaves have been written for the first a entries, and the chunk es[a..k] is
      waiting. */
  ghost predicate Progress(m: Pages, leaves: seq<PageId>, heads: seq<Value>, es: seq<Entry>, a: nat, k: nat,
                           chunk: seq<Entry>, bytes: nat) {
    && a <= k <= |es| && chunk == es[a..k] && bytes == LeafBytes(chunk)
    && SmallKeys(es) && SmallKeys(chunk) && !LeafOverflow(chunk) && (chunk == [] ==> k == 0)
    && leaves == Run(1, |leaves|) && LeavesWritten(m, |leaves|, es[..a])
    && HeadsWritten(m, leaves, heads) && Filling(es, heads, a, k, bytes)
    && (AllInts(es) ==> a == INTS_PER_LEAF * |leaves| && |chunk| <= INTS_PER_LEAF)
  }

  lemma ProgressStarts(m: Pages, es: seq<Entry>)
    requires |m| == 1 && SmallKeys(es)
    ensures Progress(m, [], [], es, 0, 0, [], HEADER)
  {
    NothingWritten(m);
    FillingStarts(es);
    NoHeads(m);
    assert es[..0] == [] && es[0..0] == [];
  }

  /** One entry more in the chunk, which has room for it. */
  lemma ChunkGoesOn(m: Pages, leaves: seq<PageId>, heads: seq<Value>, es: seq<Entry>, a: nat, k: nat, chunk: seq<Entry>,
                    bytes: nat)
    requires a <= k < |es| && LeavesWritten(m, |leaves|, es[..a]) && HeadsWritten(m, leaves, heads)
             && leaves == Run(1, |leaves|)
    requires chunk == es[a..k] && SmallKeys(chunk) && bytes == LeafBytes(chunk) && SmallKeys(es)
    requires Filling(es, heads, a, k, bytes) && (AllInts(es) ==> a == INTS_PER_LEAF * |leaves|)
    requires chunk == [] || bytes + (2 + EncodedSize(es[k].key) + 8) <= PAGE_SIZE
    ensures Progress(m, leaves, heads, es, a, k + 1, chunk + [es[k]], bytes + (2 + EncodedSize(es[k].key) + 8))
  {
    hide LeavesWritten, HeadsWritten, Filling, Run, EntriesSize, EncodedSize;
    FillingGoesOn(es, heads, a, k, bytes);
    ChunkGrows(chunk, es[k]);
    LongerStretch(es, a, k);
    LeafLoad(es, a, k);
  }

  /** The chunk is full, or there is nothing left: it becomes a leaf. */
  lemma ChunkWritten(m: Pages, leaves: seq<PageId>, heads: seq<Value>, es: seq<Entry>, a: nat, k: nat, chunk: seq<Entry>,
                     bytes: nat, m': Pages)
    requires Progress(m, leaves, heads, es, a, k, chunk, bytes) && chunk != []
    requires k == |es| || bytes + (2 + EncodedSize(es[k].key) + 8) > PAGE_SIZE
    requires m' == m + [Leaf(chunk, NO_PAGE)] && LeavesWritten(m', |leaves| + 1, es[..a] + chunk)
    ensures var leaves', heads' := leaves + [|m|], heads + [chunk[0].key];
            && leaves' == Run(1, |leaves'|) && LeavesWritten(m', |leaves'|, es[..k]) && HeadsWritten(m', leaves', heads')
            && Filling(es, heads', k, k, HEADER)
            && (AllInts(es) && k < |es| ==> k == INTS_PER_LEAF * |leaves'|)
  {
    hide HeadsWritten, Filling, Run, EntriesSize, EncodedSize, Entries;
    assert es[..a] + chunk == es[..k];
    WrittenPages(m, |leaves|, es[..a]);
    RunSnoc(1, |leaves|);
    HeadWritten(m, leaves, heads, chunk, NO_PAGE);
    FillingEnds(es, heads, a, k, bytes);
    if k < |es| {
      LeafLoad(es, a, k);
    }
  }

  lemma ProgressFacts(m: Pages, leaves: seq<PageId>, heads: seq<Value>, es: seq<Entry>, a: nat, k: nat, chunk: seq<Entry>,
                      bytes: nat)
    requires Progress(m, leaves, heads, es, a, k, chunk, bytes)
    ensures a <= k <= |es| && chunk == es[a..k] && bytes == LeafBytes(chunk) && SmallKeys(es) && SmallKeys(chunk)
    ensures !LeafOverflow(chunk) && (chunk == [] ==> k == 0) && |m| == |leaves| + 1
    ensures leaves == Run(1, |leaves|) && LeavesWritten(m, |leaves|, es[..a]) && HeadsWritten(m, leaves, heads)
    ensures Filling(es, heads, a, k, bytes)
    ensures AllInts(es) ==> a == INTS_PER_LEAF * |leaves| && |chunk| <= INTS_PER_LEAF
  {
  }

  /** Fills pages one after the other, opening a new leaf when the next entry does
      not fit. Leaves of integers hold 214 entries each, but for the last. */
  method BuildLeaves(idx: DiskBspIndex, es: seq<Entry>) returns (leaves: seq<PageId>)
    requires |idx.pages| == 1 && SmallKeys(es) && es != []
    modifies idx`pages
    ensures leaves == Run(1, |leaves|) && leaves != [] && LeavesWritten(idx.pages, |leaves|, es)
    ensures AllInts(es) ==> INTS_PER_LEAF * (|leaves| - 1) < |es| <= INTS_PER_LEAF * |leaves|
    ensures idx.pages[0] == old(idx.pages[0])
    ensures HeadsWritten(idx.pages, leaves, LeafHeads(es))
  {
    hide Progress, HeadsWritten, Filling, LeafHeads, LeavesWritten, LeafOverflow, Run, SmallKeys, AllInts, LeafBytes,
         EncodedSize;
    leaves := [];
    var chunk: seq<Entry>, bytes: nat := [], HEADER;
    ghost var heads: seq<Value>, a: nat := [], 0;
    ProgressStarts(idx.pages, es);
    for k := 0 to |es|
      invariant Progress(idx.pages, leaves, heads, es, a, k, chunk, bytes)
      invariant 0 < |idx.pages| && idx.pages[0] == old(idx.pages[0])
    {
      ProgressFacts(idx.pages, leaves, heads, es, a, k, chunk, bytes);
      var need := 2 + EncodedSize(es[k].key) + 8;
      if chunk != [] && bytes + need > PAGE_SIZE {
        ghost var m := idx.pages;
        var id := WriteChunk(idx, |leaves|, es[..a], chunk);
        ChunkWritten(m, leaves, heads, es, a, k, chunk, bytes, idx.pages);
        leaves, heads, a := leaves + [id], heads + [chunk[0].key], k;
        chunk, bytes := [], HEADER;
        EmptyChunk(es, k);
      }
      ChunkGoesOn(idx.pages, leaves, heads, es, a, k, chunk, bytes);
      bytes := bytes + need;
      chunk := chunk + [es[k]];
    }
    ProgressFacts(idx.pages, leaves, heads, es, a, |es|, chunk, bytes);
    ghost var m := idx.pages;
    var id := WriteChunk(idx, |leaves|, es[..a], chunk);
    ChunkWritten(m, leaves, heads, es, a, |es|, chunk, bytes, idx.pages);
    FillingDone(es, heads + [chunk[0].key]);
    assert es[..|es|] == es;
    leaves := leaves + [id];
  }

  lemma EmptyChunk(es: seq<Entry>, k: nat)
    requires k <= |es|
    ensures es[k..k] == [] && SmallKeys([]) && LeafBytes([]) == HEADER
  {
  }

  lemma NoHeads(m: Pages)
    ensures HeadsWritten(m, [], [])
  {
  }

  lemma NothingWritten(m: Pages)
    requires |m| == 1
    ensures LeavesWritten(m, 0, []) && Run(1, 0) == []
    ensures SmallKeys([]) && LeafBytes([]) == HEADER
  {
    assert Run(1, 0) == [];
  }

  // ---- linking the leaves ----

  /** The first i of n leaves lead to the page after them; m0 is how they were
      written. */
  ghost predicate Linked(m0: Pages, m: Pages, n: nat, i: nat) {
    && |m| == |m0| == n + 1 && m[0] == m0[0]
    && forall id :: id in Run(1, n) ==>
         m[id] == Leaf(EntriesOf(PageAt(m0, id)), if id <= i then id + 1 else NO_PAGE)
  }

  lemma LinkOne(m0: Pages, m: Pages, n: nat, es: seq<Entry>, i: nat)
    requires LeavesWritten(m0, n, es) && Linked(m0, m, n, i) && i + 1 < n
    ensures PageAt(m, i + 1).Leaf? && i + 1 < |m|
    ensures var p := Leaf(PageAt(m, i + 1).entries, i + 2); Fits(p) && Linked(m0, m[i + 1 := p], n, i + 1)
  {
    assert i + 1 in Run(1, n);
  }

  method LinkLeaves(idx: DiskBspIndex, leaves: seq<PageId>, ghost es: seq<Entry>)
    requires leaves == Run(1, |leaves|) && leaves != [] && LeavesWritten(idx.pages, |leaves|, es)
    modifies idx`pages
    ensures Linked(old(idx.pages), idx.pages, |leaves|, |leaves| - 1)
  {
    hide LeavesWritten, Linked, Run, Fits;
    NotLinkedYet(idx.pages, |leaves|, es);
    for i := 0 to |leaves| - 1
      invariant Linked(old(idx.pages), idx.pages, |leaves|, i)
    {
      LinkOne(old(idx.pages), idx.pages, |leaves|, es, i);
      var p := idx.ReadNode(leaves[i]).value;
      var w := idx.WritePage(leaves[i], Leaf(p.entries, leaves[i + 1]));
    }
  }

  lemma NotLinkedYet(m: Pages, n: nat, es: seq<Entry>)
    requires LeavesWritten(m, n, es)
    ensures Linked(m, m, n, 0)
  {
  }

  /** The keys that can be minima of subtrees over these entries. */
  ghost predicate MinsFrom(info: Infos, es: seq<Entry>) {
    forall id :: id in info ==> exists i :: 0 <= i < |es| && es[i].key == info[id].min
  }

  lemma {:induction false} EntryOfList(m: Pages, l: seq<PageId>, id: PageId)
    requires id in l && EntriesOf(PageAt(m, id)) != []
    ensures EntriesOf(PageAt(m, id))[0] in Entries(m, l)
  {
    if id != l[0] {
      EntryOfList(m, l[1..], id);
    }
  }

  ghost function LeafInfo(m: Pages, n: nat): Infos {
    Record(m, map[], 0, Run(1, n))
  }

  /** Linked leaves are a sound bottom level. */
  lemma LinkedLeaves(m0: Pages, m: Pages, n: nat, es: seq<Entry>)
    requires n > 0 && LeavesWritten(m0, n, es) && Linked(m0, m, n, n - 1) && Fits(m0[0])
    ensures LevelsOk(m, [Run(1, n)], LeafInfo(m, n), NO_PAGE, 1)
    ensures InfoBounded(m, LeafInfo(m, n)) && MinsFrom(LeafInfo(m, n), es)
    ensures Entries(m, Run(1, n)) == es
    ensures forall i :: 0 <= i < |m| ==> Fits(m[i])
  {
    hide Entries, Run, NoDup, Linked, LeavesWritten, MinsFrom, Chained, LeafOk, Record, Fits;
    var l := Run(1, n);
    LinkedEntries(m0, m, n, es);
    forall id | id in l
      ensures NodeOk(m, LeafInfo(m, n), NO_PAGE, 0, id)
    {
      LinkedLeaf(m, n, id);
    }
    LeafChain(m0, m, n);
    LeafMins(m, n, es);
    assert [l][0] == l;
    assert LevelOk(m, [l], LeafInfo(m, n), NO_PAGE, 0);
  }

  lemma LinkedEntries(m0: Pages, m: Pages, n: nat, es: seq<Entry>)
    requires n > 0 && LeavesWritten(m0, n, es) && Linked(m0, m, n, n - 1) && Fits(m0[0])
    ensures Entries(m, Run(1, n)) == es
    ensures forall i :: 0 <= i < |m| ==> Fits(m[i])
    ensures forall id :: id in Run(1, n) ==> SoundLeaf(PageAt(m, id))
    ensures InfoBounded(m, LeafInfo(m, n))
  {
    hide Entries, NoDup, EncodedSize, EntriesSize, Chained;
    SameEntries(m0, m, Run(1, n));
    forall i | 0 < i < |m|
      ensures Fits(m[i])
    {
      assert i in Run(1, n);
    }
  }

  lemma LinkedLeaf(m: Pages, n: nat, id: PageId)
    requires id in Run(1, n) && SoundLeaf(PageAt(m, id))
    ensures NodeOk(m, LeafInfo(m, n), NO_PAGE, 0, id)
  {
  }

  lemma LeafMins(m: Pages, n: nat, es: seq<Entry>)
    requires Entries(m, Run(1, n)) == es && forall id :: id in Run(1, n) ==> SoundLeaf(PageAt(m, id))
    ensures MinsFrom(LeafInfo(m, n), es)
  {
    hide Entries, Run;
    forall id | id in LeafInfo(m, n)
      ensures exists i :: 0 <= i < |es| && es[i].key == LeafInfo(m, n)[id].min
    {
      EntryOfList(m, Run(1, n), id);
    }
  }

  lemma LeafChain(m0: Pages, m: Pages, n: nat)
    requires n > 0 && Linked(m0, m, n, n - 1)
    ensures Chained(m, Run(1, n), NO_PAGE)
    ensures forall i :: 0 < i < |m| ==> i in Run(1, n)
  {
    forall i | 0 <= i < n
      ensures NextOf(PageAt(m, Run(1, n)[i])) == if i + 1 < n then SuccessorAt(Run(1, n), i) else NO_PAGE
    {
      assert Run(1, n)[i] == i + 1 && i + 1 in Run(1, n);
    }
  }

  lemma {:induction false} SameEntries(m: Pages, m': Pages, l: seq<PageId>)
    requires forall id :: id in l ==> EntriesOf(PageAt(m', id)) == EntriesOf(PageAt(m, id))
    ensures Entries(m', l) == Entries(m, l)
  {
    if l != [] {
      assert l[0] in l;
      assert forall id :: id in l[1..] ==> id in l;
      SameEntries(m, m', l[1..]);
    }
  }

  // ---- the levels above ----

  /** Some levels of an index over `es`, bottom-up, none of them empty. */
  ghost predicate Built(m: Pages, lv: Levels, info: Infos, es: seq<Entry>) {
    && 0 < |m| && |lv| > 0 && lv[|lv| - 1] != []
    && LevelsOk(m, lv, info, NO_PAGE, |lv|) && InfoBounded(m, info) && MinsFrom(info, es)
    && Entries(m, lv[0]) == es
  }

  lemma SeparatorSize(m: Pages, lv: Levels, info: Infos, es: seq<Entry>, c: PageId)
    requires Built(m, lv, info, es) && c in lv[|lv| - 1]
    ensures EncodedSize(MinOf(info, c)) <= MAX_KEY_BYTES
    ensures AllInts(es) ==> EncodedSize(MinOf(info, c)) == 9
    ensures AtLeastTen(es) ==> EncodedSize(MinOf(info, c)) >= 10
  {
    LevelKnown(m, lv, info, NO_PAGE, |lv|, |lv| - 1);
    assert c in info;
    var i :| 0 <= i < |es| && es[i].key == info[c].min;
  }

  lemma SeparatorOf(m: Pages, lv: Levels, info: Infos, es: seq<Entry>, c: PageId)
    requires Built(m, lv, info, es) && c in lv[|lv| - 1]
    ensures LevelsOk(m, lv, info, NO_PAGE, |lv| - 1)
    ensures TrueMin(m, info, c, TrueMinOf(m, info, c)) && TrueMinOf(m, info, c) == MinOf(info, c)
    ensures PageAt(m, c).Inner? ==> |lv| > 1 && PageAt(m, c).children[0] in lv[|lv| - 2]
  {
    NodeMin(m, lv, info, |lv| - 1, c);
  }

  const INTS_PER_INNER := 272

  lemma MoreKeys(keys: seq<Value>, v: Value, n: nat)
    ensures InnerBytes(keys + [v], n + 1) == InnerBytes(keys, n) + 6 + EncodedSize(v)
  {
    KeysSizeAppend(keys, [v]);
  }

  ghost function MinsOf(info: Infos, l: seq<PageId>): (mins: seq<Value>)
    ensures |mins| == |l| && forall i :: 0 <= i < |l| ==> mins[i] == MinOf(info, l[i])
  {
    seq(|l|, i requires 0 <= i < |l| => MinOf(info, l[i]))
  }

  lemma FanStarts(mins: seq<Value>)
    requires mins != []
    ensures Taken(mins, 1, 16) == Fan(mins)
  {
  }

  lemma TakenStep(mins: seq<Value>, n: nat, bytes: nat)
    requires 1 <= n < |mins|
    ensures var need := 2 + EncodedSize(mins[n]) + 8 + 4;
            Taken(mins, n, bytes)
            == if n > 1 && bytes + need > PAGE_SIZE then n else Taken(mins, n + 1, bytes + 6 + EncodedSize(mins[n]))
  {
  }

  lemma TakenAll(mins: seq<Value>, bytes: nat)
    requires mins != []
    ensures Taken(mins, |mins|, bytes) == |mins|
  {
  }

  /** The children of the next inner node: as many as surely fit, and at least
      two while there are two. */
  method Group(idx: DiskBspIndex, level: seq<PageId>, i: nat, ghost lv: Levels, ghost info: Infos, ghost es: seq<Entry>)
    returns (children: seq<PageId>, keys: seq<Value>)
    requires Built(idx.pages, lv, info, es) && level == lv[|lv| - 1] && i < |level|
    ensures children != [] && i + |children| <= |level| && children == level[i..i + |children|]
    ensures ExactKeys(info, keys, children) && !InnerOverflow(keys, children)
    ensures i + 1 < |level| ==> |children| > 1
    ensures AtLeastTen(es) ==> |keys| <= MAX_SEPARATORS
    ensures |children| == Fan(MinsOf(info, level)[i..])
    ensures AllInts(es) ==> |children| == if |level| - i < INTS_PER_INNER then |level| - i else INTS_PER_INNER
  {
    hide Fan, Taken, Built, AtLeastTen, AllInts, LevelsOk, EncodedSize, InnerBytes, TrueMin, TrueMinOf, MinOf;
    BuiltTop(idx.pages, lv, info, es);
    children, keys := [level[i]], [];
    var bytes := InnerBytes(keys, 1);
    OneChild();
    ghost var mins := MinsOf(info, level)[i..];
    FanStarts(mins);
    idx.AlikeItself();
    var j := i + 1;
    while j < |level|
      invariant i < j <= |level| && children == level[i..j] && bytes == InnerBytes(keys, |children|)
      invariant |keys| + 1 == |children| == j - i && Taken(mins, |children|, bytes) == Fan(mins)
      invariant forall x :: 0 <= x < |keys| ==> keys[x] == MinOf(info, children[x + 1])
      invariant bytes <= PAGE_SIZE && (keys == [] ==> bytes == 16)
      invariant AllInts(es) ==> bytes == 1 + 15 * |children| && |children| <= INTS_PER_INNER
      invariant AtLeastTen(es) ==> forall x :: 0 <= x < |keys| ==> EncodedSize(keys[x]) >= 10
    {
      SeparatorOf(idx.pages, lv, info, es, level[j]);
      SeparatorSize(idx.pages, lv, info, es, level[j]);
      var r := idx.SubtreeMin(level[j], idx.pages, lv, info, |lv| - 1);
      var need := 2 + EncodedSize(r.value) + 8 + 4;
      assert mins[|children|] == r.value;
      TakenStep(mins, |children|, bytes);
      if keys != [] && bytes + need > PAGE_SIZE {
        break;
      }
      MoreKeys(keys, r.value, |children|);
      keys, children := keys + [r.value], children + [level[j]];
      bytes := InnerBytes(keys, |children|);
      j := j + 1;
    }
    TakenAll(mins, bytes);
    // a second child always fits
    assert !(j == i + 1 && i + 1 < |level|);
    if AtLeastTen(es) {
      TenByteSeparatorsAreCounted(keys, children);
    }
  }

  lemma OneChild()
    ensures InnerBytes([], 1) == 16
  {
  }

  /** An inner node written over `level`. */
  ghost predicate GroupOk(info: Infos, level: seq<PageId>, p: Page) {
    && p.Inner? && ExactKeys(info, p.keys, p.children)
    && forall c :: c in p.children ==> c in level
  }

  /** The pages `next` have been written over the first i pages of the top level. */
  ghost predicate Half(m: Pages, lv: Levels, info: Infos, es: seq<Entry>, next: seq<PageId>, i: nat) {
    && Built(m, lv, info, es) && i <= |lv[|lv| - 1]| && |next| < |m|
    && next == Run(|m| - |next|, |next|) && (forall id :: id in info ==> id < |m| - |next|)
    && Kids(m, next) == lv[|lv| - 1][..i]
    && (forall id :: id in next ==> GroupOk(info, lv[|lv| - 1], PageAt(m, id)))
  }

  lemma HalfStart(m: Pages, lv: Levels, info: Infos, es: seq<Entry>)
    requires Built(m, lv, info, es)
    ensures Half(m, lv, info, es, [], 0)
  {
    assert Run(|m|, 0) == [];
  }

  lemma BuiltFrame(m: Pages, lv: Levels, info: Infos, es: seq<Entry>, p: Page)
    requires Built(m, lv, info, es)
    ensures Built(m + [p], lv, info, es)
  {
    hide Entries, MinsFrom, LevelOk, NodeOk;
    var m' := m + [p];
    assert forall id :: id in info ==> PageAt(m', id) == PageAt(m, id);
    LowerLevels(m, lv, info, NO_PAGE, |lv|, m');
    LevelKnown(m, lv, info, NO_PAGE, |lv|, 0);
    EntriesFrame(m, m', lv[0]);
  }

  lemma NodeAdded(m: Pages, lv: Levels, info: Infos, es: seq<Entry>, next: seq<PageId>, i: nat, keys: seq<Value>,
                  children: seq<PageId>)
    requires Half(m, lv, info, es, next, i) && i + |children| <= |lv[|lv| - 1]|
    requires children == lv[|lv| - 1][i..i + |children|] && ExactKeys(info, keys, children)
    ensures Half(m + [Inner(keys, children)], lv, info, es, next + [|m|], i + |children|)
  {
    hide Built, ExactKeys, MinsFrom, Run, NoDup, Kids, PageAt, GroupOk;
    BuiltTop(m, lv, info, es);
    var p, level := Inner(keys, children), lv[|lv| - 1];
    BuiltFrame(m, lv, info, es, p);
    RunSnoc(|m| - |next|, |next|);
    KidsSnoc(m, next, p);
    PagesKept(m, next, p);
    NewGroup(info, level, i, keys, children);
    assert level[..i] + children == level[..i + |children|];
  }

  lemma NewGroup(info: Infos, level: seq<PageId>, i: nat, keys: seq<Value>, children: seq<PageId>)
    requires i + |children| <= |level| && children == level[i..i + |children|] && ExactKeys(info, keys, children)
    ensures GroupOk(info, level, Inner(keys, children)) && ChildrenOf(Inner(keys, children)) == children
  {
  }

  lemma BuiltTop(m: Pages, lv: Levels, info: Infos, es: seq<Entry>)
    requires Built(m, lv, info, es)
    ensures |lv| > 0 && lv[|lv| - 1] != []
  {
  }

  ghost function NextInfo(m: Pages, info: Infos, k: nat, next: seq<PageId>): Infos {
    info + map id | id in next :: Info(k, TrueMinOf(m, info, id))
  }

  /** When the new level covers the old one it can be put on top. */
  lemma LevelDone(m: Pages, lv: Levels, info: Infos, es: seq<Entry>, next: seq<PageId>)
    requires |lv| > 0 && Half(m, lv, info, es, next, |lv[|lv| - 1]|) && next != []
    ensures Built(m, lv + [next], NextInfo(m, info, |lv|, next), es)
  {
    hide Entries, Kids, NodeOk, LevelOk, MinsFrom, NoDup, Chained, Run, GroupOk, ExactKeys;
    var info' := NextInfo(m, info, |lv|, next);
    var level := lv[|lv| - 1];
    forall id | id in info
      ensures id in info' && info'[id] == info[id]
    {
    }
    LiftLevels(m, lv, info, m, lv + [next], info');
    forall id | id in next
      ensures NodeOk(m, info', NO_PAGE, |lv|, id)
    {
      NewNode(m, lv, info, es, next, id);
    }
    NextLevelOk(m, lv, info, es, next);
    NextMins(m, lv, info, es, next);
    assert level[..|level|] == level;
    assert forall j :: 0 <= j < |lv| + 1 ==> LevelOk(m, lv + [next], info', NO_PAGE, j);
  }

  lemma NextLevelOk(m: Pages, lv: Levels, info: Infos, es: seq<Entry>, next: seq<PageId>)
    requires |lv| > 0 && Half(m, lv, info, es, next, |lv[|lv| - 1]|)
    requires forall id :: id in next ==> NodeOk(m, NextInfo(m, info, |lv|, next), NO_PAGE, |lv|, id)
    ensures LevelOk(m, lv + [next], NextInfo(m, info, |lv|, next), NO_PAGE, |lv|)
  {
    hide Entries, Kids, NodeOk, MinsFrom, Chained, GroupOk, ExactKeys, Built;
    var level := lv[|lv| - 1];
    assert level[..|level|] == level;
  }

  lemma NewNode(m: Pages, lv: Levels, info: Infos, es: seq<Entry>, next: seq<PageId>, id: PageId)
    requires |lv| > 0 && Half(m, lv, info, es, next, |lv[|lv| - 1]|) && id in next
    ensures NodeOk(m, NextInfo(m, info, |lv|, next), NO_PAGE, |lv|, id)
  {
    hide Entries, Kids, NodeOk, MinsFrom, Chained, LevelOk;
    var info' := NextInfo(m, info, |lv|, next);
    var cs := PageAt(m, id).children;
    LevelKnown(m, lv, info, NO_PAGE, |lv|, |lv| - 1);
    forall i | 0 <= i < |cs|
      ensures MinOf(info', cs[i]) == MinOf(info, cs[i]) && EncodedSize(MinOf(info, cs[i])) <= MAX_KEY_BYTES
    {
      assert cs[i] in cs && Known(info, cs[i], |lv| - 1);
    }
    NewInner(m, info', |lv|, id);
  }

  lemma NewInner(m: Pages, info: Infos, k: nat, id: PageId)
    requires k > 0 && Known(info, id, k) && PageAt(m, id).Inner?
    requires ExactKeys(info, PageAt(m, id).keys, PageAt(m, id).children)
    requires info[id].min == MinOf(info, PageAt(m, id).children[0])
    ensures NodeOk(m, info, NO_PAGE, k, id)
  {
  }

  lemma NextMins(m: Pages, lv: Levels, info: Infos, es: seq<Entry>, next: seq<PageId>)
    requires |lv| > 0 && Half(m, lv, info, es, next, |lv[|lv| - 1]|)
    ensures InfoBounded(m, NextInfo(m, info, |lv|, next)) && MinsFrom(NextInfo(m, info, |lv|, next), es)
  {
    hide Entries, Kids, Chained, LevelOk;
    var info' := NextInfo(m, info, |lv|, next);
    LevelKnown(m, lv, info, NO_PAGE, |lv|, |lv| - 1);
    forall id | id in info'
      ensures exists i :: 0 <= i < |es| && es[i].key == info'[id].min
    {
      if id in next {
        var c := PageAt(m, id).children[0];
        assert c in PageAt(m, id).children && c in info;
        assert info'[id].min == info[c].min;
      }
    }
  }

  /** The nodes written over the first i of the level below have these least keys, and
      none of them has been cut. */
  ghost predicate Rising(m: Pages, info: Infos, mins: seq<Value>, next: seq<PageId>, heads: seq<Value>, i: nat) {
    && i <= |mins| && |heads| == |next|
    && (forall g :: 0 <= g < |next| ==> next[g] < |m| && TrueMinOf(m, info, next[g]) == heads[g])
    && heads + Heads(mins[i..]) == Heads(mins)
    && (Counted(mins[i..]) <==> Counted(mins))
  }

  lemma PairsGrow(m: Pages, p: Page)
    ensures TwoChildrenEach(m + [p]) <==> TwoChildrenEach(m) && (p.Inner? ==> |p.children| >= 2)
  {
    assert PageAt(m + [p], |m|) == p && PageAt(m, |m|) == Raw;
    assert forall id: PageId :: id != |m| ==> PageAt(m + [p], id) == PageAt(m, id);
  }

  lemma RisingStarts(m: Pages, info: Infos, level: seq<PageId>)
    ensures Rising(m, info, MinsOf(info, level), [], [], 0)
  {
    var mins := MinsOf(info, level);
    assert mins[0..] == mins;
    assert [] + Heads(mins) == Heads(mins);
  }

  lemma RisingGoesOn(m: Pages, info: Infos, level: seq<PageId>, next: seq<PageId>, heads: seq<Value>, i: nat,
                     keys: seq<Value>, children: seq<PageId>)
    requires Rising(m, info, MinsOf(info, level), next, heads, i) && i < |level| && i + |children| <= |level|
    requires children == level[i..i + |children|] && children != [] && |children| == Fan(MinsOf(info, level)[i..])
    ensures |children| <= MAX_SEPARATORS + 1 ==>
              Rising(m + [Inner(keys, children)], info, MinsOf(info, level), next + [|m|],
                     heads + [MinOf(info, children[0])], i + |children|)
    ensures |children| > MAX_SEPARATORS + 1 ==> !Counted(MinsOf(info, level))
    ensures Grouped(MinsOf(info, level)[i..]) <==> |children| >= 2 && Grouped(MinsOf(info, level)[i + |children|..])
  {
    hide Counted, Heads, Fan, Grouped;
    var mins, m' := MinsOf(info, level), m + [Inner(keys, children)];
    NextGroup(mins, i);
    var rest := Heads(mins[i + |children|..]);
    assert mins[i] == MinOf(info, children[0]);
    assert heads + ([mins[i]] + rest) == (heads + [mins[i]]) + rest;
    forall g | 0 <= g < |next|
      ensures TrueMinOf(m', info, next[g]) == heads[g]
    {
      assert PageAt(m', next[g]) == PageAt(m, next[g]);
    }
  }

  lemma RisingEnds(m: Pages, info: Infos, level: seq<PageId>, next: seq<PageId>, heads: seq<Value>, k: nat)
    requires Rising(m, info, MinsOf(info, level), next, heads, |level|)
    ensures Counted(MinsOf(info, level)) && MinsOf(NextInfo(m, info, k, next), next) == Heads(MinsOf(info, level))
  {
    hide TrueMinOf;
    EndOfGroups(MinsOf(info, level), |level|);
    assert heads + [] == heads;
    forall g | 0 <= g < |next|
      ensures MinOf(NextInfo(m, info, k, next), next[g]) == heads[g]
    {
      assert next[g] in next;
    }
  }

  /** The next node of the level: its page and the number of its children. */
  method AddNode(idx: DiskBspIndex, level: seq<PageId>, i: nat, ghost lv: Levels, ghost info: Infos, ghost es: seq<Entry>,
                 ghost next: seq<PageId>, ghost heads: seq<Value>)
    returns (w: Result<()>, inner: PageId, n: nat)
    requires Half(idx.pages, lv, info, es, next, i) && Rising(idx.pages, info, MinsOf(info, level), next, heads, i)
    requires idx.AllFit() && |lv| > 0 && level == lv[|lv| - 1] && i < |level|
    modifies idx`pages
    ensures idx.AllFit() && !w.Throw? && inner == |old(idx.pages)|
    ensures 0 < n && i + n <= |level| && (i + 1 < |level| ==> n > 1)
    ensures w.Ok? <==> n <= MAX_SEPARATORS + 1
    ensures w.Ok? ==>
              && Half(idx.pages, lv, info, es, next + [inner], i + n)
              && Rising(idx.pages, info, MinsOf(info, level), next + [inner], heads + [MinOf(info, level[i])], i + n)
    ensures w.Cut? ==> !AtLeastTen(es) && !Counted(MinsOf(info, level))
    ensures w.Ok? ==> (idx.Paired() <==> old(idx.Paired()) && n >= 2) && PageAt(idx.pages, 0) == old(PageAt(idx.pages, 0))
    ensures Grouped(MinsOf(info, level)[i..]) <==> n >= 2 && Grouped(MinsOf(info, level)[i + n..])
    ensures n == MAX_SEPARATORS + 2 ==> idx.pages == old(idx.pages) + [Inner([], [level[i]])]
    ensures AllInts(es) ==> n == if |level| - i < INTS_PER_INNER then |level| - i else INTS_PER_INNER
  {
    hide Counted, Heads, Fan, Rising, Built, AtLeastTen, AllInts, Half, DiskBspIndex.AllFit, InnerOverflow, MinsOf,
         TwoChildrenEach, Grouped;
    HalfBuilt(idx.pages, lv, info, es, next, i);
    var children, keys := Group(idx, level, i, lv, info, es);
    n := |children|;
    NodeAdded(idx.pages, lv, info, es, next, i, keys, children);
    RisingGoesOn(idx.pages, info, level, next, heads, i, keys, children);
    ghost var m := idx.pages;
    inner := idx.AllocatePage();
    w := idx.WritePage(inner, Inner(keys, children));
    assert idx.pages == m + [if w.Ok? then Inner(keys, children) else Reread(Inner(keys, children))];
    PairsGrow(m, Inner(keys, children));
  }

  /** One pass over the top level. Every pass at least halves it. A node with more
      separators than the count byte holds is cut, exactly when the sizes of the least
      keys make one that large; the pass ends there, with `top` the cut node when it is
      the only one of its level. */
  method BuildLevel(idx: DiskBspIndex, level: seq<PageId>, ghost lv: Levels, ghost info: Infos, ghost es: seq<Entry>)
    returns (r: Result<seq<PageId>>, top: Option<PageId>)
    requires Built(idx.pages, lv, info, es) && level == lv[|lv| - 1] && |level| > 1 && idx.AllFit()
    modifies idx`pages
    ensures idx.AllFit() && |lv| > 0 && !r.Throw?
    ensures r.Ok? ==> 2 * |r.value| <= |level| + 1
    ensures r.Ok? ==> Built(idx.pages, lv + [r.value], NextInfo(idx.pages, info, |lv|, r.value), es)
    ensures r.Ok? <==> Counted(MinsOf(info, level))
    ensures r.Ok? ==> (idx.Paired() <==> old(idx.Paired()) && Grouped(MinsOf(info, level)))
    ensures r.Ok? ==>
              (AllInts(es) && old(idx.Paired()) ==> idx.Paired()) && PageAt(idx.pages, 0) == old(PageAt(idx.pages, 0))
    ensures r.Ok? ==> MinsOf(NextInfo(idx.pages, info, |lv|, r.value), r.value) == Heads(MinsOf(info, level))
    ensures r.Cut? ==> !AtLeastTen(es)
    ensures AllInts(es) ==> (r.Ok? <==> |level| <= MAX_SEPARATORS + 1) && (r.Ok? ==> |r.value| == 1)
    ensures AllInts(es) && |level| == MAX_SEPARATORS + 2 ==>
              && top == Some(old(|idx.pages|))
              && idx.pages == old(idx.pages) + [Inner([], [level[0]])]
  {
    hide Counted, Heads, Rising, Built, AtLeastTen, AllInts, Half, DiskBspIndex.AllFit, NextInfo, MinsOf, Grouped,
         DiskBspIndex.Paired;
    var next := [];
    var i := 0;
    top := None;
    ghost var heads: seq<Value> := [];
    RisingStarts(idx.pages, info, level);
    assert MinsOf(info, level)[0..] == MinsOf(info, level);
    EndOfGroups(MinsOf(info, level), |level|);
    HalfStart(idx.pages, lv, info, es);
    BuiltTop(idx.pages, lv, info, es);
    while i < |level|
      invariant i <= |level| && Half(idx.pages, lv, info, es, next, i) && idx.AllFit()
      invariant 2 * |next| <= if i < |level| then i else i + 1
      invariant i > 0 ==> next != []
      invariant Rising(idx.pages, info, MinsOf(info, level), next, heads, i)
      invariant (idx.Paired() && Grouped(MinsOf(info, level)[i..])) <==> (old(idx.Paired()) && Grouped(MinsOf(info, level)))
      invariant i == 0 ==> idx.pages == old(idx.pages)
      invariant (AllInts(es) && old(idx.Paired()) ==> idx.Paired()) && PageAt(idx.pages, 0) == old(PageAt(idx.pages, 0))
      invariant AllInts(es) ==> |next| == if i == 0 then 0 else 1
      invariant AllInts(es) ==> i == 0 || (i == |level| && |level| <= MAX_SEPARATORS + 1)
      decreases |level| - i
    {
      var w, inner, n := AddNode(idx, level, i, lv, info, es, next, heads);
      if w.Cut? {
        return Cut, if n == |level| then Some(inner) else None;
      }
      next := next + [inner];
      heads := heads + [MinOf(info, level[i])];
      i := i + n;
    }
    RisingEnds(idx.pages, info, level, next, heads, |lv|);
    LevelDone(idx.pages, lv, info, es, next);
    return Ok(next), None;
  }

  lemma HalfBuilt(m: Pages, lv: Levels, info: Infos, es: seq<Entry>, next: seq<PageId>, i: nat)
    requires Half(m, lv, info, es, next, i)
    ensures Built(m, lv, info, es) && 0 < |m|
  {
  }

  /** `bulk_build`. Input that is not strictly increasing, or has a NULL or
      oversized key, is refused; nothing else is. The result holds exactly the input
      unless an inner node got more separators than the count byte holds, which the
      sizes of the keys decide: that cannot happen when keys take ten bytes or more, and for integers it happens exactly
      when there are more than 256 full leaves. With 257 the root is cut down to its
      first child, and the call returns all the same. */
  method BulkBuild(idx: DiskBspIndex, es: seq<Entry>) returns (r: Result<()>)
    requires es != [] ==> es[0].key.Matches(idx.kind)
    modifies idx
    ensures r == Throw(BadKey) <==> !(InOrder(idx.kind, es) && SmallKeys(es))
    ensures r == Throw(BadKey) ==> unchanged(idx)
    ensures r.Ok? ==> idx.Valid() && idx.Items() == es
    ensures r.Throw? ==> r.fault == BadKey
    ensures InOrder(idx.kind, es) && SmallKeys(es) ==> (r.Ok? <==> NoneCut(LeafHeads(es)))
    ensures r.Ok? ==> (idx.Paired() <==> NoneAlone(LeafHeads(es))) && (AllInts(es) ==> idx.Paired())
    ensures r.Cut? ==> !AtLeastTen(es)
    ensures AllInts(es) && InOrder(idx.kind, es) ==> (r.Ok? <==> |es| <= MOST_INTS)
    ensures AllInts(es) && InOrder(idx.kind, es) && MOST_INTS < |es| <= MOST_INTS + INTS_PER_LEAF ==>
              r.Cut? && idx.RootIsCut(idx.first) && idx.count == |es|
    ensures AllInts(es) && es != [] && r.Ok? ==>
              && 1 <= |idx.levels| <= 2
              && INTS_PER_LEAF * (|idx.levels[0]| - 1) < |es| <= INTS_PER_LEAF * |idx.levels[0]|
  {
    hide NoneCut, Counted, Heads, LeafHeads, HeadsWritten, MinsOf, LeavesWritten, Linked, Run, Built, NextInfo,
         LeafInfo, LevelsOk, MinsFrom, Entries, Contents, InOrder, SmallKeys, AtLeastTen, AllInts,
         DiskBspIndex.Valid, DiskBspIndex.AllFit, DiskBspIndex.Tree, Fits, DiskBspIndex.Items,
         DiskBspIndex.RootIsCut, TwoChildrenEach, NoneAlone, Grouped;
    IntsAreSmall(es);
    var ok := CheckInput(es);
    OneType(es, idx.kind);
    if !ok {
      return Throw(BadKey);
    }
    if es == [] {
      idx.CreateEmpty();
      NothingCut([]);
      return Ok(());
    }
    idx.pages := [Raw];
    idx.count := |es|;
    var leaves := BuildLeaves(idx, es);
    ghost var m0 := idx.pages;
    LinkLeaves(idx, leaves, es);
    LinkedHeads(m0, idx.pages, leaves, LeafHeads(es), es);
    idx.first := leaves[0];
    BottomBuilt(idx, m0, |leaves|, es);
    var top, lv, info :- BuildAbove(idx, leaves, es);
    idx.root := top;
    idx.levels, idx.info := lv, info;
    BuiltIsValid(idx, es);
    ghost var m := idx.pages;
    idx.WriteSuperblock();
    idx.Completed(m);
    SuperblockPairs(m, idx.pages);
    return Ok(());
  }

  lemma SuperblockPairs(m: Pages, m': Pages)
    requires 0 < |m| == |m'| && m' == m[0 := m'[0]] && !m[0].Inner? && !m'[0].Inner?
    ensures TwoChildrenEach(m') <==> TwoChildrenEach(m)
  {
    assert forall id: PageId :: id != 0 ==> PageAt(m', id) == PageAt(m, id);
  }

  /** The loop over the levels above the leaves. When its only node has been cut, the
      last level still gets a superblock. */
  method BuildAbove(idx: DiskBspIndex, leaves: seq<PageId>, ghost es: seq<Entry>)
    returns (r: Result<PageId>, ghost lv: Levels, ghost info: Infos)
    requires Built(idx.pages, [leaves], LeafInfo(idx.pages, |leaves|), es) && leaves != [] && idx.first == leaves[0]
    requires idx.AllFit() && idx.Paired() && idx.count == |es| && 0 < |idx.pages| && idx.pages[0] == Raw
    requires MinsOf(LeafInfo(idx.pages, |leaves|), leaves) == LeafHeads(es)
    requires AllInts(es) && es != [] ==> idx.kind == IntType
    requires AllInts(es) ==> INTS_PER_LEAF * (|leaves| - 1) < |es|
    modifies idx`pages, idx`root
    ensures !r.Throw? && idx.AllFit() && 0 < |idx.pages|
    ensures r.Ok? <==> NoneCut(LeafHeads(es))
    ensures r.Ok? ==> Built(idx.pages, lv, info, es) && |lv| > 0 && lv[|lv| - 1] == [r.value] && lv[0] == leaves
    ensures r.Ok? ==> (idx.Paired() <==> NoneAlone(LeafHeads(es))) && (AllInts(es) ==> idx.Paired()) && idx.pages[0] == Raw
    ensures r.Cut? ==> !AtLeastTen(es)
    ensures AllInts(es) ==> (r.Ok? <==> |leaves| <= MAX_SEPARATORS + 1) && (r.Ok? ==> |lv| <= 2)
    ensures AllInts(es) && |leaves| == MAX_SEPARATORS + 2 ==> idx.RootIsCut(idx.first)
  {
    hide NoneCut, Counted, Heads, LeafHeads, MinsOf, Run, Built, NextInfo, LeafInfo, LevelsOk, AtLeastTen, AllInts,
         DiskBspIndex.AllFit, DiskBspIndex.RootIsCut, DiskBspIndex.Paired, NoneAlone, Grouped;
    var level := leaves;
    lv, info := [leaves], LeafInfo(idx.pages, |leaves|);
    BuiltTop(idx.pages, lv, info, es);
    while |level| > 1
      invariant idx.AllFit() && Built(idx.pages, lv, info, es) && |lv| > 0 && level == lv[|lv| - 1]
      invariant NoneCut(MinsOf(info, level)) <==> NoneCut(LeafHeads(es))
      invariant idx.Paired() && NoneAlone(MinsOf(info, level)) <==> NoneAlone(LeafHeads(es))
      invariant level != [] && lv[0] == leaves && PageAt(idx.pages, 0) == Raw && 0 < |idx.pages|
      invariant AllInts(es) ==> idx.Paired() && if |lv| == 1 then level == leaves else |lv| == 2 && |level| == 1
      invariant AllInts(es) && |level| == 1 ==> |leaves| <= MAX_SEPARATORS + 1
      decreases |level|
    {
      ghost var was, m := info, idx.pages;
      OneLevelCut(MinsOf(info, level), |level|);
      var next, top := BuildLevel(idx, level, lv, info, es);
      if !next.Ok? {
        idx.PagesLeft();
        if top.Some? {
          idx.root := top.value;
          ghost var cut := idx.pages;
          idx.WriteSuperblock();
          if AllInts(es) && |leaves| == MAX_SEPARATORS + 2 {
            assert lv == [leaves];
            CutRootBuilt(idx, m, cut, leaves, info, es);
          }
        }
        return Cut, lv, info;
      }
      lv, info := lv + [next.value], NextInfo(idx.pages, was, |lv|, next.value);
      BuiltTop(idx.pages, lv, info, es);
      idx.PagesLeft();
      level := next.value;
    }
    OneNode(info, level);
    return Ok(level[0]), lv, info;
  }

  lemma NothingCut(mins: seq<Value>)
    requires |mins| <= 1
    ensures NoneCut(mins) && NoneAlone(mins) && LeafHeads([]) == []
  {
  }

  lemma OneNode(info: Infos, level: seq<PageId>)
    requires |level| == 1
    ensures NoneCut(MinsOf(info, level)) && NoneAlone(MinsOf(info, level))
  {
    NothingCut(MinsOf(info, level));
  }

  lemma OneLevelCut(mins: seq<Value>, n: nat)
    requires n > 1
    ensures |mins| == n ==> (NoneCut(mins) <==> Counted(mins) && NoneCut(Heads(mins)))
    ensures |mins| == n ==> (NoneAlone(mins) <==> Grouped(mins) && NoneAlone(Heads(mins)))
  {
  }

  /** Linking the leaves changes no key. */
  lemma LinkedHeads(m0: Pages, m: Pages, leaves: seq<PageId>, heads: seq<Value>, es: seq<Entry>)
    requires HeadsWritten(m0, leaves, heads) && leaves == Run(1, |leaves|) && leaves != []
    requires Linked(m0, m, |leaves|, |leaves| - 1) && LeavesWritten(m0, |leaves|, es)
    ensures MinsOf(LeafInfo(m, |leaves|), leaves) == heads
  {
    hide Entries, Fits, NoDup, LeafOverflow;
    forall g | 0 <= g < |leaves|
      ensures MinOf(LeafInfo(m, |leaves|), leaves[g]) == heads[g]
    {
      assert leaves[g] in leaves;
    }
  }

  lemma OneType(es: seq<Entry>, t: DataType)
    requires es != [] ==> es[0].key.Matches(t)
    ensures InOrder(t, es) <==> exists u :: InOrder(u, es)
    ensures es != [] && AllInts(es) && InOrder(t, es) ==> t == IntType
  {
    if u :| InOrder(u, es) {
      assert es != [] ==> es[0].key.IsKey(u) && u == t;
    }
  }

  /** 257 leaves below one root. */
  lemma CutRootBuilt(idx: DiskBspIndex, m: Pages, cut: Pages, leaves: seq<PageId>, info: Infos, es: seq<Entry>)
    requires Built(m, [leaves], info, es) && |leaves| > 0 && idx.kind == IntType && |es| == idx.count > INTS_PER_LEAF
    requires cut == m + [Inner([], [leaves[0]])] && idx.root == |m| && idx.AllFit()
    requires idx.pages == cut[0 := Super(idx.root, idx.first, idx.count)]
    ensures idx.RootIsCut(leaves[0])
  {
    hide NoDup, Chained, Entries, DiskBspIndex.AllFit;
    LevelKnown(m, [leaves], info, NO_PAGE, 1, 0);
    assert leaves[0] in leaves;
  }

  lemma IntsAreSmall(es: seq<Entry>)
    ensures AllInts(es) ==> SmallKeys(es)
  {
  }

  lemma BottomBuilt(idx: DiskBspIndex, m0: Pages, n: nat, es: seq<Entry>)
    requires n > 0 && LeavesWritten(m0, n, es) && Linked(m0, idx.pages, n, n - 1) && m0[0] == Raw
    ensures idx.AllFit() && Built(idx.pages, [Run(1, n)], LeafInfo(idx.pages, n), es) && idx.Paired()
    ensures idx.pages[0] == Raw
  {
    LinkedLeaves(m0, idx.pages, n, es);
    forall id: PageId | id < |idx.pages|
      ensures !PageAt(idx.pages, id).Inner?
    {
      assert id > 0 ==> id in Run(1, n);
    }
  }

  lemma BuiltIsValid(idx: DiskBspIndex, es: seq<Entry>)
    requires Built(idx.pages, idx.levels, idx.info, es) && InOrder(idx.kind, es)
    requires |idx.levels[|idx.levels| - 1]| == 1 && idx.root == idx.levels[|idx.levels| - 1][0]
    requires idx.levels[0] != [] && idx.first == idx.levels[0][0]
    ensures 0 < |idx.pages| && idx.Tree(idx.pages, NO_PAGE) && Flat(idx.pages, idx.levels) == es
  {
  }
}
