/** Whole runs of an index: any sequence of insertions and erasures keeps the
    invariant and acts on the contents as on a plain map. */
module Runs {
  import opened Outcomes
  import opened Values
  import opened Nodes
  import opened Ordered
  import opened Shape
  import opened Index
  import opened Capacity
  import Reference
  import Lookup

  datatype Op = Put(key: Value, rid: nat) | Remove(key: Value)

  /** What one call does to the map: an insertion of a NULL, oversized or present
      key is rejected and does nothing. */
  function Applied(m: map<Value, nat>, op: Op): map<Value, nat> {
    match op
    case Put(key, rid) => if key.Null? || EncodedSize(key) > MAX_KEY_BYTES || key in m then m else m[key := rid]
    case Remove(key) => m - {key}
  }

  function Replayed(m: map<Value, nat>, ops: seq<Op>): map<Value, nat> {
    if ops == [] then m else Applied(Replayed(m, ops[..|ops| - 1]), ops[|ops| - 1])
  }

  predicate Fitting(op: Op, t: DataType) {
    match op
    case Put(key, _) => key.Matches(t)
    case Remove(key) => key.IsKey(t)
  }

  /** At no point of the run are there more than 18175 keys. */
  ghost predicate NeverFull(m: map<Value, nat>, ops: seq<Op>) {
    forall n :: 0 <= n <= |ops| ==> |Replayed(m, ops[..n])| <= MAX_INTS
  }

  /** Performs one operation, carrying on after a rejected insertion. On an index of
      integers that has only ever been grown this way nothing fails: either the operation
      acts as on a map, or it met `Stuck` or `Jammed` and has cut the root, which takes
      more than 18175 keys. */
  method Perform(idx: DiskBspIndex, op: Op) returns (r: Result<()>)
    requires idx.Valid() && Fitting(op, idx.kind)
    modifies idx
    ensures r.Ok? ==> idx.Valid() && Contents(idx.Items()) == Applied(old(Contents(idx.Items())), op)
    ensures r.Ok? && old(|idx.levels|) <= 2 ==> |idx.levels| <= 2
    ensures r.Ok? && old(idx.Paired()) ==> idx.Paired()
    ensures idx.kind == IntType && old(idx.Paired()) ==> !r.Throw?
    ensures old(idx.Calm()) && r.Ok? ==> idx.Calm()
    ensures old(idx.Calm()) && !r.Ok? ==> r.Cut? && !idx.Valid() && exists c :: idx.RootIsCut(c)
    ensures old(idx.Calm() && |Contents(idx.Items())| <= MAX_INTS) ==> r.Ok?
  {
    hide DiskBspIndex.Valid, DiskBspIndex.AllFit, DiskBspIndex.Items, DiskBspIndex.Calm, DiskBspIndex.Low,
         DiskBspIndex.Stuck, DiskBspIndex.Jammed, DiskBspIndex.Marooned, DiskBspIndex.Target, DiskBspIndex.Healable,
         DiskBspIndex.RootIsCut, DiskBspIndex.RoomInEveryLeaf, DiskBspIndex.Paired, Contents, EncodedSize;
    Lookup.CountIsSize(idx);
    if idx.Calm() {
      CalmAndLow(idx);
    }
    match op
    case Put(key, rid) =>
      r := idx.Insert(key, rid);
      if r == Throw(BadKey) {
        return Ok(());
      }
    case Remove(key) =>
      var done := idx.Erase(key);
      return if done.Ok? || done == Throw(BadKey) then Ok(()) else done.PropagateFailure();
  }

  lemma CalmAndLow(idx: DiskBspIndex)
    requires idx.Valid() && idx.Calm()
    ensures idx.Low() && idx.kind == IntType
    ensures forall key: Value :: !idx.Marooned(key)
  {
    hide DiskBspIndex.Tree, DiskBspIndex.Target, ComfortableBut;
    if idx.count > 0 {
      idx.CalmIsLow();
    }
    forall key: Value
      ensures !idx.Marooned(key)
    {
      if idx.count > 0 {
        idx.CalmIsNotMarooned(key);
      }
    }
  }

  /** Performs the operations one after the other, up to the first that fails or cuts
      a node. In an index of integers, of any height, in which every inner node has two
      children, nothing ever fails. */
  method Replay(idx: DiskBspIndex, ops: seq<Op>) returns (r: Result<()>)
    requires idx.Valid() && forall op :: op in ops ==> Fitting(op, idx.kind)
    modifies idx
    ensures r.Ok? ==> idx.Valid() && Contents(idx.Items()) == Replayed(old(Contents(idx.Items())), ops)
    ensures r.Ok? && old(|idx.levels|) <= 2 ==> |idx.levels| <= 2
    ensures r.Ok? && old(idx.Paired()) ==> idx.Paired()
    ensures idx.kind == IntType && old(idx.Paired()) ==> !r.Throw?
    ensures old(idx.Calm()) && r.Ok? ==> idx.Calm()
    ensures old(idx.Calm()) && !r.Ok? ==> r.Cut? && !idx.Valid() && exists c :: idx.RootIsCut(c)
    ensures old(idx.Calm()) && NeverFull(old(Contents(idx.Items())), ops) ==> r.Ok?
  {
    hide DiskBspIndex.Valid, DiskBspIndex.Items, DiskBspIndex.Calm, DiskBspIndex.RootIsCut, DiskBspIndex.Paired,
         Contents, Applied, Fitting;
    ghost var before, calm := Contents(idx.Items()), idx.Calm();
    for n := 0 to |ops|
      invariant idx.Valid() && Contents(idx.Items()) == Replayed(before, ops[..n])
      invariant (calm ==> idx.Calm()) && (old(idx.Paired()) ==> idx.Paired())
      invariant old(|idx.levels|) <= 2 ==> |idx.levels| <= 2
    {
      assert ops[..n + 1][..n] == ops[..n];
      assert Fitting(ops[n], idx.kind);
      var _ :- Perform(idx, ops[n]);
    }
    assert ops[..|ops|] == ops;
    return Ok(());
  }

  /** A whole life of an index: created empty, put through any run in which nothing
      fails and no node is cut, it is still a B+-tree of its entries (unless it is empty), its leaf
      chain lists those entries in key order, and they are the map the run
      describes. It is never more than one level of inner nodes high: a full inner
      root cannot be split. */
  method Life(ops: seq<Op>, ghost t: DataType) returns (r: Result<DiskBspIndex>)
    requires forall op :: op in ops ==> Fitting(op, t)
    ensures r.Ok? ==> Survived(r.value, Replayed(map[], ops))
    ensures t == IntType ==> !r.Throw? && (NeverFull(map[], ops) ==> r.Ok?)
  {
    hide DiskBspIndex.Valid, DiskBspIndex.Items, DiskBspIndex.Calm, DiskBspIndex.Paired, InOrder, Entries,
         Reference.IsBTree, Reference.Below, Reference.Walk, Reference.InOrderEntries, Replayed, NeverFull;
    var idx := new DiskBspIndex(t);
    idx.CreateEmpty();
    assert Contents([]) == map[];
    var _ :- Replay(idx, ops);
    Lookup.ItemsOrdered(idx);
    Lookup.FirstLeaf(idx);
    if idx.count > 0 {
      Reference.ValidIsBTree(idx);
      Reference.TraversalIsItems(idx);
      ghost var n := |Reference.Below(idx.pages, [idx.root], |idx.levels| - 1)| + 1;
      Reference.ChainIsLeaves(idx, n);
    }
    return Ok(idx);
  }

  ghost predicate Survived(idx: DiskBspIndex, m: map<Value, nat>)
    reads idx
  {
    && Contents(idx.Items()) == m
    && InOrder(idx.kind, idx.Items()) && |idx.Items()| == idx.count
    && 1 <= |idx.levels| <= 2
    && (idx.count > 0 ==>
          && Reference.IsBTree(idx.pages, idx.root, |idx.levels| - 1)
          && Reference.InOrderEntries(idx.pages, idx.root, |idx.levels| - 1) == idx.Items()
          && exists n ::
               && Reference.Walk(idx.pages, idx.first, n) == Reference.Below(idx.pages, [idx.root], |idx.levels| - 1)
               && Entries(idx.pages, Reference.Walk(idx.pages, idx.first, n)) == idx.Items())
  }
}
