/** Whole runs of the pager: every interleaving of its calls answers as a flat
    array of pages would, and the recency list is the move-to-front order of the
    access trace cut at the capacity. */
module PagerRuns {
  import opened Values
  import opened Nodes
  import opened PageCache

  datatype Call =
    | Allocate
    | Read(id: nat)
    | Write(id: nat, data: seq<byte>)
    | Resize(capacity: nat)
    | FlushAll
    | Reopen

  datatype Answer = NewPage(id: nat) | Data(data: PageBytes) | Done | Failed

  // ---- the flat array ----

  ghost function NextContent(c: seq<PageBytes>, call: Call): seq<PageBytes> {
    match call
    case Allocate => c + [ZeroPage()]
    case Write(id, data) => if |data| == PAGE_SIZE then Store(c, id, data) else c
    case _ => c
  }

  ghost function AnswerOf(c: seq<PageBytes>, call: Call): Answer {
    match call
    case Allocate => NewPage(|c|)
    case Read(id) => if id < |c| then Data(c[id]) else Failed
    case Write(_, data) => if |data| == PAGE_SIZE then Done else Failed
    case _ => Done
  }

  ghost function ContentAfter(c: seq<PageBytes>, calls: seq<Call>): seq<PageBytes> {
    if calls == [] then c else NextContent(ContentAfter(c, calls[..|calls| - 1]), calls[|calls| - 1])
  }

  ghost function Answers(c: seq<PageBytes>, calls: seq<Call>): seq<Answer> {
    seq(|calls|, n requires 0 <= n < |calls| => AnswerOf(ContentAfter(c, calls[..n]), calls[n]))
  }

  /** Pages are first written in order: no write skips a page. */
  ghost predicate InPageOrder(c: seq<PageBytes>, calls: seq<Call>) {
    forall n :: 0 <= n < |calls| && calls[n].Write? ==> calls[n].id <= |ContentAfter(c, calls[..n])|
  }

  // ---- recency ----

  datatype Recency = Recency(lru: seq<nat>, capacity: nat)

  ghost function NextRecency(c: seq<PageBytes>, r: Recency, call: Call): Recency {
    match call
    case Allocate => r.(lru := Touch(r.lru, |c|, r.capacity))
    case Read(id) => if id < |c| then r.(lru := Touch(r.lru, id, r.capacity)) else r
    case Write(id, data) => if |data| == PAGE_SIZE then r.(lru := Touch(r.lru, id, r.capacity)) else r
    case Resize(n) => Recency(Take(r.lru, n), n)
    case FlushAll => r
    case Reopen => r.(lru := [])
  }

  ghost function RecencyAfter(c: seq<PageBytes>, r: Recency, calls: seq<Call>): Recency {
    if calls == [] then r
    else
      var n := |calls| - 1;
      NextRecency(ContentAfter(c, calls[..n]), RecencyAfter(c, r, calls[..n]), calls[n])
  }

  // ---- the pager against the flat array ----

  method Serve(p: Pager, call: Call) returns (a: Answer)
    requires p.Valid() && p.Dense() && (call.Write? ==> call.id <= p.pageCount)
    modifies p
    ensures p.Valid() && p.Dense()
    ensures a == AnswerOf(old(p.Content()), call) && p.Content() == NextContent(old(p.Content()), call)
    ensures Recency(p.lru, p.capacity) == NextRecency(old(p.Content()), Recency(old(p.lru), old(p.capacity)), call)
  {
    hide Pager.Valid, Pager.Dense, Store, Touch, Take;
    match call
    case Allocate =>
      var id := p.AllocatePage();
      a := NewPage(id);
    case Read(id) =>
      var r := p.ReadPage(id);
      a := if r.Ok? then Data(r.value) else Failed;
    case Write(id, data) =>
      var r := p.WritePage(id, data);
      a := if r.Ok? then Done else Failed;
    case Resize(n) =>
      p.SetCacheCapacity(n);
      a := Done;
    case FlushAll =>
      FlushKeepsPlaces(p);
      p.Flush();
      a := Done;
    case Reopen =>
      FlushKeepsPlaces(p);
      var disk := p.Close();
      p.Open(disk, false);
      a := Done;
  }

  lemma FlushKeepsPlaces(p: Pager)
    requires p.Valid()
    ensures p.isOpen
  {
  }

  /** A pager of any capacity, under any interleaving of its calls, answers like a
      flat array of pages. */
  method ServeAll(p: Pager, calls: seq<Call>) returns (answers: seq<Answer>)
    requires p.Valid() && p.Dense() && InPageOrder(p.Content(), calls)
    modifies p
    ensures p.Valid() && p.Dense()
    ensures answers == Answers(old(p.Content()), calls) && p.Content() == ContentAfter(old(p.Content()), calls)
    ensures Recency(p.lru, p.capacity) == RecencyAfter(old(p.Content()), Recency(old(p.lru), old(p.capacity)), calls)
  {
    hide Pager.Valid, Pager.Dense, Pager.Content, NextContent, AnswerOf, NextRecency, ContentAfter, RecencyAfter;
    ghost var c, r := p.Content(), Recency(p.lru, p.capacity);
    answers := [];
    OneMoreCall(c, r, calls, 0);
    for n := 0 to |calls|
      invariant p.Valid() && p.Dense() && |answers| == n
      invariant forall k :: 0 <= k < n ==> answers[k] == AnswerOf(ContentAfter(c, calls[..k]), calls[k])
      invariant p.Content() == ContentAfter(c, calls[..n])
      invariant Recency(p.lru, p.capacity) == RecencyAfter(c, r, calls[..n])
    {
      OneMoreCall(c, r, calls, n);
      ContentLength(p);
      var a := Serve(p, calls[n]);
      answers := answers + [a];
    }
    assert calls[..|calls|] == calls;
  }

  lemma OneMoreCall(c: seq<PageBytes>, r: Recency, calls: seq<Call>, n: nat)
    requires n <= |calls|
    ensures ContentAfter(c, calls[..0]) == c && RecencyAfter(c, r, calls[..0]) == r
    ensures n < |calls| ==>
              && ContentAfter(c, calls[..n + 1]) == NextContent(ContentAfter(c, calls[..n]), calls[n])
              && RecencyAfter(c, r, calls[..n + 1])
                 == NextRecency(ContentAfter(c, calls[..n]), RecencyAfter(c, r, calls[..n]), calls[n])
  {
    if n < |calls| {
      assert calls[..n + 1][..n] == calls[..n];
    }
  }

  lemma ContentLength(p: Pager)
    ensures |p.Content()| == p.pageCount
  {
  }

  // ---- move to front and stack inclusion ----

  /** The move-to-front order of a trace of page accesses. */
  ghost function MoveToFront(trace: seq<nat>): seq<nat> {
    if trace == [] then []
    else [trace[|trace| - 1]] + Without(MoveToFront(trace[..|trace| - 1]), trace[|trace| - 1])
  }

  ghost predicate OnlyAccesses(calls: seq<Call>) {
    forall n :: 0 <= n < |calls| ==> calls[n].Allocate? || calls[n].Read? || calls[n].Write?
  }

  /** The pages accessed by the calls that succeed. */
  ghost function Trace(c: seq<PageBytes>, calls: seq<Call>): seq<nat> {
    if calls == [] then []
    else
      var n := |calls| - 1;
      Trace(c, calls[..n]) + Accessed(ContentAfter(c, calls[..n]), calls[n])
  }

  ghost function Accessed(c: seq<PageBytes>, call: Call): seq<nat> {
    match call
    case Allocate => [|c|]
    case Read(id) => if id < |c| then [id] else []
    case Write(id, data) => if |data| == PAGE_SIZE then [id] else []
    case _ => []
  }

  /** The recency list is the move-to-front order of the whole trace, cut at the
      capacity: evicted pages leave no trace in it. */
  lemma {:induction false} RecencyIsMoveToFront(c: seq<PageBytes>, capacity: nat, calls: seq<Call>)
    requires OnlyAccesses(calls)
    ensures RecencyAfter(c, Recency([], capacity), calls)
            == Recency(Take(MoveToFront(Trace(c, calls)), capacity), capacity)
  {
    hide ContentAfter, Without, Take, Touch, MoveToFront, Distinct;
    if calls == [] {
      NothingAccessed(capacity);
    } else {
      var n := |calls| - 1;
      RecencyIsMoveToFront(c, capacity, calls[..n]);
      AccessMovesToFront(ContentAfter(c, calls[..n]), Trace(c, calls[..n]), calls[n], capacity);
    }
  }

  lemma NothingAccessed(capacity: nat)
    ensures Take(MoveToFront([]), capacity) == []
  {
  }

  lemma AccessMovesToFront(c: seq<PageBytes>, trace: seq<nat>, call: Call, capacity: nat)
    requires call.Allocate? || call.Read? || call.Write?
    ensures NextRecency(c, Recency(Take(MoveToFront(trace), capacity), capacity), call)
            == Recency(Take(MoveToFront(trace + Accessed(c, call)), capacity), capacity)
  {
    hide Without, Take, Touch, Distinct;
    var x := Accessed(c, call);
    if x == [] {
      assert trace + x == trace;
    } else {
      assert (trace + x)[..|trace|] == trace && (trace + x)[|trace|] == x[0];
      MoveToFrontMembers(trace);
      TouchTaken(MoveToFront(trace), x[0], capacity);
    }
  }

  lemma {:induction false} MoveToFrontMembers(trace: seq<nat>)
    ensures Distinct(MoveToFront(trace))
    ensures forall x :: x in MoveToFront(trace) <==> x in trace
  {
    if trace != [] {
      var before, x := trace[..|trace| - 1], trace[|trace| - 1];
      MoveToFrontMembers(before);
      var l := MoveToFront(before);
      WithoutDistinct(l, x);
      WithoutMembers(l, x);
      assert trace == before + [x];
      var kept := Without(l, x);
      assert forall y :: y in kept ==> y != x;
    }
  }

  /** Touching a list cut at the capacity gives the touched list cut at the
      capacity. */
  lemma TouchTaken(l: seq<nat>, x: nat, cap: nat)
    requires Distinct(l)
    ensures Touch(Take(l, cap), x, cap) == Take([x] + Without(l, x), cap)
  {
    hide Distinct, Without;
    if |l| > cap {
      var a, b := l[..cap], l[cap..];
      assert l == a + b;
      WithoutAppend(a, b, x);
      CutDistinct(l, x, cap);
      WithoutDistinct(a, x);
      if x in a {
        WithoutAbsent(b, x);
        assert Take([x] + Without(l, x), cap) == [x] + Without(a, x);
      } else {
        WithoutAbsent(a, x);
        assert Take([x] + Without(l, x), cap) == Take([x] + a, cap);
      }
    }
  }

  lemma CutDistinct(l: seq<nat>, x: nat, cap: nat)
    requires Distinct(l) && cap < |l|
    ensures Distinct(l[..cap])
    ensures x in l[..cap] ==> x !in l[cap..]
  {
    if x in l[..cap] {
      var i :| 0 <= i < cap && l[i] == x;
    }
  }

  ghost function PagesOf(trace: seq<nat>): set<nat> {
    set id | id in trace
  }

  /** LRU is a stack algorithm: with one page more of capacity, the same calls from
      a fresh open leave at least the same pages in the cache. The cache holds
      min(capacity, distinct pages) of them. */
  lemma StackInclusion(c: seq<PageBytes>, capacity: nat, calls: seq<Call>)
    requires OnlyAccesses(calls)
    ensures var small, large := RecencyAfter(c, Recency([], capacity), calls).lru,
                                RecencyAfter(c, Recency([], capacity + 1), calls).lru;
            && (forall id :: id in small ==> id in large)
            && small == Take(large, capacity)
    ensures var distinct := |PagesOf(Trace(c, calls))|;
            |RecencyAfter(c, Recency([], capacity), calls).lru| == if distinct < capacity then distinct else capacity
  {
    hide RecencyAfter, Trace, MoveToFront, Distinct;
    RecencyIsMoveToFront(c, capacity, calls);
    RecencyIsMoveToFront(c, capacity + 1, calls);
    MoveToFrontMembers(Trace(c, calls));
    DistinctSize(MoveToFront(Trace(c, calls)), PagesOf(Trace(c, calls)));
    TakeNested(MoveToFront(Trace(c, calls)), capacity);
  }

  lemma TakeNested(l: seq<nat>, n: nat)
    ensures Take(l, n) == Take(Take(l, n + 1), n)
    ensures forall x :: x in Take(l, n) ==> x in Take(l, n + 1)
  {
    assert Take(l, n) <= Take(l, n + 1);
  }
}
