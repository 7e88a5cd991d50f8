/** Running DELETE, UPDATE and SELECT (executor.cpp): what a statement does is
    defined by the rows its WHERE accepts, whatever plan found them. */
module Statements {
  import opened Outcomes
  import opened Values
  import opened Tables
  import opened Where
  import opened Planner
  import opened Updates
  import opened Capacity

  // ---- the rows a full scan would choose ----

  /** Looking at every row in order. */
  function Scan(order: seq<RecordId>, records: Records, cols: seq<Column>, where: Option<Expr>,
                like: Matcher): seq<RecordId> {
    if order == [] then []
    else
      (if order[0] in records && Accepts(where, cols, records[order[0]], like) then [order[0]] else [])
      + Scan(order[1..], records, cols, where, like)
  }

  lemma {:induction false} ScanMembers(order: seq<RecordId>, records: Records, cols: seq<Column>,
                                       where: Option<Expr>, like: Matcher)
    requires NoRepeats(order)
    ensures NoRepeats(Scan(order, records, cols, where, like))
    ensures forall id :: id in Scan(order, records, cols, where, like)
              <==> id in order && id in records && Accepts(where, cols, records[id], like)
  {
    hide Accepts;
    if order != [] {
      assert order == [order[0]] + order[1..];
      ScanMembers(order[1..], records, cols, where, like);
      var rest := Scan(order[1..], records, cols, where, like);
      assert forall i :: 0 <= i < |rest| ==> rest[i] in order[1..];
    }
  }

  lemma {:induction false} OnceEach(l: seq<RecordId>, x: RecordId)
    requires NoRepeats(l)
    ensures multiset(l)[x] == if x in l then 1 else 0
  {
    if l != [] {
      assert l == [l[0]] + l[1..];
      OnceEach(l[1..], x);
    }
  }

  lemma SameMembers(a: seq<RecordId>, b: seq<RecordId>)
    requires NoRepeats(a) && NoRepeats(b) && forall x :: x in a <==> x in b
    ensures multiset(a) == multiset(b)
  {
    forall x
      ensures multiset(a)[x] == multiset(b)[x]
    {
      OnceEach(a, x);
      OnceEach(b, x);
    }
  }

  /** Evaluating the condition on some row raises an error. */
  ghost predicate SomeRowFails(records: Records, cols: seq<Column>, where: Option<Expr>, like: Matcher) {
    where.Some? && exists id :: id in records && |records[id]| == |cols| && !EvalWhere(where.value, cols, records[id], like).Ok?
  }

  /** The same for some row of a list. */
  ghost predicate SomeOfThemFails(ids: seq<RecordId>, records: Records, cols: seq<Column>, where: Option<Expr>,
                                  like: Matcher) {
    where.Some? && exists id :: id in ids && id in records && |records[id]| == |cols| && !EvalWhere(where.value, cols, records[id], like).Ok?
  }

  lemma OneScanned(order: seq<RecordId>, records: Records, cols: seq<Column>, where: Option<Expr>, like: Matcher)
    requires order != []
    ensures Scan(order, records, cols, where, like)
            == (if order[0] in records && Accepts(where, cols, records[order[0]], like) then [order[0]] else [])
               + Scan(order[1..], records, cols, where, like)
  {
    hide Accepts;
  }

  lemma {:induction false} ScanMore(order: seq<RecordId>, id: RecordId, records: Records, cols: seq<Column>,
                                    where: Option<Expr>, like: Matcher)
    ensures Scan(order + [id], records, cols, where, like)
            == Scan(order, records, cols, where, like)
               + if id in records && Accepts(where, cols, records[id], like) then [id] else []
  {
    hide Accepts;
    if order == [] {
      assert [] + [id] == [id];
    } else {
      assert (order + [id])[1..] == order[1..] + [id] && (order + [id])[0] == order[0];
      ScanMore(order[1..], id, records, cols, where, like);
      OneScanned(order, records, cols, where, like);
      OneScanned(order + [id], records, cols, where, like);
    }
  }

  lemma {:induction false} ScanAscends(ids: seq<RecordId>, records: Records, c: nat, cols: seq<Column>,
                                       where: Option<Expr>, like: Matcher)
    requires Ascending(records, c, ids)
    ensures Ascending(records, c, Scan(ids, records, cols, where, like))
  {
    hide Accepts, Ascending, NoRepeats;
    if ids != [] {
      var rest := Scan(ids[1..], records, cols, where, like);
      assert ids == [ids[0]] + ids[1..];
      FirstAscends(records, c, ids[0], ids[1..]);
      ScanAscends(ids[1..], records, c, cols, where, like);
      AscendingDiffer(records, c, ids[1..]);
      ScanMembers(ids[1..], records, cols, where, like);
      FirstAscends(records, c, ids[0], rest);
      assert [] + rest == rest;
    } else {
      NothingAscends(records, c);
    }
  }

  /** A row in front of ascending ones ascends when it is below all of them. */
  lemma FirstAscends(records: Records, c: nat, id: RecordId, rest: seq<RecordId>)
    ensures Ascending(records, c, [id] + rest) <==>
              && Ascending(records, c, rest) && id in records && c < |records[id]|
              && forall b :: 0 <= b < |rest| ==> Less(records[id][c], records[rest[b]][c])
  {
    hide Less;
    var ids := [id] + rest;
    assert ids[0] == id && forall a :: 0 <= a < |rest| ==> ids[a + 1] == rest[a];
    if Ascending(records, c, ids) {
      forall b | 0 <= b < |rest|
        ensures rest[b] in records && c < |records[rest[b]]| && Less(records[id][c], records[rest[b]][c])
      {
        assert ids[b + 1] == rest[b];
      }
      forall a, b | 0 <= a < b < |rest|
        ensures Less(records[rest[a]][c], records[rest[b]][c])
      {
        assert ids[a + 1] == rest[a] && ids[b + 1] == rest[b];
      }
    }
  }

  lemma NothingAscends(records: Records, c: nat)
    ensures Ascending(records, c, [])
  {
  }

  /** The order in which the accepted rows come: that of the table when no clause of
      the condition bounds an indexed column, and otherwise ascending in the first
      column that one bounds, or one row at most if a clause is an equality. */
  ghost predicate InPlanOrder(h: Hint, records: Records, order: seq<RecordId>, cols: seq<Column>, where: Option<Expr>,
                              like: Matcher, ids: seq<RecordId>) {
    && IsHintFor(h, where, cols)
    && if !h.has then ids == Scan(order, records, cols, where, like)
       else if h.eq then |ids| <= 1
       else Ascending(records, h.column, ids)
  }

  lemma ScanInPlanOrder(h: Hint, records: Records, order: seq<RecordId>, cols: seq<Column>, where: Option<Expr>,
                        like: Matcher, candidates: seq<RecordId>)
    requires IsHintFor(h, where, cols) && InHintOrder(h, records, order, candidates) && NoRepeats(candidates)
    ensures InPlanOrder(h, records, order, cols, where, like, Scan(candidates, records, cols, where, like))
  {
    hide IsHintFor, Ascending, Accepts;
    if h.has && h.eq {
      if candidates != [] {
        assert candidates[1..] == [];
      }
    } else if h.has {
      ScanAscends(candidates, records, h.column, cols, where, like);
    }
  }

  /** The selection loop shared by UPDATE, DELETE and SELECT. It looks at the
      candidates in turn, fails exactly when the condition cannot be evaluated on one of
      them, and otherwise keeps those it accepts: the rows a full scan gives, each once,
      in the order the condition calls for. */
  method MatchedRows(t: Table, where: Option<Expr>, like: Matcher)
    returns (r: Result<seq<RecordId>>, ghost h: Hint, ghost candidates: seq<RecordId>)
    requires t.Valid()
    ensures Candidates(t, where, like, candidates) && InHintOrder(h, t.records, t.order, candidates)
    ensures IsHintFor(h, where, t.columns)
    ensures r.Ok? <==> !SomeOfThemFails(candidates, t.records, t.columns, where, like)
    ensures r.Ok? ==> r.value == Scan(candidates, t.records, t.columns, where, like)
    ensures r.Ok? ==> InPlanOrder(h, t.records, t.order, t.columns, where, like, r.value)
    ensures r.Ok? ==> NoRepeats(r.value) && multiset(r.value) == multiset(Scan(t.order, t.records, t.columns, where, like))
    ensures r.Ok? ==> forall id :: id in r.value <==> id in t.records && Accepts(where, t.columns, t.records[id], like)
    ensures !r.Ok? ==> SomeRowFails(t.records, t.columns, where, like)
    ensures where.None? ==> r == Ok(t.order)
  {
    hide Table.Valid, EvalWhere, Scan, NoRepeats, IsHintFor, InHintOrder, InPlanOrder;
    var ids;
    ids, h := SelectCandidates(t, where, like);
    candidates := ids;
    var matched := [];
    assert ids[..0] == [];
    NothingScanned(t.records, t.columns, where, like);
    for n := 0 to |ids|
      invariant matched == Scan(ids[..n], t.records, t.columns, where, like)
      invariant !SomeOfThemFails(ids[..n], t.records, t.columns, where, like)
    {
      var id := ids[n];
      assert ids[..n + 1] == ids[..n] + [id];
      assert id in ids;
      RowLength(t, id);
      ScanMore(ids[..n], id, t.records, t.columns, where, like);
      if where.None? {
        matched := matched + [id];
      } else {
        var b :- EvalWhere(where.value, t.columns, t.records[id], like);
        if b.value && !b.unknown {
          matched := matched + [id];
        }
      }
    }
    assert ids[..|ids|] == ids;
    CandidatesScanned(t, where, like, ids);
    ScanInPlanOrder(h, t.records, t.order, t.columns, where, like, ids);
    if where.None? {
      ScanAll(t.order, t.records, t.columns, where, like);
      OrderNamesRows(t);
    }
    return Ok(matched), h, candidates;
  }

  lemma NothingScanned(records: Records, cols: seq<Column>, where: Option<Expr>, like: Matcher)
    ensures Scan([], records, cols, where, like) == []
  {
  }

  /** Without a condition the scan keeps every row. */
  lemma {:induction false} ScanAll(order: seq<RecordId>, records: Records, cols: seq<Column>, where: Option<Expr>,
                                   like: Matcher)
    requires where.None? && forall id :: id in order ==> id in records
    ensures Scan(order, records, cols, where, like) == order
  {
    if order != [] {
      ScanAll(order[1..], records, cols, where, like);
      assert order == [order[0]] + order[1..];
    }
  }

  /** Looking at the candidates only gives the rows of a full scan. */
  lemma CandidatesScanned(t: Table, where: Option<Expr>, like: Matcher, candidates: seq<RecordId>)
    requires t.Valid() && Candidates(t, where, like, candidates)
    ensures var ids := Scan(candidates, t.records, t.columns, where, like);
            && NoRepeats(ids) && multiset(ids) == multiset(Scan(t.order, t.records, t.columns, where, like))
            && forall id :: id in ids <==> id in t.records && Accepts(where, t.columns, t.records[id], like)
  {
    hide Table.Valid, Scan, NoRepeats, Accepts;
    OrderNamesRows(t);
    ScanMembers(candidates, t.records, t.columns, where, like);
    ScanMembers(t.order, t.records, t.columns, where, like);
    SameMembers(Scan(candidates, t.records, t.columns, where, like), Scan(t.order, t.records, t.columns, where, like));
  }

  // ---- DELETE ----

  function Keep(order: seq<RecordId>, gone: set<RecordId>): seq<RecordId> {
    if order == [] then []
    else if order[0] in gone then Keep(order[1..], gone)
    else [order[0]] + Keep(order[1..], gone)
  }

  lemma {:induction false} KeepAll(order: seq<RecordId>)
    ensures Keep(order, {}) == order
  {
    if order != [] {
      KeepAll(order[1..]);
    }
  }

  lemma {:induction false} KeepMembers(order: seq<RecordId>, gone: set<RecordId>)
    ensures forall x :: x in Keep(order, gone) <==> x in order && x !in gone
  {
    if order != [] {
      assert order == [order[0]] + order[1..];
      KeepMembers(order[1..], gone);
    }
  }

  lemma {:induction false} DropOne(order: seq<RecordId>, gone: set<RecordId>, id: RecordId)
    requires NoRepeats(order)
    ensures Dropped(Keep(order, gone), id) == Keep(order, gone + {id})
  {
    if order != [] {
      var rest := order[1..];
      DropOne(rest, gone, id);
      if order[0] !in gone {
        var k := Keep(rest, gone);
        assert ([order[0]] + k)[1..] == k;
        if order[0] == id {
          assert id !in rest;
          KeepNothingNew(rest, gone, id);
        }
      }
    }
  }

  lemma {:induction false} KeepNothingNew(order: seq<RecordId>, gone: set<RecordId>, id: RecordId)
    requires id !in order
    ensures Keep(order, gone) == Keep(order, gone + {id})
  {
    if order != [] {
      KeepNothingNew(order[1..], gone, id);
    }
  }

  ghost function AcceptedIds(records: Records, cols: seq<Column>, where: Option<Expr>, like: Matcher): set<RecordId> {
    set id | id in records && Accepts(where, cols, records[id], like)
  }

  /** The table after the rows `gone` have been erased from those it had. */
  ghost predicate Trimmed(t: Table, was: Records, order: seq<RecordId>, gone: set<RecordId>)
    reads t, t.indexes.Values
  {
    t.Valid() && t.records == was - gone && t.order == Keep(order, gone)
  }

  ghost predicate Calm(t: Table)
    reads t, t.indexes.Values
  {
    t.CalmIndexes() && |t.records| <= MAX_INTS
  }

  /** One turn of the erasing loop: a row that has not been erased yet. */
  method DeleteNext(t: Table, id: RecordId, ghost was: Records, ghost order: seq<RecordId>, ghost gone: set<RecordId>)
    returns (r: Result<()>)
    requires Trimmed(t, was, order, gone) && NoRepeats(order) && id in was && id !in gone
    modifies t`records, t`order, t.indexes.Values
    ensures r.Throw? ==> r.fault == BadKey || r.fault.OfStorage()
    ensures r.Ok? ==> Trimmed(t, was, order, gone + {id})
    ensures old(Calm(t)) ==> r.Ok? && Calm(t)
  {
    hide Table.Valid, NoRepeats, Keep, Dropped, Table.Held, Table.CalmIndexes;
    LessRecords(was, gone, id);
    FewerRecords(t.records, id);
    DropOne(order, gone, id);
    var _ :- t.Erase(id);
    return Ok(());
  }

  lemma NothingTrimmed(t: Table)
    requires t.Valid()
    ensures Trimmed(t, t.records, t.order, {})
  {
    KeepAll(t.order);
    LessRecords(t.records, {}, 0);
  }

  /** The erasing loop of `exec_delete`. */
  method DeleteRows(t: Table, ids: seq<RecordId>) returns (r: Result<()>)
    requires t.Valid() && NoRepeats(ids) && forall id :: id in ids ==> id in t.records
    modifies t`records, t`order, t.indexes.Values
    ensures r.Throw? ==> r.fault == BadKey || r.fault.OfStorage()
    ensures r.Ok? ==> Trimmed(t, old(t.records), old(t.order), Members(ids))
    ensures old(Calm(t)) ==> r.Ok? && Calm(t)
  {
    hide Trimmed, Calm, Table.Valid, NoRepeats, Members, Keep, Table.CalmIndexes, Table.Held;
    ghost var was, order, calm := t.records, t.order, Calm(t);
    OrderNamesRows(t);
    NothingTrimmed(t);
    OneMember(ids, 0);
    for n := 0 to |ids|
      invariant Trimmed(t, was, order, Members(ids[..n])) && (calm ==> Calm(t))
    {
      OneMember(ids, n);
      FirstTime(ids, n);
      assert ids[n] in ids && ids[n] !in Members(ids[..n]);
      var _ :- DeleteNext(t, ids[n], was, order, Members(ids[..n]));
    }
    return Ok(());
  }

  lemma LessRecords(records: Records, gone: set<RecordId>, id: RecordId)
    ensures records - gone - {id} == records - (gone + {id})
    ensures id in records && id !in gone ==> id in records - gone
    ensures records - {} == records
  {
  }

  lemma FewerRecords(records: Records, id: RecordId)
    ensures |records - {id}| <= |records|
  {
    assert (records - {id}).Keys == records.Keys - {id};
    assert |records - {id}| == |(records - {id}).Keys| && |records| == |records.Keys|;
  }

  /** `exec_delete`: exactly the accepted rows go, the others stay as and where they
      were, and the indexes are still exact. */
  method ExecDelete(t: Table, where: Option<Expr>, like: Matcher)
    returns (r: Result<nat>, ghost h: Hint, ghost candidates: seq<RecordId>)
    requires t.Valid()
    modifies t`records, t`order, t.indexes.Values
    ensures IsHintFor(h, where, t.columns) && InHintOrder(h, old(t.records), old(t.order), candidates)
    ensures SomeOfThemFails(candidates, old(t.records), t.columns, where, like) ==>
              !r.Ok? && t.records == old(t.records) && t.order == old(t.order)
    ensures var gone := AcceptedIds(old(t.records), t.columns, where, like);
            r.Ok? ==> t.Valid() && t.records == old(t.records) - gone && t.order == Keep(old(t.order), gone) && r.value == |gone|
    ensures r.Throw? ==> r.fault == BadKey || r.fault.OfStorage() || SomeRowFails(old(t.records), t.columns, where, like)
    ensures old(t.CalmIndexes() && |t.records| <= MAX_INTS) ==>
              (r.Ok? <==> !SomeOfThemFails(candidates, old(t.records), t.columns, where, like))
  {
    hide Table.Valid, NoRepeats, Accepts, Scan, SomeRowFails, Members, Keep, Dropped, Table.CalmIndexes,
         SomeOfThemFails, IsHintFor, InHintOrder, InPlanOrder;
    var matched;
    matched, h, candidates :- MatchedRows(t, where, like);
    assert Members(matched) == AcceptedIds(t.records, t.columns, where, like);
    DistinctCount(matched);
    var _ :- DeleteRows(t, matched);
    return Ok(|matched|), h, candidates;
  }

  // ---- UPDATE ----

  lemma SameSize(records: Records, id: RecordId, row: Record)
    requires id in records
    ensures |records[id := row]| == |records|
  {
    assert records[id := row].Keys == records.Keys;
    assert |records[id := row].Keys| == |records[id := row]| && |records.Keys| == |records|;
  }

  /** One turn of the updating loop. */
  method UpdateNext(t: Table, id: RecordId, sets: seq<SetClause>, columns: seq<nat>) returns (r: Result<()>)
    requires t.Valid() && id in t.records && |columns| == |sets| && forall c :: c in columns ==> c < |t.columns|
    modifies t`records, t.indexes.Values
    ensures r.Ok? ==>
              && t.Valid() && old(Steps(t.columns, t.records, id, sets, columns))
              && t.records == old(t.records)[id := NewRow(sets, columns, t.columns, old(t.records)[id])]
    ensures old(Calm(t)) ==> (r.Ok? <==> old(Steps(t.columns, t.records, id, sets, columns))) && (r.Ok? ==> Calm(t))
  {
    hide Table.Valid, Evaluated, Assigned, Acceptable, Table.CalmIndexes, Table.Held;
    RowLength(t, id);
    SameSize(t.records, id, NewRow(sets, columns, t.columns, t.records[id]));
    var assigns :- EvaluateSets(sets, columns, t.columns, t.records[id]);
    forall a | a in assigns
      ensures a.column < |t.columns|
    {
      var k :| 0 <= k < |assigns| && assigns[k] == a;
      assert columns[k] in columns;
    }
    r := t.Update(id, assigns);
  }

  /** The updating loop of `exec_update`: on calm indexes it gets through exactly when
      taking the rows in this order does. */
  method UpdateRows(t: Table, ids: seq<RecordId>, sets: seq<SetClause>, columns: seq<nat>) returns (r: Result<()>)
    requires t.Valid() && NoRepeats(ids) && forall id :: id in ids ==> id in t.records
    requires |columns| == |sets| && forall c :: c in columns ==> c < |t.columns|
    modifies t`records, t.indexes.Values
    ensures r.Ok? ==> t.Valid() && t.records == UpdatedRows(old(t.records), Members(ids), sets, columns, t.columns)
    ensures r.Ok? ==> Stepped(t.columns, old(t.records), ids, sets, columns) == Some(t.records)
    ensures old(Calm(t)) ==> (r.Ok? <==> Stepped(t.columns, old(t.records), ids, sets, columns).Some?)
  {
    hide Table.Valid, NoRepeats, Members, UpdatedRows, Steps, Stepped, NewRow, Calm;
    ghost var was, calm := t.records, Calm(t);
    OneMember(ids, 0);
    NothingUpdated(was, sets, columns, t.columns);
    NoSteps(t.columns, was, ids, sets, columns);
    for n := 0 to |ids|
      invariant t.Valid() && t.records == UpdatedRows(was, Members(ids[..n]), sets, columns, t.columns)
      invariant Stepped(t.columns, was, ids[..n], sets, columns) == Some(t.records)
      invariant calm ==> Calm(t)
    {
      OneMember(ids, n);
      FirstTime(ids, n);
      assert ids[n] in ids;
      UpdateOne(was, Members(ids[..n]), sets, columns, t.columns, ids[n]);
      NextStep(t.columns, was, ids, n, t.records, sets, columns);
      var _ :- UpdateNext(t, ids[n], sets, columns);
    }
    assert ids[..|ids|] == ids;
    return Ok(());
  }

  lemma RowsFitTable(t: Table)
    requires t.Valid()
    ensures RowsFit(t.columns, t.records)
  {
    forall id | id in t.records
      ensures |t.records[id]| == |t.columns|
    {
      RowLength(t, id);
    }
  }

  /** `exec_update`: the accepted rows are fixed before anything changes, and each of
      them gets its SET once, computed from its own old values; every other row, the
      order and the next id stay. On calm indexes, and when the condition can be
      evaluated on every row, it succeeds exactly when taking the rows in the order of
      the plan does; so always when the updated rows clash with nothing. */
  method ExecUpdate(t: Table, sets: seq<SetClause>, where: Option<Expr>, like: Matcher)
    returns (r: Result<nat>, ghost h: Hint, ghost candidates: seq<RecordId>, ghost ids: seq<RecordId>)
    requires t.Valid()
    modifies t`records, t.indexes.Values
    ensures !Targets(sets, t.columns).Ok? ==>
              r == Throw(BadExpression) && t.Valid() && t.records == old(t.records) && t.Held() == old(t.Held())
    ensures r.Ok? ==>
              && t.Valid() && Targets(sets, t.columns).Ok?
              && t.records == UpdatedRows(old(t.records), AcceptedIds(old(t.records), t.columns, where, like),
                                          sets, Targets(sets, t.columns).value, t.columns)
    ensures r.Ok? ==>
              && t.records.Keys == old(t.records.Keys)
              && forall id :: id in t.records ==>
                   if Accepts(where, t.columns, old(t.records)[id], like)
                   then TakesSets(sets, Targets(sets, t.columns).value, t.columns, old(t.records)[id], t.records[id])
                   else t.records[id] == old(t.records)[id]
    ensures r.Ok? ==> r.value == |AcceptedIds(old(t.records), t.columns, where, like)|
    ensures RowsFit(t.columns, old(t.records))
    ensures Targets(sets, t.columns).Ok? ==>
              && IsHintFor(h, where, t.columns) && InHintOrder(h, old(t.records), t.order, candidates)
              && (SomeOfThemFails(candidates, old(t.records), t.columns, where, like) ==>
                    !r.Ok? && t.records == old(t.records) && t.Held() == old(t.Held()))
    ensures Targets(sets, t.columns).Ok? && !SomeOfThemFails(candidates, old(t.records), t.columns, where, like) ==>
              && NoRepeats(ids) && Members(ids) == AcceptedIds(old(t.records), t.columns, where, like)
              && InPlanOrder(h, old(t.records), t.order, t.columns, where, like, ids)
              && (r.Ok? || old(Calm(t)) ==>
                    (r.Ok? <==> Stepped(t.columns, old(t.records), ids, sets, Targets(sets, t.columns).value).Some?))
    ensures old(Calm(t)) && Targets(sets, t.columns).Ok?
            && NoClash(t.columns, old(t.records), AcceptedIds(old(t.records), t.columns, where, like), sets,
                       Targets(sets, t.columns).value) ==>
              (r.Ok? <==> !SomeOfThemFails(candidates, old(t.records), t.columns, where, like))
  {
    hide Table.Valid, NoRepeats, Accepts, Scan, SomeRowFails, Members, UpdatedRows, NoClash, Stepped, Calm, InPlanOrder,
         InHintOrder, IsHintFor, TakesSets, RowsFit, SomeOfThemFails, Candidates, Targets;
    h, candidates, ids := NO_HINT, [], [];
    RowsFitTable(t);
    var columns :- ResolveColumns(sets, t.columns);
    var matched;
    matched, h, candidates :- MatchedRows(t, where, like);
    ids := matched;
    assert Members(matched) == AcceptedIds(t.records, t.columns, where, like);
    DistinctCount(matched);
    if NoClash(t.columns, t.records, Members(matched), sets, columns) {
      ClashFreeSteps(t.columns, t.records, Members(matched), matched, sets, columns);
    }
    ghost var was := t.records;
    var _ :- UpdateRows(t, matched, sets, columns);
    UpdatedRowsTakeSets(was, matched, sets, columns, t.columns);
    return Ok(|matched|), h, candidates, ids;
  }

  /** Every updated row takes the SET clauses, and no other row changes. */
  lemma UpdatedRowsTakeSets(records: Records, ids: seq<RecordId>, sets: seq<SetClause>, columns: seq<nat>,
                            cols: seq<Column>)
    requires RowsFit(cols, records) && NoRepeats(ids) && Stepped(cols, records, ids, sets, columns).Some?
    ensures var now := UpdatedRows(records, Members(ids), sets, columns, cols);
            && now.Keys == records.Keys
            && forall id :: id in now ==>
                 if id in Members(ids) then TakesSets(sets, columns, cols, records[id], now[id]) else now[id] == records[id]
  {
    hide TakesSets, Evaluated, NewRow, Stepped, NoRepeats;
    forall id | id in records && id in Members(ids)
      ensures TakesSets(sets, columns, cols, records[id], NewRow(sets, columns, cols, records[id]))
    {
      StepEvaluates(records, ids, sets, columns, cols, id);
      NewRowTakesSets(sets, columns, cols, records[id]);
    }
  }

  // ---- SELECT ----

  datatype Totals = Totals(rows: nat, nonNull: nat, sum: int)

  /** COUNT(*), COUNT(c) and SUM(c) over some rows. */
  function Tally(records: Records, ids: seq<RecordId>, c: nat): Totals {
    if ids == [] then Totals(0, 0, 0)
    else
      var n := |ids| - 1;
      var t := Tally(records, ids[..n], c);
      if ids[n] in records && c < |records[ids[n]]| && !records[ids[n]][c].Null?
      then Totals(t.rows + 1, t.nonNull + 1, t.sum + (if records[ids[n]][c].Int? then records[ids[n]][c].i else 0))
      else t.(rows := t.rows + 1)
  }

  lemma {:induction false} TallyAppend(records: Records, a: seq<RecordId>, b: seq<RecordId>, c: nat)
    ensures var x, y, z := Tally(records, a, c), Tally(records, b, c), Tally(records, a + b, c);
            z == Totals(x.rows + y.rows, x.nonNull + y.nonNull, x.sum + y.sum)
  {
    if b == [] {
      assert a + b == a;
    } else {
      var n := |b| - 1;
      assert (a + b)[..|a| + n] == a + b[..n];
      TallyAppend(records, a, b[..n], c);
    }
  }

  /** Totals do not depend on the order of the rows. */
  lemma {:induction false} TallyPermutation(records: Records, a: seq<RecordId>, b: seq<RecordId>, c: nat)
    requires multiset(a) == multiset(b)
    ensures Tally(records, a, c) == Tally(records, b, c)
  {
    if a == [] {
      assert |multiset(b)| == 0;
    } else {
      var n := |a| - 1;
      assert a == a[..n] + [a[n]];
      assert a[n] in multiset(a);
      var i :| 0 <= i < |b| && b[i] == a[n];
      OneOut(a, n, b, i);
      TallyPermutation(records, a[..n], b[..i] + b[i + 1..], c);
      TallySplit(records, a, n, c);
      TallySplit(records, b, i, c);
      assert a[n + 1..] == [] && a[..n] + a[n + 1..] == a[..n];
    }
  }

  lemma OneOut(a: seq<RecordId>, n: nat, b: seq<RecordId>, i: nat)
    requires n + 1 == |a| && i < |b| && a[n] == b[i] && multiset(a) == multiset(b)
    ensures multiset(a[..n]) == multiset(b[..i] + b[i + 1..])
  {
    assert a == a[..n] + [a[n]];
    assert b == b[..i] + [b[i]] + b[i + 1..];
    assert multiset(a) == multiset(a[..n]) + multiset{a[n]};
    assert multiset(b) == multiset(b[..i]) + multiset{b[i]} + multiset(b[i + 1..]);
    assert multiset(a[..n]) == multiset(a) - multiset{a[n]};
  }

  lemma TallySplit(records: Records, ids: seq<RecordId>, i: nat, c: nat)
    requires i < |ids|
    ensures var x, y := Tally(records, ids[..i] + ids[i + 1..], c), Tally(records, [ids[i]], c);
            Tally(records, ids, c) == Totals(x.rows + y.rows, x.nonNull + y.nonNull, x.sum + y.sum)
  {
    hide Tally;
    var l, r := ids[..i], ids[i + 1..];
    assert ids == l + [ids[i]] + r;
    TallyAppend(records, l + [ids[i]], r, c);
    TallyAppend(records, l, [ids[i]], c);
    TallyAppend(records, l, r, c);
  }

  /** The aggregate half of `exec_select` for one column, with integers in place of
      the long double: the totals are those over the rows of a full scan. `needInts`
      is set for SUM and AVG, which refuse a text. */
  method ExecAggregate(t: Table, c: nat, needInts: bool, where: Option<Expr>, like: Matcher)
    returns (r: Result<Totals>, ghost h: Hint, ghost candidates: seq<RecordId>)
    requires t.Valid() && c < |t.columns|
    ensures IsHintFor(h, where, t.columns) && InHintOrder(h, t.records, t.order, candidates)
    ensures r.Ok? ==> r.value == Tally(t.records, Scan(t.order, t.records, t.columns, where, like), c)
    ensures r.Ok? <==>
              && !SomeOfThemFails(candidates, t.records, t.columns, where, like)
              && (needInts ==> forall id :: id in t.records && Accepts(where, t.columns, t.records[id], like) ==>
                                 c < |t.records[id]| && !t.records[id][c].Str?)
    ensures !r.Ok? && !SomeRowFails(t.records, t.columns, where, like) ==> needInts
  {
    hide Table.Valid, NoRepeats, Accepts, Scan, SomeRowFails, Tally, SomeOfThemFails, IsHintFor, InHintOrder,
         InPlanOrder;
    var ids;
    ids, h, candidates :- MatchedRows(t, where, like);
    var rows, nonNull, sum := 0, 0, 0;
    NoTally(t.records, c);
    for n := 0 to |ids|
      invariant Totals(rows, nonNull, sum) == Tally(t.records, ids[..n], c)
      invariant forall i :: 0 <= i < n ==> |t.records[ids[i]]| == |t.columns|
      invariant needInts ==> forall i :: 0 <= i < n ==> !t.records[ids[i]][c].Str?
    {
      assert ids[n] in ids;
      RowLength(t, ids[n]);
      TallyNext(t.records, ids, c, n);
      var v := t.records[ids[n]][c];
      rows := rows + 1;
      if !v.Null? {
        if v.Int? {
          sum := sum + v.i;
        } else if needInts {
          return Throw(BadExpression), h, candidates;
        }
        nonNull := nonNull + 1;
      }
    }
    assert ids[..|ids|] == ids;
    TallyPermutation(t.records, ids, Scan(t.order, t.records, t.columns, where, like), c);
    return Ok(Totals(rows, nonNull, sum)), h, candidates;
  }

  lemma NoTally(records: Records, c: nat)
    ensures Tally(records, [], c) == Totals(0, 0, 0)
  {
  }

  lemma TallyNext(records: Records, ids: seq<RecordId>, c: nat, n: nat)
    requires n < |ids| && ids[n] in records && c < |records[ids[n]]|
    ensures ids[..0] == []
    ensures var t, v := Tally(records, ids[..n], c), records[ids[n]][c];
            Tally(records, ids[..n + 1], c)
            == if v.Null? then t.(rows := t.rows + 1)
               else Totals(t.rows + 1, t.nonNull + 1, t.sum + (if v.Int? then v.i else 0))
  {
    assert ids[..n + 1][..n] == ids[..n];
  }

  /** The loop over the columns of one result row. */
  method ProjectRow(row: Record, items: seq<nat>) returns (p: Record)
    requires forall k :: 0 <= k < |items| ==> items[k] < |row|
    ensures |p| == |items| && forall k :: 0 <= k < |items| ==> p[k] == row[items[k]]
  {
    p := [];
    for k := 0 to |items|
      invariant |p| == k && forall i :: 0 <= i < k ==> p[i] == row[items[i]]
    {
      p := p + [row[items[k]]];
    }
  }

  /** The plain half of `exec_select`: one result row for every row of the full scan,
      in the order of the plan, with the values of the listed columns as listed. */
  method ExecSelect(t: Table, items: seq<nat>, where: Option<Expr>, like: Matcher)
    returns (r: Result<seq<Record>>, ghost h: Hint, ghost candidates: seq<RecordId>, ghost ids: seq<RecordId>)
    requires t.Valid() && forall k :: 0 <= k < |items| ==> items[k] < |t.columns|
    ensures IsHintFor(h, where, t.columns) && InHintOrder(h, t.records, t.order, candidates)
    ensures r.Ok? <==> !SomeOfThemFails(candidates, t.records, t.columns, where, like)
    ensures r.Ok? ==>
              && multiset(ids) == multiset(Scan(t.order, t.records, t.columns, where, like)) && |r.value| == |ids|
              && InPlanOrder(h, t.records, t.order, t.columns, where, like, ids)
              && forall n :: 0 <= n < |ids| ==>
                   && ids[n] in t.records && |t.records[ids[n]]| == |t.columns| && |r.value[n]| == |items|
                   && forall k :: 0 <= k < |items| ==> r.value[n][k] == t.records[ids[n]][items[k]]
    ensures r.Ok? && where.None? ==> ids == t.order
    ensures !r.Ok? ==> SomeRowFails(t.records, t.columns, where, like)
  {
    hide Table.Valid, NoRepeats, Accepts, Scan, SomeRowFails, InPlanOrder, InHintOrder, IsHintFor;
    ids := [];
    var matched;
    matched, h, candidates :- MatchedRows(t, where, like);
    var rows := [];
    for n := 0 to |matched|
      invariant |rows| == n
      invariant forall i :: 0 <= i < n ==>
                  && matched[i] in t.records && |t.records[matched[i]]| == |t.columns| && |rows[i]| == |items|
                  && forall k :: 0 <= k < |items| ==> rows[i][k] == t.records[matched[i]][items[k]]
    {
      assert matched[n] in matched;
      RowLength(t, matched[n]);
      var p := ProjectRow(t.records[matched[n]], items);
      rows := rows + [p];
    }
    ids := matched;
    return Ok(rows), h, candidates, ids;
  }
}
