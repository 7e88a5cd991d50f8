/** Sorted entry sequences and the maps they stand for. */
module Ordered {
  import opened Values
  import opened Nodes

  /** Non-null keys of one type, strictly increasing. */
  ghost predicate InOrder(t: DataType, es: seq<Entry>) {
    && (forall i :: 0 <= i < |es| ==> es[i].key.IsKey(t))
    && (forall i, j :: 0 <= i < j < |es| ==> Less(es[i].key, es[j].key))
  }

  /** The abstract contents of an index. */
  ghost function Contents(es: seq<Entry>): map<Value, nat> {
    if es == [] then map[] else Contents(es[..|es| - 1])[es[|es| - 1].key := es[|es| - 1].rid]
  }

  /** The position of the first entry that is not below `key`. */
  ghost predicate IsLowerBound(es: seq<Entry>, key: Value, n: nat) {
    && n <= |es|
    && (forall i :: 0 <= i < n ==> Less(es[i].key, key))
    && (forall i :: n <= i < |es| ==> !Less(es[i].key, key))
  }

  /** The position of the first entry above `key`. */
  ghost predicate IsUpperBound(es: seq<Entry>, key: Value, n: nat) {
    && n <= |es|
    && (forall i :: 0 <= i < n ==> Compare(es[i].key, key).sign <= 0)
    && (forall i :: n <= i < |es| ==> Compare(es[i].key, key).sign > 0)
  }

  lemma OrderedParts(t: DataType, a: seq<Entry>, b: seq<Entry>)
    requires InOrder(t, a + b)
    ensures InOrder(t, a) && InOrder(t, b)
    ensures forall i, j :: 0 <= i < |a| && 0 <= j < |b| ==> Less(a[i].key, b[j].key)
  {
    var s := a + b;
    assert forall i :: 0 <= i < |a| ==> s[i] == a[i];
    assert forall i :: 0 <= i < |b| ==> s[|a| + i] == b[i];
    forall i, j | 0 <= i < |b| && 0 <= j < |b| && i < j
      ensures Less(b[i].key, b[j].key)
    {
      assert Less(s[|a| + i].key, s[|a| + j].key);
    }
    forall i, j | 0 <= i < |a| && 0 <= j < |b|
      ensures Less(a[i].key, b[j].key)
    {
      assert Less(s[i].key, s[|a| + j].key);
    }
  }

  lemma KeysOfOrdered(t: DataType, es: seq<Entry>)
    requires InOrder(t, es)
    ensures forall e :: e in es ==> e.key.IsKey(t)
  {
  }

  lemma OrderedJoin(t: DataType, a: seq<Entry>, b: seq<Entry>)
    requires InOrder(t, a) && InOrder(t, b)
    requires forall i, j :: 0 <= i < |a| && 0 <= j < |b| ==> Less(a[i].key, b[j].key)
    ensures InOrder(t, a + b)
  {
  }

  /** Keys above one entry of an ordered sequence are above all earlier ones. */
  lemma BelowIsBelow(t: DataType, es: seq<Entry>, n: nat, key: Value)
    requires InOrder(t, es) && n < |es| && key.IsKey(t) && Compare(es[n].key, key).sign <= 0
    ensures forall i :: 0 <= i < n ==> Less(es[i].key, key)
  {
    CompareIsTotalOrder(es[n].key, key, t);
    forall i | 0 <= i < n
      ensures Less(es[i].key, key)
    {
      if es[n].key != key {
        LessTransitive(es[i].key, es[n].key, key);
      }
    }
  }

  lemma AboveIsAbove(t: DataType, es: seq<Entry>, n: nat, key: Value)
    requires InOrder(t, es) && n < |es| && key.IsKey(t) && Compare(es[n].key, key).sign >= 0
    ensures forall i :: n < i < |es| ==> Compare(es[i].key, key).sign > 0
  {
    CompareIsTotalOrder(es[n].key, key, t);
    forall i | n < i < |es|
      ensures Compare(es[i].key, key).sign > 0
    {
      CompareIsTotalOrder(es[n].key, es[i].key, t);
      CompareIsTotalOrder(es[i].key, key, t);
      CompareIsTotalOrder(key, es[n].key, t);
      if es[n].key != key {
        LessTransitive(key, es[n].key, es[i].key);
      }
    }
  }

  lemma OrderedInsert(t: DataType, a: seq<Entry>, e: Entry, b: seq<Entry>)
    requires InOrder(t, a + b) && e.key.IsKey(t)
    requires forall i :: 0 <= i < |a| ==> Less(a[i].key, e.key)
    requires forall i :: 0 <= i < |b| ==> Less(e.key, b[i].key)
    ensures InOrder(t, a + [e] + b)
  {
    var s, u := a + b, a + [e] + b;
    assert forall i :: 0 <= i < |a| ==> u[i] == a[i] == s[i];
    assert forall i :: |a| < i < |u| ==> u[i] == b[i - |a| - 1] == s[i - 1];
  }

  // ---- contents ----

  lemma {:induction false} ContentsHas(es: seq<Entry>, i: nat)
    requires i < |es|
    ensures es[i].key in Contents(es)
  {
    var n := |es| - 1;
    if i < n {
      assert es[..n][i] == es[i];
      ContentsHas(es[..n], i);
    }
  }

  lemma {:induction false} ContentsHasOnly(es: seq<Entry>, v: Value) returns (i: nat)
    requires v in Contents(es)
    ensures i < |es| && es[i].key == v && es[i].rid == Contents(es)[v]
  {
    var n := |es| - 1;
    if es[n].key == v {
      i := n;
    } else {
      i := ContentsHasOnly(es[..n], v);
    }
  }

  /** An ordered sequence lists its map: every entry is found under its key. */
  lemma {:induction false} ContentsAt(t: DataType, es: seq<Entry>)
    requires InOrder(t, es)
    ensures forall i :: 0 <= i < |es| ==> es[i].key in Contents(es) && Contents(es)[es[i].key] == es[i].rid
    ensures |Contents(es)| == |es|
  {
    if es != [] {
      var n := |es| - 1;
      assert es == es[..n] + es[n..];
      OrderedParts(t, es[..n], es[n..]);
      ContentsAt(t, es[..n]);
      forall i | 0 <= i < n
        ensures es[i].key != es[n].key && es[..n][i] == es[i]
      {
        CompareIsTotalOrder(es[i].key, es[n].key, t);
      }
      if es[n].key in Contents(es[..n]) {
        var i := ContentsHasOnly(es[..n], es[n].key);
      }
    }
  }

  lemma SingleContents(e: Entry)
    ensures Contents([]) == map[] && Contents([e]) == map[e.key := e.rid]
  {
    assert [e][..0] == [];
  }

  lemma ContentsSnoc(es: seq<Entry>, x: Entry)
    ensures Contents(es + [x]) == Contents(es)[x.key := x.rid]
  {
    assert (es + [x])[..|es|] == es;
  }

  lemma DiffersFromLast(t: DataType, es: seq<Entry>, x: Entry, i: nat)
    requires InOrder(t, es + [x]) && i < |es|
    ensures es[i].key != x.key
  {
    var s := es + [x];
    assert s[i] == es[i] && s[|es|] == x;
    CompareIsTotalOrder(s[i].key, s[|es|].key, t);
  }

  /** Putting an entry between smaller and larger ones adds it to the map. */
  lemma {:induction false} InsertedContents(t: DataType, a: seq<Entry>, e: Entry, b: seq<Entry>)
    requires InOrder(t, a + [e] + b)
    ensures Contents(a + [e] + b) == Contents(a + b)[e.key := e.rid]
  {
    if b == [] {
      assert a + [e] + b == a + [e] && a + b == a;
      ContentsSnoc(a, e);
    } else {
      var n := |b| - 1;
      var x, s, u := b[n], a + b[..n], a + [e] + b[..n];
      assert a + b == s + [x] && a + [e] + b == u + [x];
      assert u[|a|] == e;
      OrderedParts(t, u, [x]);
      DiffersFromLast(t, u, x, |a|);
      ContentsSnoc(s, x);
      ContentsSnoc(u, x);
      InsertedContents(t, a, e, b[..n]);
      hide *;
    }
  }

  lemma NewKeyIsAbsent(t: DataType, a: seq<Entry>, e: Entry, b: seq<Entry>)
    requires InOrder(t, a + [e] + b)
    ensures e.key !in Contents(a + b)
  {
    if e.key in Contents(a + b) {
      var i := ContentsHasOnly(a + b, e.key);
      var u := a + [e] + b;
      var j := if i < |a| then i else i + 1;
      assert u[j] == (a + b)[i] && u[|a|] == e;
      CompareIsTotalOrder(u[j].key, u[|a|].key, t);
    }
  }

  lemma RemovedOrder(t: DataType, a: seq<Entry>, e: Entry, b: seq<Entry>)
    requires InOrder(t, a + [e] + b)
    ensures InOrder(t, a + b)
    ensures e.key !in Contents(a + b)
    ensures e.key in Contents(a + [e] + b)
    ensures Contents(a + b) == Contents(a + [e] + b) - {e.key}
  {
    OrderedParts(t, a + [e], b);
    OrderedParts(t, a, [e]);
    assert (a + [e]) + b == a + [e] + b;
    forall i, j | 0 <= i < |a| && 0 <= j < |b|
      ensures Less(a[i].key, b[j].key)
    {
      assert (a + [e])[i] == a[i];
    }
    OrderedJoin(t, a, b);
    InsertedContents(t, a, e, b);
    NewKeyIsAbsent(t, a, e, b);
  }

  // ---- sorting ----

  ghost predicate NonDecreasing(es: seq<Entry>) {
    forall i, j :: 0 <= i < j < |es| ==> !Less(es[j].key, es[i].key)
  }

  /** `std::sort` by key, as an insertion sort: any result it may give is a
      permutation without inversions, on non-null keys of one type. */
  method SortByKey(es: seq<Entry>, ghost t: DataType) returns (sorted: seq<Entry>)
    requires forall e :: e in es ==> e.key.IsKey(t)
    ensures multiset(sorted) == multiset(es)
    ensures NonDecreasing(sorted)
  {
    sorted := [];
    for n := 0 to |es|
      invariant multiset(sorted) == multiset(es[..n])
      invariant NonDecreasing(sorted)
    {
      assert es[..n + 1] == es[..n] + [es[n]];
      KeysOfPermutation(es[..n], sorted, t);
      sorted := InsertByKey(sorted, es[n], t);
    }
    assert es[..|es|] == es;
  }

  lemma KeysOfPermutation(a: seq<Entry>, b: seq<Entry>, t: DataType)
    requires multiset(a) == multiset(b) && forall e :: e in a ==> e.key.IsKey(t)
    ensures forall e :: e in b ==> e.key.IsKey(t)
  {
    forall e | e in b
      ensures e.key.IsKey(t)
    {
      assert e in multiset(b);
      assert e in a;
    }
  }

  method InsertByKey(es: seq<Entry>, e: Entry, ghost t: DataType) returns (r: seq<Entry>)
    requires NonDecreasing(es) && e.key.IsKey(t) && forall x :: x in es ==> x.key.IsKey(t)
    ensures multiset(r) == multiset(es) + multiset{e}
    ensures NonDecreasing(r)
  {
    var i := |es|;
    while i > 0 && Less(e.key, es[i - 1].key)
      invariant 0 <= i <= |es|
      invariant forall j :: i <= j < |es| ==> Less(e.key, es[j].key)
    {
      i := i - 1;
    }
    r := es[..i] + [e] + es[i..];
    Placed(es, e, i);
    NoneBelow(es, e, i, t);
    AboveIsNotBelow(es[i..], e, t);
    assert es == es[..i] + es[i..];
    InsertKeepsNonDecreasing(es[..i], e, es[i..]);
  }

  lemma Placed(es: seq<Entry>, e: Entry, i: nat)
    requires i <= |es|
    ensures multiset(es[..i] + [e] + es[i..]) == multiset(es) + multiset{e}
  {
    assert es == es[..i] + es[i..];
  }

  lemma NoneBelow(es: seq<Entry>, e: Entry, i: nat, t: DataType)
    requires NonDecreasing(es) && i <= |es| && (i > 0 ==> !Less(e.key, es[i - 1].key))
    requires e.key.IsKey(t) && forall x :: x in es ==> x.key.IsKey(t)
    ensures forall j :: 0 <= j < i ==> !Less(e.key, es[..i][j].key)
  {
    forall j | 0 <= j < i
      ensures !Less(e.key, es[..i][j].key)
    {
      NotBelow(es, e, i, j, t);
    }
  }

  lemma AboveIsNotBelow(u: seq<Entry>, e: Entry, t: DataType)
    requires e.key.IsKey(t) && forall x :: x in u ==> x.key.IsKey(t)
    requires forall j :: 0 <= j < |u| ==> Less(e.key, u[j].key)
    ensures forall j :: 0 <= j < |u| ==> !Less(u[j].key, e.key)
  {
    forall j | 0 <= j < |u|
      ensures !Less(u[j].key, e.key)
    {
      assert u[j] in u;
      CompareIsTotalOrder(e.key, u[j].key, t);
    }
  }

  lemma InsertKeepsNonDecreasing(l: seq<Entry>, e: Entry, r: seq<Entry>)
    requires NonDecreasing(l + r)
    requires forall j :: 0 <= j < |l| ==> !Less(e.key, l[j].key)
    requires forall j :: 0 <= j < |r| ==> !Less(r[j].key, e.key)
    ensures NonDecreasing(l + [e] + r)
  {
    var s, u := l + r, l + [e] + r;
    forall a, b | 0 <= a < b < |u|
      ensures !Less(u[b].key, u[a].key)
    {
      if a < |l| {
        assert u[a] == l[a] == s[a];
      } else if a > |l| {
        assert u[a] == s[a - 1];
      }
      if b < |l| {
        assert u[b] == s[b];
      } else if b > |l| {
        assert u[b] == r[b - |l| - 1] == s[b - 1];
      }
    }
  }

  lemma NotBelow(es: seq<Entry>, e: Entry, i: nat, a: nat, t: DataType)
    requires NonDecreasing(es) && e.key.IsKey(t) && forall x :: x in es ==> x.key.IsKey(t)
    requires a < i <= |es| && !Less(e.key, es[i - 1].key)
    ensures !Less(e.key, es[a].key)
  {
    assert es[a] in es && es[i - 1] in es;
    if a < i - 1 && Less(e.key, es[a].key) {
      CompareIsTotalOrder(es[i - 1].key, es[a].key, t);
      CompareIsTotalOrder(es[a].key, es[i - 1].key, t);
      if es[a].key != es[i - 1].key {
        LessTransitive(e.key, es[a].key, es[i - 1].key);
      }
    }
  }

  /** Sorting what is already strictly increasing changes nothing. */
  lemma SortKeepsOrdered(t: DataType, es: seq<Entry>, sorted: seq<Entry>)
    requires InOrder(t, es) && multiset(sorted) == multiset(es) && NonDecreasing(sorted)
    ensures sorted == es
  {
    assert forall e :: e in es ==> e.key.IsKey(t);
    KeysOfPermutation(es, sorted, t);
    DistinctPermutation(t, es, sorted);
    forall i, j | 0 <= i < j < |sorted|
      ensures Less(sorted[i].key, sorted[j].key)
    {
      assert sorted[i] in sorted && sorted[j] in sorted;
      CompareIsTotalOrder(sorted[i].key, sorted[j].key, t);
    }
    assert forall i :: 0 <= i < |sorted| ==> sorted[i] in sorted;
    OrderedUnique(t, es, sorted);
  }

  lemma {:induction false} DistinctPermutation(t: DataType, es: seq<Entry>, p: seq<Entry>)
    requires InOrder(t, es) && multiset(p) == multiset(es)
    ensures forall i, j :: 0 <= i < j < |p| ==> p[i].key != p[j].key
  {
    forall i, j | 0 <= i < j < |p|
      ensures p[i].key != p[j].key
    {
      assert p[i] in multiset(p) && p[j] in multiset(p);
      var a :| 0 <= a < |es| && es[a] == p[i];
      var b :| 0 <= b < |es| && es[b] == p[j];
      if p[i] == p[j] {
        TwiceInSequence(p, i, j);
        OnceInOrdered(t, es, a);
      } else if a < b {
        CompareIsTotalOrder(es[a].key, es[b].key, t);
      } else {
        CompareIsTotalOrder(es[b].key, es[a].key, t);
      }
    }
  }

  lemma TwiceInSequence(p: seq<Entry>, i: nat, j: nat)
    requires i < j < |p| && p[i] == p[j]
    ensures multiset(p)[p[i]] >= 2
  {
    assert p == p[..i] + [p[i]] + p[i + 1..j] + [p[j]] + p[j + 1..];
  }

  lemma OnceInOrdered(t: DataType, es: seq<Entry>, a: nat)
    requires InOrder(t, es) && a < |es|
    ensures multiset(es)[es[a]] == 1
  {
    var x, l, r := es[a], es[..a], es[a + 1..];
    assert es == l + [x] + r;
    forall i | 0 <= i < |l|
      ensures l[i] != x
    {
      assert l[i] == es[i];
      CompareIsTotalOrder(es[i].key, es[a].key, t);
    }
    forall i | 0 <= i < |r|
      ensures r[i] != x
    {
      assert r[i] == es[a + 1 + i];
      CompareIsTotalOrder(es[a].key, es[a + 1 + i].key, t);
    }
    assert x !in multiset(l) && x !in multiset(r);
  }

  /** There is only one way to list a set of entries in key order. */
  lemma {:induction false} OrderedUnique(t: DataType, a: seq<Entry>, b: seq<Entry>)
    requires InOrder(t, a) && InOrder(t, b) && multiset(a) == multiset(b)
    ensures a == b
  {
    hide InOrder;
    assert |multiset(a)| == |a| && |multiset(b)| == |b|;
    if a != [] {
      FirstIsLeast(t, a, b);
      var x := a[0];
      WithoutFirst(a);
      WithoutFirst(b);
      OrderedParts(t, [x], a[1..]);
      OrderedParts(t, [x], b[1..]);
      OrderedUnique(t, a[1..], b[1..]);
    }
  }

  lemma WithoutFirst(a: seq<Entry>)
    requires a != []
    ensures a == [a[0]] + a[1..] && multiset(a[1..]) == multiset(a) - multiset{a[0]}
  {
    assert a == [a[0]] + a[1..];
    assert multiset(a) == multiset([a[0]]) + multiset(a[1..]);
  }

  lemma FirstIsLeast(t: DataType, a: seq<Entry>, b: seq<Entry>)
    requires InOrder(t, a) && InOrder(t, b) && multiset(a) == multiset(b) && a != [] && b != []
    ensures a[0] == b[0]
  {
    assert a[0] in multiset(a) && b[0] in multiset(b);
    assert a[0] in b && b[0] in a;
    var i :| 0 <= i < |b| && b[i] == a[0];
    var j :| 0 <= j < |a| && a[j] == b[0];
    if i > 0 && j > 0 {
      assert Less(b[0].key, b[i].key) && Less(a[0].key, a[j].key);
      CompareIsTotalOrder(a[0].key, b[0].key, t);
    }
  }
}
