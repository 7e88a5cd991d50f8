/** The nodes of an index as `read_page` hands them to the tree code, with the
    byte arithmetic that decides overflow and underflow (disk_bsp_index.cpp). */
module Nodes {
  import opened Values

  const PAGE_SIZE := 4096
  const HEADER := 12
  const MIN_FILL := 12 + (PAGE_SIZE - 12) * 2 / 3
  const MAX_KEY_BYTES := 512
  /** Separators are counted in one byte on the page. */
  const MAX_SEPARATORS := 255

  type PageId = nat

  datatype Entry = Entry(key: Value, rid: nat)

  /** `Raw` is a page that is not a node, such as a freshly allocated one;
      `Super` is page 0. Page id 0 is therefore free to mean "no leaf". */
  datatype Page =
    | Raw
    | Super(root: PageId, first: PageId, count: nat)
    | Leaf(entries: seq<Entry>, next: PageId)
    | Inner(keys: seq<Value>, children: seq<PageId>)

  function EncodedSize(v: Value): (n: nat)
    ensures 1 <= n
  {
    match v
    case Null => 1
    case Int(_) => 9
    case Str(s) => 5 + |s|
  }

  function EntriesSize(es: seq<Entry>): nat {
    if es == [] then 0 else 2 + EncodedSize(es[0].key) + 8 + EntriesSize(es[1..])
  }

  function KeysSize(ks: seq<Value>): nat {
    if ks == [] then 0 else 2 + EncodedSize(ks[0]) + KeysSize(ks[1..])
  }

  function LeafBytes(es: seq<Entry>): nat {
    HEADER + EntriesSize(es)
  }

  function InnerBytes(ks: seq<Value>, childCount: nat): nat {
    HEADER + 4 * childCount + KeysSize(ks)
  }

  predicate LeafOverflow(es: seq<Entry>) {
    LeafBytes(es) > PAGE_SIZE
  }

  predicate LeafUnderflow(es: seq<Entry>) {
    es == [] || LeafBytes(es) < MIN_FILL
  }

  predicate InnerOverflow(ks: seq<Value>, children: seq<PageId>) {
    InnerBytes(ks, |children|) > PAGE_SIZE
  }

  predicate InnerUnderflow(ks: seq<Value>, children: seq<PageId>) {
    |children| <= 1 || InnerBytes(ks, |children|) < MIN_FILL
  }

  /** What `write_page` can store and `read_page` can give back. */
  predicate Fits(p: Page) {
    match p
    case Leaf(es, _) => !LeafOverflow(es)
    case Inner(ks, cs) => !InnerOverflow(ks, cs) && |ks| <= MAX_SEPARATORS
    case _ => true
  }

  /** What `write_page` puts on the page. The number of separators is not tested. */
  predicate InBytes(p: Page) {
    match p
    case Leaf(es, _) => !LeafOverflow(es)
    case Inner(ks, cs) => !InnerOverflow(ks, cs)
    case _ => true
  }

  /** What `read_page` makes of it. One separator too many wraps the count byte to
      zero, and only the first child is left; with more than that, bytes of children
      are taken for separators, of which nothing is claimed. */
  function Reread(p: Page): Page {
    if p.Inner? && |p.keys| > MAX_SEPARATORS then
      if |p.keys| == MAX_SEPARATORS + 1 && p.children != [] then Inner([], [p.children[0]]) else Raw
    else p
  }

  datatype Counts = Counts(first: nat, second: nat, third: nat)

  function ThreeWayCounts(total: nat): Counts {
    var first := (total + 2) / 3;
    var second := (total - first + 1) / 2;
    Counts(first, second, total - first - second)
  }

  /** A sequence cut into three by `three_way_counts`. */
  function ThreeShares<T>(s: seq<T>): (r: (seq<T>, seq<T>, seq<T>))
    ensures r.0 + r.1 + r.2 == s
    ensures |s| >= 3 ==> r.0 != [] && r.1 != [] && r.2 != [] && r.0[0] == s[0]
    ensures |r.2| <= |r.1| <= |r.0| <= |r.2| + 1
  {
    var c := ThreeWayCounts(|s|);
    (s[..c.first], s[c.first..c.first + c.second], s[c.first + c.second..])
  }

  // ---- sizes of sequences of keys ----

  predicate SmallKeys(es: seq<Entry>) {
    forall i :: 0 <= i < |es| ==> EncodedSize(es[i].key) <= MAX_KEY_BYTES
  }

  lemma {:induction false} EntriesSizeAppend(a: seq<Entry>, b: seq<Entry>)
    ensures EntriesSize(a + b) == EntriesSize(a) + EntriesSize(b)
  {
    if a == [] {
      assert a + b == b;
    } else {
      assert (a + b)[1..] == a[1..] + b;
      EntriesSizeAppend(a[1..], b);
    }
  }

  lemma {:induction false} KeysSizeAppend(a: seq<Value>, b: seq<Value>)
    ensures KeysSize(a + b) == KeysSize(a) + KeysSize(b)
  {
    if a == [] {
      assert a + b == b;
    } else {
      assert (a + b)[1..] == a[1..] + b;
      KeysSizeAppend(a[1..], b);
    }
  }

  lemma {:induction false} EntriesSizeBound(es: seq<Entry>)
    requires SmallKeys(es)
    ensures EntriesSize(es) <= |es| * 522
  {
    if es != [] {
      EntriesSizeBound(es[1..]);
    }
  }

  lemma {:induction false} KeysSizeBound(ks: seq<Value>)
    requires forall i :: 0 <= i < |ks| ==> EncodedSize(ks[i]) <= MAX_KEY_BYTES
    ensures KeysSize(ks) <= |ks| * 514
  {
    if ks != [] {
      KeysSizeBound(ks[1..]);
    }
  }

  /** With keys of at most 512 bytes an overflowing leaf has at least eight
      entries, and a leaf that is not underfull at least six. */
  lemma LeafCountFromBytes(es: seq<Entry>)
    requires SmallKeys(es)
    ensures LeafOverflow(es) ==> |es| >= 8
    ensures !LeafUnderflow(es) ==> |es| >= 6
  {
    EntriesSizeBound(es);
  }

  lemma NotUnderfull(es: seq<Entry>)
    ensures !LeafUnderflow(es) ==> es != []
  {
  }

  lemma LeafFits(next: PageId)
    ensures Fits(Leaf([], next))
  {
  }

  lemma OneEntryFits(e: Entry)
    requires EncodedSize(e.key) <= MAX_KEY_BYTES
    ensures SmallKeys([e]) && Fits(Leaf([e], 0))
  {
    EntriesSizeBound([e]);
  }

  lemma InnerCountFromBytes(ks: seq<Value>, children: seq<PageId>)
    requires |ks| + 1 == |children|
    requires forall i :: 0 <= i < |ks| ==> EncodedSize(ks[i]) <= MAX_KEY_BYTES
    ensures InnerOverflow(ks, children) ==> |children| >= 8
    ensures !InnerUnderflow(ks, children) ==> |children| >= 7
  {
    KeysSizeBound(ks);
  }

  /** A node that overflows still overflows after it has been given more, so
      the attempts to relieve an overflowing node by moving a neighbour's entry
      or child into it (`try_give_to_left_leaf` and both
      `try_redistribute_internal_with_*`) always answer false. */
  lemma GainingKeepsOverflow(es: seq<Entry>, e: Entry, ks: seq<Value>, before: seq<Value>, after: seq<Value>,
                             children: seq<PageId>, more: seq<PageId>)
    requires |more| > |children|
    ensures LeafOverflow(es) ==> LeafOverflow([e] + es)
    ensures InnerOverflow(ks, children) ==> InnerOverflow(before + ks + after, more)
  {
    EntriesSizeAppend([e], es);
    KeysSizeAppend(before + ks, after);
    KeysSizeAppend(before, ks);
  }

  /** Byte test and count byte agree once every separator takes ten bytes. */
  lemma {:induction false} KeysSizeAtLeast(ks: seq<Value>, n: nat)
    requires forall i :: 0 <= i < |ks| ==> EncodedSize(ks[i]) >= n
    ensures KeysSize(ks) >= |ks| * (2 + n)
  {
    if ks != [] {
      KeysSizeAtLeast(ks[1..], n);
      assert |ks| * (2 + n) == (2 + n) + |ks[1..]| * (2 + n);
    }
  }

  /** Every key takes ten bytes or more. */
  predicate AtLeastTen(es: seq<Entry>) {
    forall i :: 0 <= i < |es| ==> EncodedSize(es[i].key) >= 10
  }

  lemma TenByteSeparatorsAreCounted(ks: seq<Value>, children: seq<PageId>)
    requires |ks| + 1 == |children|
    requires forall i :: 0 <= i < |ks| ==> EncodedSize(ks[i]) >= 10
    requires !InnerOverflow(ks, children)
    ensures |ks| <= MAX_SEPARATORS
  {
    KeysSizeAtLeast(ks, 10);
  }

  // ---- integer keys ----

  const INTS_PER_LEAF := 214
  /** A leaf of integers with fewer entries is too small. */
  const INTS_AT_MIN_FILL := 144

  /** An inner node of integer separators with fewer children is too small. */
  const INT_CHILDREN_AT_MIN_FILL := 183

  predicate AllInts(es: seq<Entry>) {
    forall i :: 0 <= i < |es| ==> es[i].key.Int?
  }

  predicate AllIntKeys(ks: seq<Value>) {
    forall i :: 0 <= i < |ks| ==> ks[i].Int?
  }

  lemma {:induction false} IntsSize(es: seq<Entry>)
    requires AllInts(es)
    ensures EntriesSize(es) == 19 * |es|
  {
    if es != [] {
      IntsSize(es[1..]);
    }
  }

  lemma {:induction false} IntKeysSize(ks: seq<Value>)
    requires AllIntKeys(ks)
    ensures KeysSize(ks) == 11 * |ks|
  {
    if ks != [] {
      IntKeysSize(ks[1..]);
    }
  }

  /** Leaves of integers overflow above 214 entries and are too small below 144. */
  lemma IntLeafLimits(es: seq<Entry>)
    requires AllInts(es)
    ensures LeafOverflow(es) <==> |es| > INTS_PER_LEAF
    ensures LeafUnderflow(es) <==> |es| < INTS_AT_MIN_FILL
  {
    IntsSize(es);
  }

  /** An inner node of integer separators can be stored up to 256 children, one more
      still passes the byte test but not the count byte; below 183 it is too small. */
  lemma IntInnerLimits(ks: seq<Value>, cs: seq<PageId>)
    requires AllIntKeys(ks) && |cs| == |ks| + 1
    ensures Fits(Inner(ks, cs)) <==> |cs| <= MAX_SEPARATORS + 1
    ensures |cs| <= MAX_SEPARATORS + 2 ==> !InnerOverflow(ks, cs)
    ensures InnerUnderflow(ks, cs) <==> |cs| < INT_CHILDREN_AT_MIN_FILL
  {
    IntKeysSize(ks);
  }

  // ---- keys of equal size ----

  predicate EqualSized(es: seq<Entry>, w: nat) {
    forall i :: 0 <= i < |es| ==> EncodedSize(es[i].key) == w
  }

  /** How many entries with keys of w bytes a leaf holds. */
  function LeafCapacity(w: nat): nat {
    (PAGE_SIZE - HEADER) / (10 + w)
  }

  lemma {:induction false} EqualEntriesSize(es: seq<Entry>, w: nat)
    requires EqualSized(es, w)
    ensures EntriesSize(es) == |es| * (10 + w)
  {
    if es != [] {
      EqualEntriesSize(es[1..], w);
      assert |es| * (10 + w) == (10 + w) + |es[1..]| * (10 + w);
    }
  }

  lemma WithinCapacity(es: seq<Entry>, w: nat)
    requires EqualSized(es, w)
    ensures LeafOverflow(es) <==> |es| > LeafCapacity(w)
  {
    var p, cap := 10 + w, LeafCapacity(w);
    EqualEntriesSize(es, w);
    assert cap * p <= PAGE_SIZE - HEADER < (cap + 1) * p;
    if |es| <= cap {
      MultiplyMonotone(|es|, cap, p);
    } else {
      MultiplyMonotone(cap + 1, |es|, p);
    }
  }

  lemma MultiplyMonotone(a: nat, b: nat, p: nat)
    requires a <= b
    ensures a * p <= b * p
  {
  }

  /** With equal-size keys, two leaves of which one has overflowed by one entry
      always make three: no share is empty, none overflows, and none has fewer
      entries than a third of them, rounded down. */
  lemma EqualSharesFit(es: seq<Entry>, w: nat)
    requires EqualSized(es, w) && w <= MAX_KEY_BYTES && 3 <= |es| <= 2 * LeafCapacity(w) + 1
    ensures var (a, b, c) := ThreeShares(es);
            && a + b + c == es && a != [] && b != [] && c != []
            && |a| >= |es| / 3 && |b| >= |es| / 3 && |c| >= |es| / 3
            && !LeafOverflow(a) && !LeafOverflow(b) && !LeafOverflow(c)
  {
    var (a, b, c) := ThreeShares(es);
    var n := ThreeWayCounts(|es|);
    assert a == es[..n.first] && b == es[n.first..n.first + n.second] && c == es[n.first + n.second..];
    CapacityIsThree(w);
    WithinCapacity(a, w);
    WithinCapacity(b, w);
    WithinCapacity(c, w);
  }

  lemma CapacityIsThree(w: nat)
    requires w <= MAX_KEY_BYTES
    ensures LeafCapacity(w) >= 3
  {
    if LeafCapacity(w) < 3 {
      MultiplyMonotone(LeafCapacity(w) + 1, 3, 10 + w);
    }
  }

  lemma IntSharesFit(es: seq<Entry>)
    requires AllInts(es) && 3 <= |es| <= 2 * INTS_PER_LEAF + 1
    ensures var (a, b, c) := ThreeShares(es);
            && |a| >= |es| / 3 && |b| >= |es| / 3 && |c| >= |es| / 3
            && !LeafOverflow(a) && !LeafOverflow(b) && !LeafOverflow(c)
  {
    EqualSharesFit(es, 9);
  }
}
