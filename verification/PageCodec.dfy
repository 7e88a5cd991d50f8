/** How nodes and the superblock are laid out in 4096 bytes (`read_page`,
    `write_page` and `write_superblock` of disk_bsp_index.cpp). */
module PageCodec {
  import opened Outcomes
  import opened Values
  import opened Nodes
  import opened Ordered
  import opened KeyCodec
  import opened PageCache

  const PAGE_MAGIC := 0x50414745
  const INDEX_MAGIC := 0x49445842
  const INDEX_VERSION := 1

  // ---- layout ----

  function EntryImage(e: Entry): (b: seq<byte>)
    ensures |b| == 2 + EncodedSize(e.key) + 8
  {
    LittleEndian(EncodedSize(e.key), 2) + Encoding(e.key) + LittleEndian(e.rid, 8)
  }

  function EntriesImage(es: seq<Entry>): (b: seq<byte>)
    ensures |b| == EntriesSize(es)
  {
    if es == [] then [] else EntryImage(es[0]) + EntriesImage(es[1..])
  }

  function KeyImage(k: Value): (b: seq<byte>)
    ensures |b| == 2 + EncodedSize(k)
  {
    LittleEndian(EncodedSize(k), 2) + Encoding(k)
  }

  function KeysImage(ks: seq<Value>): (b: seq<byte>)
    ensures |b| == KeysSize(ks)
  {
    if ks == [] then [] else KeyImage(ks[0]) + KeysImage(ks[1..])
  }

  function ChildrenImage(cs: seq<PageId>): (b: seq<byte>)
    ensures |b| == 4 * |cs|
  {
    if cs == [] then [] else LittleEndian(cs[0], 4) + ChildrenImage(cs[1..])
  }

  /** Magic, node type, a count in one byte, and the next leaf. */
  function HeaderImage(kind: byte, count: nat, next: PageId): (b: seq<byte>)
    ensures |b| == HEADER
  {
    LittleEndian(PAGE_MAGIC, 4) + [kind, count % 256, 0, 0] + LittleEndian(next, 4)
  }

  function Padded(b: seq<byte>): (p: PageBytes)
    requires |b| <= PAGE_SIZE
  {
    b + seq(PAGE_SIZE - |b|, i => 0)
  }

  function Image(p: Page): PageBytes
    requires InBytes(p)
  {
    match p
    case Raw => ZeroPage()
    case Super(root, first, count) =>
      Padded(LittleEndian(INDEX_MAGIC, 4) + LittleEndian(INDEX_VERSION, 4)
             + LittleEndian(root, 4) + LittleEndian(first, 4) + LittleEndian(count, 8))
    case Leaf(es, next) => Padded(HeaderImage(1, |es|, next) + EntriesImage(es))
    case Inner(ks, cs) => Padded(HeaderImage(2, |ks|, 0) + ChildrenImage(cs) + KeysImage(ks))
  }

  // ---- parsing ----

  /** n leaf entries; parsing stops early when no entry can follow any more. */
  function ParseEntries(data: seq<byte>, n: nat): (r: Result<seq<Entry>>)
    ensures r.Ok? ==> |r.value| <= n
    decreases n
  {
    if n == 0 || |data| < 10 then Ok([])
    else
      var size := Number(data[..2]);
      if |data| < 2 + size + 8 then Throw(CorruptPage)
      else
        var d :- DecodeValue(data[2..2 + size]);
        var rest :- ParseEntries(data[2 + size + 8..], n - 1);
        Ok([Entry(d.value, Number(data[2 + size..2 + size + 8]))] + rest)
  }

  function ParseKeys(data: seq<byte>, n: nat): (r: Result<seq<Value>>)
    ensures r.Ok? ==> |r.value| == n
    decreases n
  {
    if n == 0 then Ok([])
    else if |data| < 2 then Throw(CorruptPage)
    else
      var size := Number(data[..2]);
      if |data| < 2 + size then Throw(CorruptPage)
      else
        var d :- DecodeValue(data[2..2 + size]);
        var rest :- ParseKeys(data[2 + size..], n - 1);
        Ok([d.value] + rest)
  }

  function ParseChildren(data: seq<byte>, n: nat): (cs: seq<PageId>)
    requires 4 * n <= |data|
    ensures |cs| == n
    decreases n
  {
    if n == 0 then [] else [Number(data[..4])] + ParseChildren(data[4..], n - 1)
  }

  /** The node, superblock or raw page that 4096 bytes stand for. */
  function Parse(raw: PageBytes): Page {
    var magic := Number(raw[..4]);
    if magic == PAGE_MAGIC then
      var next, body := Number(raw[8..12]), raw[12..];
      if raw[4] == 1 then
        var es := ParseEntries(body, raw[5]);
        if es.Ok? then Leaf(es.value, next) else Raw
      else
        var n: nat := raw[5];
        var ks := ParseKeys(body[4 * (n + 1)..], n);
        if ks.Ok? then Inner(ks.value, ParseChildren(body, n + 1)) else Raw
    else if magic == INDEX_MAGIC && Number(raw[4..8]) == INDEX_VERSION then
      Super(Number(raw[8..12]), Number(raw[12..16]), Number(raw[16..24]))
    else Raw
  }

  // ---- round trips ----

  /** Page ids fit 32 bits and record ids and counts 64. */
  predicate Numbered(p: Page) {
    match p
    case Raw => true
    case Super(root, first, count) =>
      root < 0x1_0000_0000 && first < 0x1_0000_0000 && count < 0x1_0000_0000_0000_0000
    case Leaf(es, next) =>
      next < 0x1_0000_0000 && forall i :: 0 <= i < |es| ==> es[i].rid < 0x1_0000_0000_0000_0000
    case Inner(ks, cs) =>
      |cs| == |ks| + 1 && forall i :: 0 <= i < |cs| ==> cs[i] < 0x1_0000_0000
  }

  /** A number laid down between two stretches of bytes is read back from there. */
  lemma NumberAt(a: seq<byte>, n: nat, w: nat, b: seq<byte>)
    requires n < Power(w)
    ensures Number((a + LittleEndian(n, w) + b)[|a|..|a| + w]) == n
  {
    hide Number, LittleEndian, Power;
    NumberOfLittleEndian(n, w);
    assert (a + LittleEndian(n, w) + b)[|a|..|a| + w] == LittleEndian(n, w);
  }

  lemma KeyImageParses(k: Value, rest: seq<byte>)
    requires EncodedSize(k) <= PAGE_SIZE
    ensures var data := KeyImage(k) + rest;
            && Number(data[..2]) == EncodedSize(k)
            && DecodeValue(data[2..2 + EncodedSize(k)]) == Ok(Decoded(k, EncodedSize(k)))
            && data[2 + EncodedSize(k)..] == rest
  {
    hide Number, LittleEndian, Power, Encoding, DecodeValue;
    var data, size := KeyImage(k) + rest, EncodedSize(k);
    Powers();
    NumberAt([], size, 2, Encoding(k) + rest);
    assert data == [] + LittleEndian(size, 2) + (Encoding(k) + rest);
    assert data[2..2 + size] == Encoding(k) + [];
    DecodeEncoding(k, []);
  }

  lemma EntryImageParses(e: Entry, rest: seq<byte>)
    requires EncodedSize(e.key) <= PAGE_SIZE && e.rid < 0x1_0000_0000_0000_0000
    ensures var data, size := EntryImage(e) + rest, EncodedSize(e.key);
            && Number(data[..2]) == size
            && DecodeValue(data[2..2 + size]) == Ok(Decoded(e.key, size))
            && Number(data[2 + size..2 + size + 8]) == e.rid
            && data[2 + size + 8..] == rest
  {
    hide Number, LittleEndian, Power, Encoding, DecodeValue, EncodedSize;
    var data, size := EntryImage(e) + rest, EncodedSize(e.key);
    var tail := LittleEndian(e.rid, 8) + rest;
    assert data == KeyImage(e.key) + tail;
    KeyImageParses(e.key, tail);
    Powers();
    NumberAt(KeyImage(e.key), e.rid, 8, rest);
    assert data == KeyImage(e.key) + LittleEndian(e.rid, 8) + rest;
  }

  lemma {:induction false} EntriesRoundTrip(es: seq<Entry>, rest: seq<byte>)
    requires EntriesSize(es) <= PAGE_SIZE && forall i :: 0 <= i < |es| ==> es[i].rid < 0x1_0000_0000_0000_0000
    ensures ParseEntries(EntriesImage(es) + rest, |es|) == Ok(es)
  {
    hide Number, LittleEndian, Encoding, DecodeValue, EncodedSize, EntryImage;
    if es != [] {
      var tail := EntriesImage(es[1..]) + rest;
      assert EntriesImage(es) + rest == EntryImage(es[0]) + tail;
      EntryImageParses(es[0], tail);
      EntriesRoundTrip(es[1..], rest);
      assert [es[0]] + es[1..] == es;
    }
  }

  lemma {:induction false} KeysRoundTrip(ks: seq<Value>, rest: seq<byte>)
    requires KeysSize(ks) <= PAGE_SIZE
    ensures ParseKeys(KeysImage(ks) + rest, |ks|) == Ok(ks)
  {
    hide Number, LittleEndian, Encoding, DecodeValue, EncodedSize, KeyImage;
    if ks != [] {
      var tail := KeysImage(ks[1..]) + rest;
      assert KeysImage(ks) + rest == KeyImage(ks[0]) + tail;
      KeyImageParses(ks[0], tail);
      KeysRoundTrip(ks[1..], rest);
      assert [ks[0]] + ks[1..] == ks;
    }
  }

  lemma {:induction false} ChildrenRoundTrip(cs: seq<PageId>, rest: seq<byte>)
    requires forall i :: 0 <= i < |cs| ==> cs[i] < 0x1_0000_0000
    ensures ParseChildren(ChildrenImage(cs) + rest, |cs|) == cs
  {
    hide Number, LittleEndian, Power;
    if cs != [] {
      var tail := ChildrenImage(cs[1..]) + rest;
      assert ChildrenImage(cs) + rest == LittleEndian(cs[0], 4) + tail;
      ChildParses(cs[0], tail);
      ChildrenRoundTrip(cs[1..], rest);
      assert [cs[0]] + cs[1..] == cs;
    }
  }

  lemma ChildParses(c: PageId, tail: seq<byte>)
    requires c < 0x1_0000_0000
    ensures var data := LittleEndian(c, 4) + tail; Number(data[..4]) == c && data[4..] == tail
  {
    hide Number, LittleEndian, Power;
    Powers();
    NumberAt([], c, 4, tail);
    assert LittleEndian(c, 4) + tail == [] + LittleEndian(c, 4) + tail;
  }

  lemma HeaderParses(kind: byte, count: nat, next: PageId, rest: seq<byte>)
    requires next < 0x1_0000_0000
    ensures var raw := HeaderImage(kind, count, next) + rest;
            && Number(raw[..4]) == PAGE_MAGIC && raw[4] == kind && raw[5] == count % 256
            && Number(raw[8..12]) == next && raw[12..] == rest
  {
    hide Number, LittleEndian, Power;
    var raw := HeaderImage(kind, count, next) + rest;
    var mid: seq<byte> := [kind, count % 256, 0, 0];
    Powers();
    NumberAt([], PAGE_MAGIC, 4, mid + LittleEndian(next, 4) + rest);
    NumberAt(LittleEndian(PAGE_MAGIC, 4) + mid, next, 4, rest);
    ThreeFields(LittleEndian(PAGE_MAGIC, 4), mid, LittleEndian(next, 4), rest);
  }

  lemma ThreeFields(a: seq<byte>, b: seq<byte>, c: seq<byte>, rest: seq<byte>)
    ensures a + b + c + rest == [] + a + (b + c + rest)
    ensures (a + b + c + rest)[|a| + |b| + |c|..] == rest
    ensures forall i :: 0 <= i < |b| ==> (a + b + c + rest)[|a| + i] == b[i]
  {
  }

  lemma LeafRoundTrip(es: seq<Entry>, next: PageId)
    requires !LeafOverflow(es) && Numbered(Leaf(es, next))
    ensures Parse(Image(Leaf(es, next))) == Leaf(es, next) <==> |es| <= 255
  {
    hide Number, LittleEndian, HeaderImage, EntriesImage, ParseEntries, ParseKeys, ParseChildren, EntriesSize;
    var pad: seq<byte> := seq(PAGE_SIZE - HEADER - EntriesSize(es), i => 0);
    var body := EntriesImage(es) + pad;
    var raw := Image(Leaf(es, next));
    assert raw == HeaderImage(1, |es|, next) + body;
    HeaderParses(1, |es|, next, body);
    EntriesRoundTrip(es, pad);
  }

  lemma InnerRoundTrip(ks: seq<Value>, cs: seq<PageId>)
    requires !InnerOverflow(ks, cs) && Numbered(Inner(ks, cs))
    ensures Parse(Image(Inner(ks, cs))) == Inner(ks, cs) <==> |ks| <= MAX_SEPARATORS
  {
    hide Number, LittleEndian, HeaderImage, ChildrenImage, KeysImage, ParseEntries, ParseKeys, ParseChildren, KeysSize;
    var pad: seq<byte> := seq(PAGE_SIZE - InnerBytes(ks, |cs|), i => 0);
    var body := ChildrenImage(cs) + (KeysImage(ks) + pad);
    var raw := Image(Inner(ks, cs));
    assert raw == HeaderImage(2, |ks|, 0) + body;
    HeaderParses(2, |ks|, 0, body);
    if |ks| <= MAX_SEPARATORS {
      assert body[4 * |cs|..] == KeysImage(ks) + pad;
      KeysRoundTrip(ks, pad);
      ChildrenRoundTrip(cs, KeysImage(ks) + pad);
    }
  }

  lemma SuperRoundTrip(root: PageId, first: PageId, count: nat)
    requires Numbered(Super(root, first, count))
    ensures Parse(Image(Super(root, first, count))) == Super(root, first, count)
  {
    hide Number, LittleEndian, Power, ParseEntries, ParseKeys, ParseChildren;
    var raw := Image(Super(root, first, count));
    var a, b, c, d, e := LittleEndian(INDEX_MAGIC, 4), LittleEndian(INDEX_VERSION, 4), LittleEndian(root, 4),
                         LittleEndian(first, 4), LittleEndian(count, 8);
    var pad: seq<byte> := seq(PAGE_SIZE - 24, i => 0);
    Powers();
    NumberAt([], INDEX_MAGIC, 4, b + c + d + e + pad);
    NumberAt(a, INDEX_VERSION, 4, c + d + e + pad);
    NumberAt(a + b, root, 4, d + e + pad);
    NumberAt(a + b + c, first, 4, e + pad);
    NumberAt(a + b + c + d, count, 8, pad);
    FiveFields(a, b, c, d, e, pad);
  }

  lemma FiveFields(a: seq<byte>, b: seq<byte>, c: seq<byte>, d: seq<byte>, e: seq<byte>, pad: seq<byte>)
    ensures var raw := a + b + c + d + e + pad;
            && raw == [] + a + (b + c + d + e + pad)
            && raw == a + b + (c + d + e + pad)
            && raw == (a + b) + c + (d + e + pad)
            && raw == (a + b + c) + d + (e + pad)
            && raw == (a + b + c + d) + e + pad
  {
  }

  lemma ZeroPageIsRaw()
    ensures Parse(ZeroPage()) == Raw
  {
    var z := ZeroPage();
    assert z[..4] == [0, 0, 0, 0];
    assert Number([0]) == 0;
    assert Number([0, 0]) == 0 by { assert [0, 0][1..] == [0]; }
    assert Number([0, 0, 0]) == 0 by { assert [0, 0, 0][1..] == [0, 0]; }
    assert Number([0, 0, 0, 0]) == 0 by { assert [0, 0, 0, 0][1..] == [0, 0, 0]; }
  }

  /** What number of nodes the count byte can tell. */
  predicate Countable(p: Page) {
    match p
    case Leaf(es, _) => |es| <= 255
    case Inner(ks, _) => |ks| <= MAX_SEPARATORS
    case _ => true
  }

  /** Reading back a written page restores it exactly when its count fits the
      count byte. */
  lemma PageRoundTrip(p: Page)
    requires InBytes(p) && Numbered(p)
    ensures Parse(Image(p)) == p <==> Countable(p)
  {
    match p
    case Raw => ZeroPageIsRaw();
    case Super(root, first, count) => SuperRoundTrip(root, first, count);
    case Leaf(es, next) => LeafRoundTrip(es, next);
    case Inner(ks, cs) => InnerRoundTrip(ks, cs);
  }

  // ---- where the bytes are ----

  /** The first twelve bytes of a node: 45 47 41 50, the kind, the count, two zeros and
      the next leaf. */
  lemma HeaderBytes(kind: byte, count: nat, next: PageId, rest: seq<byte>)
    ensures var p := HeaderImage(kind, count, next) + rest;
            && p[..8] == [0x45, 0x47, 0x41, 0x50, kind, count % 256, 0, 0] && HasNumber(p, 8, 4, next)
  {
    hide HasNumber, Power;
    var m := LittleEndian(PAGE_MAGIC, 4);
    MagicBytes();
    NumberIsThere(m + [kind, count % 256, 0, 0], next, 4, rest);
  }

  lemma MagicBytes()
    ensures LittleEndian(PAGE_MAGIC, 4) == [0x45, 0x47, 0x41, 0x50]
    ensures LittleEndian(INDEX_MAGIC, 4) == [0x42, 0x58, 0x44, 0x49]
    ensures LittleEndian(INDEX_VERSION, 4) == [1, 0, 0, 0]
  {
    assert LittleEndian(0x50, 1) == [0x50] && LittleEndian(0x49, 1) == [0x49] && LittleEndian(0, 1) == [0];
    assert LittleEndian(0x5041, 2) == [0x41, 0x50] && LittleEndian(0x4944, 2) == [0x44, 0x49] && LittleEndian(0, 2) == [0, 0];
    assert LittleEndian(0x504147, 3) == [0x47, 0x41, 0x50] && LittleEndian(0x494458, 3) == [0x58, 0x44, 0x49];
    assert LittleEndian(0, 3) == [0, 0, 0];
  }

  /** The size of the key in two bytes, the key, and the record id in eight. */
  ghost predicate EntryIsAt(p: seq<byte>, at: nat, e: Entry) {
    var size := EncodedSize(e.key);
    HasNumber(p, at, 2, size) && at + 2 + size <= |p| && p[at + 2..at + 2 + size] == Encoding(e.key)
    && HasNumber(p, at + 2 + size, 8, e.rid)
  }

  /** Entry k of a leaf begins where the entries before it end. */
  lemma LeafBytesAt(es: seq<Entry>, next: PageId, k: nat)
    requires k < |es| && !LeafOverflow(es)
    ensures var p := Image(Leaf(es, next));
            && p[..8] == [0x45, 0x47, 0x41, 0x50, 1, |es| % 256, 0, 0] && HasNumber(p, 8, 4, next)
            && EntryIsAt(p, HEADER + EntriesSize(es[..k]), es[k])
  {
    hide LittleEndian, Encoding, EncodedSize, EntriesImage, EntriesSize, HeaderImage, HasNumber, EntryIsAt;
    var pad: seq<byte> := seq(PAGE_SIZE - HEADER - EntriesSize(es), i => 0);
    var head := HeaderImage(1, |es|, next);
    HeaderBytes(1, |es|, next, EntriesImage(es) + pad);
    EntryAt(head, es, k, pad);
    assert Image(Leaf(es, next)) == head + (EntriesImage(es) + pad);
    assert head + (EntriesImage(es) + pad) == head + EntriesImage(es) + pad;
  }

  lemma EntryAt(front: seq<byte>, es: seq<Entry>, k: nat, pad: seq<byte>)
    requires k < |es|
    ensures EntryIsAt(front + EntriesImage(es) + pad, |front| + EntriesSize(es[..k]), es[k])
  {
    hide EntryIsAt, EncodedSize, EntriesImage, EntryImage, EntriesSize;
    var before, after := EntriesImage(es[..k]), EntriesImage(es[k + 1..]);
    EntriesAround(es, k);
    FiveRegrouped(front, before, EntryImage(es[k]), after, pad);
    EntryThere(front + before, es[k], after + pad);
  }

  lemma EntryThere(front: seq<byte>, e: Entry, rest: seq<byte>)
    ensures EntryIsAt(front + EntryImage(e) + rest, |front|, e)
  {
    hide LittleEndian, Encoding, EncodedSize, HasNumber;
    var key, rid := KeyImage(e.key), LittleEndian(e.rid, 8);
    KeyThere(front, e.key, rid + rest);
    NumberIsThere(front + key, e.rid, 8, rest);
    assert EntryImage(e) == key + rid;
    Regrouped(front, key, rid, rest);
  }

  lemma Regrouped(a: seq<byte>, b: seq<byte>, c: seq<byte>, d: seq<byte>)
    ensures a + (b + c) + d == a + b + (c + d) && a + (b + c) + d == (a + b) + c + d
  {
  }

  lemma EntriesAround(es: seq<Entry>, k: nat)
    requires k < |es|
    ensures EntriesImage(es) == EntriesImage(es[..k]) + (EntryImage(es[k]) + EntriesImage(es[k + 1..]))
  {
    hide EntryImage;
    assert es == es[..k] + es[k..];
    EntriesImageAppend(es[..k], es[k..]);
    assert es[k..][1..] == es[k + 1..];
  }

  /** The children of an inner node follow the header, four bytes each, and the
      separators follow the children, each behind its size in two bytes. */
  lemma InnerBytesAt(ks: seq<Value>, cs: seq<PageId>, c: nat, k: nat)
    requires c < |cs| && k < |ks| && !InnerOverflow(ks, cs)
    ensures var p, at, size := Image(Inner(ks, cs)), HEADER + 4 * |cs| + KeysSize(ks[..k]), EncodedSize(ks[k]);
            && p[..8] == [0x45, 0x47, 0x41, 0x50, 2, |ks| % 256, 0, 0] && HasNumber(p, HEADER + 4 * c, 4, cs[c])
            && at + 2 + size <= InnerBytes(ks, |cs|) <= PAGE_SIZE
            && HasNumber(p, at, 2, size) && p[at + 2..at + 2 + size] == Encoding(ks[k])
  {
    hide LittleEndian, Encoding, EncodedSize, ChildrenImage, KeysImage, KeysSize, HeaderImage, HasNumber;
    var head, children, keys := HeaderImage(2, |ks|, 0), ChildrenImage(cs), KeysImage(ks);
    var pad: seq<byte> := seq(PAGE_SIZE - InnerBytes(ks, |cs|), i => 0);
    var p := Image(Inner(ks, cs));
    assert p == head + (children + keys + pad);
    HeaderBytes(2, |ks|, 0, children + keys + pad);
    ChildAt(head, cs, c, keys + pad);
    SeparatorAt(head + children, ks, k, pad);
    assert p == head + children + keys + pad && p == head + children + (keys + pad);
  }

  lemma ChildrenAround(cs: seq<PageId>, c: nat)
    requires c < |cs|
    ensures ChildrenImage(cs) == ChildrenImage(cs[..c]) + (LittleEndian(cs[c], 4) + ChildrenImage(cs[c + 1..]))
  {
    hide LittleEndian;
    assert cs == cs[..c] + cs[c..];
    ChildrenImageAppend(cs[..c], cs[c..]);
    assert cs[c..][1..] == cs[c + 1..];
  }

  lemma ChildAt(front: seq<byte>, cs: seq<PageId>, c: nat, rest: seq<byte>)
    requires c < |cs|
    ensures HasNumber(front + ChildrenImage(cs) + rest, |front| + 4 * c, 4, cs[c])
  {
    hide LittleEndian, HasNumber, ChildrenImage;
    var before, after := ChildrenImage(cs[..c]), ChildrenImage(cs[c + 1..]);
    ChildrenAround(cs, c);
    FiveRegrouped(front, before, LittleEndian(cs[c], 4), after, rest);
    NumberIsThere(front + before, cs[c], 4, after + rest);
  }

  lemma SeparatorAt(front: seq<byte>, ks: seq<Value>, k: nat, pad: seq<byte>)
    requires k < |ks|
    ensures var p, at, size := front + KeysImage(ks) + pad, |front| + KeysSize(ks[..k]), EncodedSize(ks[k]);
            && at + 2 + size <= |front| + KeysSize(ks)
            && HasNumber(p, at, 2, size) && p[at + 2..at + 2 + size] == Encoding(ks[k])
  {
    hide LittleEndian, Encoding, EncodedSize, KeysImage, KeyImage, KeysSize, HasNumber;
    var before, after := KeysImage(ks[..k]), KeysImage(ks[k + 1..]);
    KeysAround(ks, k);
    FiveRegrouped(front, before, KeyImage(ks[k]), after, pad);
    KeyThere(front + before, ks[k], after + pad);
  }

  lemma KeyThere(front: seq<byte>, key: Value, rest: seq<byte>)
    ensures var p, at, size := front + KeyImage(key) + rest, |front|, EncodedSize(key);
            HasNumber(p, at, 2, size) && p[at + 2..at + 2 + size] == Encoding(key)
  {
    hide LittleEndian, Encoding, EncodedSize, HasNumber;
    NumberIsThere(front, EncodedSize(key), 2, Encoding(key) + rest);
    assert front + KeyImage(key) + rest == front + LittleEndian(EncodedSize(key), 2) + (Encoding(key) + rest);
  }

  lemma FiveRegrouped(a: seq<byte>, b: seq<byte>, c: seq<byte>, d: seq<byte>, e: seq<byte>)
    ensures a + (b + (c + d)) + e == (a + b) + c + (d + e)
  {
  }

  lemma KeysAround(ks: seq<Value>, k: nat)
    requires k < |ks|
    ensures KeysImage(ks) == KeysImage(ks[..k]) + (KeyImage(ks[k]) + KeysImage(ks[k + 1..]))
  {
    hide KeyImage;
    assert ks == ks[..k] + ks[k..];
    KeysImageAppend(ks[..k], ks[k..]);
    assert ks[k..][1..] == ks[k + 1..];
  }

  /** The superblock: 42 58 44 49, version 1, root, first leaf and size. */
  lemma SuperBytesAt(root: PageId, first: PageId, count: nat)
    ensures var p := Image(Super(root, first, count));
            && p[..8] == [0x42, 0x58, 0x44, 0x49, 1, 0, 0, 0]
            && HasNumber(p, 8, 4, root) && HasNumber(p, 12, 4, first) && HasNumber(p, 16, 8, count)
  {
    hide LittleEndian, HasNumber;
    var a, b, c, d, e := LittleEndian(INDEX_MAGIC, 4), LittleEndian(INDEX_VERSION, 4), LittleEndian(root, 4),
                         LittleEndian(first, 4), LittleEndian(count, 8);
    var pad: seq<byte> := seq(PAGE_SIZE - 24, i => 0);
    MagicBytes();
    FiveFields(a, b, c, d, e, pad);
    NumberIsThere(a + b, root, 4, d + e + pad);
    NumberIsThere(a + b + c, first, 4, e + pad);
    NumberIsThere(a + b + c + d, count, 8, pad);
  }

  /** The first bytes decide what a page is taken for: no node without its mark, and a
      superblock exactly behind its mark and version 1. The sixth byte is the number
      of separators, and one more than that many children follow the header. */
  lemma MarksDecide(raw: PageBytes)
    ensures Parse(raw).Leaf? || Parse(raw).Inner? ==> raw[..4] == [0x45, 0x47, 0x41, 0x50]
    ensures Parse(raw).Leaf? ==> raw[4] == 1 && |Parse(raw).entries| <= raw[5]
    ensures Parse(raw).Inner? ==>
              raw[4] != 1 && |Parse(raw).keys| == raw[5] && |Parse(raw).children| == raw[5] as nat + 1
    ensures Parse(raw).Super? <==> raw[..8] == [0x42, 0x58, 0x44, 0x49, 1, 0, 0, 0]
  {
    hide Number, LittleEndian, ParseEntries, ParseKeys, ParseChildren;
    MagicBytes();
    Powers();
    LittleEndianOfNumber(raw[..4]);
    LittleEndianOfNumber(raw[4..8]);
    NumberOfLittleEndian(INDEX_MAGIC, 4);
    NumberOfLittleEndian(INDEX_VERSION, 4);
    var marks := LittleEndian(INDEX_MAGIC, 4) + LittleEndian(INDEX_VERSION, 4);
    assert raw[..8] == raw[..4] + raw[4..8] && raw[..8][..4] == raw[..4] && raw[..8][4..] == raw[4..8];
    assert marks == [0x42, 0x58, 0x44, 0x49, 1, 0, 0, 0];
    assert marks[..4] == LittleEndian(INDEX_MAGIC, 4) && marks[4..] == LittleEndian(INDEX_VERSION, 4);
  }

  // ---- how many entries a leaf can have ----

  lemma NothingBelowEmptyText(a: Text)
    ensures CompareText(a, []) >= 0
  {
  }

  /** In a leaf of distinct texts only the first can be empty, so the others take at
      least sixteen bytes each. */
  lemma {:induction false} LongTexts(es: seq<Entry>)
    requires forall i :: 0 <= i < |es| ==> es[i].key.Str? && es[i].key.s != []
    ensures EntriesSize(es) >= 16 * |es|
  {
    if es != [] {
      LongTexts(es[1..]);
    }
  }

  /** The count byte of a leaf never wraps: distinct keys of one type that fit a
      page number at most 214 for integers and 255 for texts. */
  lemma LeafIsCountable(t: DataType, es: seq<Entry>, next: PageId)
    requires InOrder(t, es) && !LeafOverflow(es)
    ensures |es| <= if t == IntType then 214 else 255
    ensures Countable(Leaf(es, next))
  {
    if t == IntType {
      IntsSize(es);
    } else if es != [] {
      var tail := es[1..];
      forall i | 0 <= i < |tail|
        ensures tail[i].key.Str? && tail[i].key.s != []
      {
        assert Less(es[0].key, es[i + 1].key);
        NothingBelowEmptyText(es[0].key.s);
      }
      LongTexts(tail);
    }
  }

  /** 255 is reached: the empty text and 254 texts of one byte. */
  function FullTextLeaf(): (es: seq<Entry>)
    ensures |es| == 255
  {
    seq(255, i requires 0 <= i < 255 => Entry(Str(if i == 0 then [] else [i - 1]), i))
  }

  lemma {:induction false} OneByteTexts(es: seq<Entry>)
    requires forall i :: 0 <= i < |es| ==> es[i].key.Str? && |es[i].key.s| == 1
    ensures EntriesSize(es) == 16 * |es|
  {
    if es != [] {
      OneByteTexts(es[1..]);
    }
  }

  lemma TextLeafBoundIsReached()
    ensures InOrder(StrType, FullTextLeaf()) && !LeafOverflow(FullTextLeaf())
  {
    hide CompareText, EntriesSize;
    var es := FullTextLeaf();
    forall i, j | 0 <= i < j < 255
      ensures Less(es[i].key, es[j].key)
    {
      ShortTexts(es[i].key.s, es[j].key.s);
    }
    FullTextLeafSize(es);
  }

  lemma ShortTexts(a: Text, b: Text)
    requires |a| <= 1 && |b| == 1 && (a == [] || a[0] < b[0])
    ensures CompareText(a, b) < 0
  {
  }

  lemma FullTextLeafSize(es: seq<Entry>)
    requires |es| == 255 && es[0].key == Str([])
    requires forall i :: 1 <= i < 255 ==> es[i].key.Str? && |es[i].key.s| == 1
    ensures !LeafOverflow(es)
  {
    OneByteTexts(es[1..]);
    assert EntriesSize(es) == 15 + EntriesSize(es[1..]);
  }

  /** What a stored page is read back as, up to one separator too many. */
  lemma ReadBack(p: Page)
    requires InBytes(p) && Numbered(p) && (p.Leaf? ==> Countable(p)) && (p.Inner? ==> |p.keys| <= MAX_SEPARATORS + 1)
    ensures Parse(Image(p)) == Reread(p)
  {
    hide Parse, Image;
    if p.Inner? && |p.keys| == MAX_SEPARATORS + 1 {
      CountWraps(p.keys, p.children);
    } else {
      PageRoundTrip(p);
    }
  }

  /** With 256 separators the count byte is zero: the page is read back as a node with
      the first of its children and no separator. */
  lemma CountWraps(ks: seq<Value>, cs: seq<PageId>)
    requires |ks| == 256 && !InnerOverflow(ks, cs) && Numbered(Inner(ks, cs))
    ensures Parse(Image(Inner(ks, cs))) == Inner([], [cs[0]])
  {
    hide Number, LittleEndian, HeaderImage, ChildrenImage, KeysImage, ParseEntries, ParseKeys, ParseChildren, Parse,
         Image, KeysSize, Numbered;
    FirstIsNumbered(ks, cs);
    var more := WrappedImage(ks, cs);
    HeaderParses(2, |ks|, 0, ChildrenImage([cs[0]]) + more);
    ChildrenRoundTrip([cs[0]], more);
    NoSeparators(Image(Inner(ks, cs)), ChildrenImage([cs[0]]) + more);
  }

  lemma FirstIsNumbered(ks: seq<Value>, cs: seq<PageId>)
    requires Numbered(Inner(ks, cs))
    ensures cs != [] && cs[0] < 0x1_0000_0000
  {
  }

  lemma WrappedImage(ks: seq<Value>, cs: seq<PageId>) returns (more: seq<byte>)
    requires !InnerOverflow(ks, cs) && cs != []
    ensures Image(Inner(ks, cs)) == HeaderImage(2, |ks|, 0) + (ChildrenImage([cs[0]]) + more)
  {
    hide LittleEndian, HeaderImage, ChildrenImage, KeysImage, KeysSize;
    var pad: seq<byte> := seq(PAGE_SIZE - InnerBytes(ks, |cs|), i => 0);
    more := ChildrenImage(cs[1..]) + KeysImage(ks) + pad;
    FirstChildImage(cs);
  }

  /** A page with a count of zero has one child and no separator. */
  lemma NoSeparators(raw: PageBytes, body: seq<byte>)
    requires Number(raw[..4]) == PAGE_MAGIC && raw[4] == 2 && raw[5] == 0 && raw[12..] == body
    ensures Parse(raw) == Inner([], ParseChildren(body, 1))
  {
    hide Number, LittleEndian, ParseEntries, ParseChildren;
    NoKeys(body[4..]);
  }

  lemma NoKeys(data: seq<byte>)
    ensures ParseKeys(data, 0) == Ok([])
  {
  }

  lemma FirstChildImage(cs: seq<PageId>)
    requires cs != []
    ensures ChildrenImage(cs) == ChildrenImage([cs[0]]) + ChildrenImage(cs[1..])
  {
    ChildrenImageAppend([cs[0]], cs[1..]);
    assert [cs[0]] + cs[1..] == cs;
  }

  /** An inner node that passes the byte test and loses its separators: 257 children
      of nine-byte integer separators fit a page, but 256 does not fit the count
      byte. */
  lemma ManySeparatorsAreLost(ks: seq<Value>, cs: seq<PageId>)
    requires |ks| == 256 && |cs| == 257 && (forall i :: 0 <= i < |ks| ==> ks[i].Int?)
    requires forall i :: 0 <= i < |cs| ==> cs[i] < 0x1_0000_0000
    ensures !InnerOverflow(ks, cs) && Parse(Image(Inner(ks, cs))) == Inner([], [cs[0]])
  {
    IntKeysSize(ks);
    CountWraps(ks, cs);
  }

  // ---- the loops of write_page and read_page ----

  lemma {:induction false} EntriesImageAppend(a: seq<Entry>, b: seq<Entry>)
    ensures EntriesImage(a + b) == EntriesImage(a) + EntriesImage(b)
  {
    hide EntryImage;
    if a == [] {
      assert a + b == b;
    } else {
      assert (a + b)[1..] == a[1..] + b;
      EntriesImageAppend(a[1..], b);
    }
  }

  lemma {:induction false} KeysImageAppend(a: seq<Value>, b: seq<Value>)
    ensures KeysImage(a + b) == KeysImage(a) + KeysImage(b)
  {
    hide KeyImage;
    if a == [] {
      assert a + b == b;
    } else {
      assert (a + b)[1..] == a[1..] + b;
      KeysImageAppend(a[1..], b);
    }
  }

  lemma {:induction false} ChildrenImageAppend(a: seq<PageId>, b: seq<PageId>)
    ensures ChildrenImage(a + b) == ChildrenImage(a) + ChildrenImage(b)
  {
    hide LittleEndian;
    if a == [] {
      assert a + b == b;
    } else {
      assert (a + b)[1..] == a[1..] + b;
      ChildrenImageAppend(a[1..], b);
    }
  }

  /** The leaf half of `write_page`. */
  method RenderLeaf(es: seq<Entry>, next: PageId) returns (r: Result<PageBytes>)
    ensures r.Ok? <==> !LeafOverflow(es)
    ensures r.Ok? ==> r.value == Image(Leaf(es, next))
  {
    hide LittleEndian, Encoding, EncodedSize, EntriesImage, HeaderImage, EntriesSize;
    if LeafOverflow(es) {
      return Throw(PageOverflow);
    }
    var raw := LittleEndian(PAGE_MAGIC, 4) + [1, |es| % 256, 0, 0] + LittleEndian(next, 4);
    HeaderOf(1, |es|, next);
    NoImages();
    for i := 0 to |es|
      invariant raw == HeaderImage(1, |es|, next) + EntriesImage(es[..i])
    {
      assert es[..i + 1] == es[..i] + [es[i]];
      EntriesImageAppend(es[..i], [es[i]]);
      OneImage(es[i]);
      raw := raw + LittleEndian(EncodedSize(es[i].key), 2);
      raw := raw + Encoding(es[i].key);
      raw := raw + LittleEndian(es[i].rid, 8);
    }
    assert es[..|es|] == es;
    return Ok(Padded(raw));
  }

  lemma HeaderOf(kind: byte, count: nat, next: PageId)
    ensures HeaderImage(kind, count, next)
            == LittleEndian(PAGE_MAGIC, 4) + [kind, count % 256, 0, 0] + LittleEndian(next, 4)
  {
  }

  lemma NoImages()
    ensures EntriesImage([]) == [] && KeysImage([]) == [] && ChildrenImage([]) == []
  {
  }

  lemma OneImage(e: Entry)
    ensures EntriesImage([e]) == EntryImage(e)
  {
    hide EntryImage;
  }

  /** The inner half of `write_page`. */
  method RenderInner(ks: seq<Value>, cs: seq<PageId>) returns (r: Result<PageBytes>)
    ensures r.Ok? <==> !InnerOverflow(ks, cs)
    ensures r.Ok? ==> r.value == Image(Inner(ks, cs))
  {
    hide LittleEndian, Encoding, EncodedSize, ChildrenImage, KeysImage, HeaderImage, KeysSize;
    if InnerOverflow(ks, cs) {
      return Throw(PageOverflow);
    }
    var raw := LittleEndian(PAGE_MAGIC, 4) + [2, |ks| % 256, 0, 0] + LittleEndian(0, 4);
    HeaderOf(2, |ks|, 0);
    NoImages();
    for i := 0 to |cs|
      invariant raw == HeaderImage(2, |ks|, 0) + ChildrenImage(cs[..i])
    {
      assert cs[..i + 1] == cs[..i] + [cs[i]];
      ChildrenImageAppend(cs[..i], [cs[i]]);
      OneChildImage(cs[i]);
      raw := raw + LittleEndian(cs[i], 4);
    }
    assert cs[..|cs|] == cs;
    for i := 0 to |ks|
      invariant raw == HeaderImage(2, |ks|, 0) + ChildrenImage(cs) + KeysImage(ks[..i])
    {
      assert ks[..i + 1] == ks[..i] + [ks[i]];
      KeysImageAppend(ks[..i], [ks[i]]);
      OneKeyImage(ks[i]);
      raw := raw + LittleEndian(EncodedSize(ks[i]), 2);
      raw := raw + Encoding(ks[i]);
    }
    assert ks[..|ks|] == ks;
    return Ok(Padded(raw));
  }

  lemma OneChildImage(c: PageId)
    ensures ChildrenImage([c]) == LittleEndian(c, 4)
  {
    hide LittleEndian;
  }

  lemma OneKeyImage(k: Value)
    ensures KeysImage([k]) == KeyImage(k)
  {
    hide KeyImage;
  }

  function Prepend(acc: seq<Entry>, rest: Result<seq<Entry>>): Result<seq<Entry>> {
    match rest
    case Ok(es) => Ok(acc + es)
    case Throw(f) => Throw(f)
    case Cut => Cut
  }

  /** The leaf loop of `read_page`, over the bytes after the header. */
  method ReadEntries(body: seq<byte>, n: nat) returns (r: Result<seq<Entry>>)
    ensures r == ParseEntries(body, n)
  {
    hide Number, DecodeValue, ParseEntries, Prepend;
    var es, off := [], 0;
    assert body[0..] == body;
    NothingBefore(ParseEntries(body, n));
    for i := 0 to n
      invariant off <= |body| && ParseEntries(body, n) == Prepend(es, ParseEntries(body[off..], n - i))
    {
      var left := body[off..];
      ParseOne(es, left, n - i);
      if |left| < 10 {
        return Ok(es);
      }
      var size := Number(left[..2]);
      if |left| < 2 + size + 8 {
        return Throw(CorruptPage);
      }
      var d :- DecodeValue(left[2..2 + size]);
      es := es + [Entry(d.value, Number(left[2 + size..2 + size + 8]))];
      off := off + 2 + size + 8;
      assert left[2 + size + 8..] == body[off..];
    }
    ParseNone(es, body[off..]);
    return Ok(es);
  }

  lemma NothingBefore(r: Result<seq<Entry>>)
    ensures Prepend([], r) == r
  {
    if r.Ok? {
      assert [] + r.value == r.value;
    }
  }

  lemma ParseNone(acc: seq<Entry>, data: seq<byte>)
    ensures Prepend(acc, ParseEntries(data, 0)) == Ok(acc)
  {
    assert acc + [] == acc;
  }

  /** One turn of the loop against one unfolding of the recursion. */
  lemma ParseOne(acc: seq<Entry>, data: seq<byte>, n: nat)
    requires n > 0
    ensures |data| < 10 ==> Prepend(acc, ParseEntries(data, n)) == Ok(acc)
    ensures |data| >= 10 ==>
              var size := Number(data[..2]);
              if |data| < 2 + size + 8 then Prepend(acc, ParseEntries(data, n)) == Throw(CorruptPage)
              else
                var d := DecodeValue(data[2..2 + size]);
                Prepend(acc, ParseEntries(data, n))
                == if !d.Ok? then d.PropagateFailure()
                   else Prepend(acc + [Entry(d.value.value, Number(data[2 + size..2 + size + 8]))],
                                ParseEntries(data[2 + size + 8..], n - 1))
  {
    hide Number, DecodeValue;
    assert acc + [] == acc;
    if |data| >= 10 {
      var size := Number(data[..2]);
      if |data| >= 2 + size + 8 {
        var rest := ParseEntries(data[2 + size + 8..], n - 1);
        var d := DecodeValue(data[2..2 + size]);
        if d.Ok? && rest.Ok? {
          var e := Entry(d.value.value, Number(data[2 + size..2 + size + 8]));
          assert acc + ([e] + rest.value) == (acc + [e]) + rest.value;
        }
      }
    }
  }
}
