/** An index file end to end: nodes encoded into pages that live behind the LRU
    cache. Its operations change what the bytes in cache and file stand for just as
    the page operations of the tree code change its sequence of parsed pages, and every
    page of a tree is one that bytes can stand for. */
module PageStore {
  import opened Outcomes
  import opened Nodes
  import opened Ordered
  import opened Shape
  import opened Surgery
  import opened Index
  import opened PageCache
  import opened PageCodec

  /** The parsed pages that a flat array of bytes stands for. */
  ghost function Parsed(content: seq<PageBytes>): (pages: seq<Page>)
    ensures |pages| == |content|
    ensures forall i :: 0 <= i < |content| ==> pages[i] == Parse(content[i])
  {
    seq(|content|, i requires 0 <= i < |content| => Parse(content[i]))
  }

  ghost function PagesOf(p: Pager): seq<Page>
    reads p
  {
    Parsed(p.Content())
  }

  /** Pages of which it is known what they are read back as. */
  predicate Plain(page: Page) {
    (page.Leaf? ==> Countable(page)) && (page.Inner? ==> |page.keys| <= MAX_SEPARATORS + 1)
  }

  /** Storing the image of a page stores what is read back of it. */
  lemma StoreImage(content: seq<PageBytes>, id: nat, page: Page)
    requires id < |content| && InBytes(page) && Numbered(page)
    ensures Parsed(Store(content, id, Image(page))) == Parsed(content)[id := Parse(Image(page))]
    ensures Plain(page) ==> Parse(Image(page)) == Reread(page)
  {
    hide Parse, Image;
    if Plain(page) {
      ReadBack(page);
    }
  }

  lemma AppendZero(content: seq<PageBytes>)
    ensures Parsed(content + [ZeroPage()]) == Parsed(content) + [Raw]
  {
    hide Parse;
    ZeroPageIsRaw();
  }

  /** `write_page`: the node is encoded and stored. It throws exactly when the bytes of
      the node do not fit its page, and a separator too many is lost, just as with
      `DiskBspIndex.WritePage`. */
  method WriteNode(p: Pager, id: nat, page: Page) returns (r: Result<()>)
    requires p.Valid() && p.Dense() && id < p.pageCount
    requires (page.Leaf? || page.Inner?) && Numbered(page)
    modifies p
    ensures p.Valid() && p.Dense()
    ensures r.Ok? <==> InBytes(page)
    ensures PagesOf(p) == if r.Ok? then old(PagesOf(p))[id := Parse(Image(page))] else old(PagesOf(p))
    ensures r.Ok? && Plain(page) ==> PagesOf(p) == old(PagesOf(p))[id := Reread(page)]
  {
    hide Pager.Valid, Pager.Dense, Parse, Image, LeafOverflow, InnerOverflow, Store;
    var raw;
    if page.Leaf? {
      raw :- RenderLeaf(page.entries, page.next);
    } else {
      raw :- RenderInner(page.keys, page.children);
    }
    StoreImage(p.Content(), id, page);
    r := p.WritePage(id, raw);
  }

  /** `allocate_node_page` past page 0. */
  method AllocateNode(p: Pager) returns (id: nat)
    requires p.Valid() && p.Dense()
    modifies p
    ensures p.Valid() && p.Dense()
    ensures id == old(|PagesOf(p)|) && PagesOf(p) == old(PagesOf(p)) + [Raw]
  {
    hide Pager.Valid, Pager.Dense, Parse;
    AppendZero(p.Content());
    id := p.AllocatePage();
  }

  /** `read_page`: the node last written there; a page that is not a node is
      corrupt, and a page beyond the file is past the end. */
  method ReadNode(p: Pager, id: nat) returns (r: Result<Page>)
    requires p.Valid() && p.Dense()
    modifies p
    ensures p.Valid() && p.Dense() && PagesOf(p) == old(PagesOf(p))
    ensures r.Ok? <==> id < |old(PagesOf(p))| && (old(PagesOf(p))[id].Leaf? || old(PagesOf(p))[id].Inner?)
    ensures r.Ok? ==> r.value == old(PagesOf(p))[id]
  {
    hide Pager.Valid, Pager.Dense, Parse;
    var raw :- p.ReadPage(id);
    var page := Parse(raw);
    return if page.Leaf? || page.Inner? then Ok(page) else Throw(CorruptPage);
  }

  /** `write_superblock`. */
  method WriteSuper(p: Pager, root: PageId, first: PageId, count: nat)
    requires p.Valid() && p.Dense() && p.pageCount > 0 && Numbered(Super(root, first, count))
    modifies p
    ensures p.Valid() && p.Dense()
    ensures PagesOf(p) == old(PagesOf(p))[0 := Super(root, first, count)]
  {
    hide Pager.Valid, Pager.Dense, Parse, Image, Store;
    StoreImage(p.Content(), 0, Super(root, first, count));
    var _ := p.WritePage(0, Image(Super(root, first, count)));
  }

  /** Page and record ids and counts are within the widths of the file format. */
  ghost predicate WithinWidths(idx: DiskBspIndex)
    reads idx
  {
    && |idx.pages| <= 0x1_0000_0000 && idx.count < 0x1_0000_0000_0000_0000
    && forall id: PageId, j :: 0 <= j < |EntriesOf(PageAt(idx.pages, id))| ==>
         EntriesOf(PageAt(idx.pages, id))[j].rid < 0x1_0000_0000_0000_0000
  }

  /** Every page of an index is restored by reading back its image: byte test and count
      byte agree on all of them. */
  lemma TreePageIsStored(idx: DiskBspIndex, k: nat, id: PageId)
    requires idx.Valid() && WithinWidths(idx) && k < |idx.levels| && id in idx.levels[k]
    ensures InBytes(PageAt(idx.pages, id)) && Countable(PageAt(idx.pages, id)) && Numbered(PageAt(idx.pages, id))
    ensures Parse(Image(PageAt(idx.pages, id))) == PageAt(idx.pages, id)
  {
    hide NoDup, Chained, Entries, Kids, InOrder, LevelOk, Parse, Image;
    var m, lv, info := idx.pages, idx.levels, idx.info;
    var hole := if idx.count == 0 then idx.root else NO_PAGE;
    LevelNode(m, lv, info, hole, |lv|, k, id);
    var p := PageAt(m, id);
    assert id < |m| && Fits(m[id]);
    if k == 0 {
      LeafStored(idx, id);
    } else {
      forall j | 0 <= j < |p.children|
        ensures p.children[j] < 0x1_0000_0000
      {
        assert p.children[j] in p.children;
        ChildLevel(m, lv, info, hole, |lv|, k, id, p.children[j]);
        LevelKnown(m, lv, info, hole, |lv|, k - 1);
      }
    }
    PageRoundTrip(p);
  }

  lemma LeafStored(idx: DiskBspIndex, id: PageId)
    requires idx.Valid() && WithinWidths(idx) && |idx.levels| > 0 && id in idx.levels[0] && PageAt(idx.pages, id).Leaf?
    ensures Countable(PageAt(idx.pages, id)) && Numbered(PageAt(idx.pages, id))
  {
    hide NoDup, Kids, InOrder, LevelOk, Entries, LeafOverflow;
    var m, lv := idx.pages, idx.levels;
    var hole := if idx.count == 0 then idx.root else NO_PAGE;
    var left, right := Locate(lv[0], id);
    idx.LeafKeys(left, right, id);
    assert id < |m| && Fits(m[id]);
    LeafIsCountable(idx.kind, PageAt(m, id).entries, PageAt(m, id).next);
    LinkIsPage(m, lv, idx.info, hole, left, id, right);
    assert EntriesOf(PageAt(m, id)) == PageAt(m, id).entries;
  }

  lemma LinkIsPage(m: Pages, lv: Levels, info: Infos, hole: PageId, left: seq<PageId>, id: PageId, right: seq<PageId>)
    requires Shaped(m, lv, info, hole) && lv[0] == left + [id] + right
    ensures NextOf(PageAt(m, id)) < |m| || NextOf(PageAt(m, id)) == NO_PAGE
  {
    hide NodeOk, NoDup, Kids;
    LevelKnown(m, lv, info, hole, |lv|, 0);
    var l, i := lv[0], |left|;
    assert l[i] == id;
    if i + 1 < |l| {
      assert l[i + 1] in l;
    }
  }

  lemma SuperIsStored(idx: DiskBspIndex)
    requires idx.Valid() && WithinWidths(idx)
    ensures Parse(Image(idx.pages[0])) == idx.pages[0]
  {
    hide NoDup, Chained, Entries, Kids, InOrder, LevelOk, Parse, Image;
    var m, lv := idx.pages, idx.levels;
    var hole := if idx.count == 0 then idx.root else NO_PAGE;
    RootKnown(m, lv, idx.info, hole, idx.root);
    LevelKnown(m, lv, idx.info, hole, |lv|, 0);
    assert idx.first in lv[0];
    PageRoundTrip(m[0]);
  }
}
