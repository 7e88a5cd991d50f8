/** The pager (pager.h, pager.cpp): a write-back LRU cache in front of a page
    file, proved indistinguishable from a flat array of pages. */
module PageCache {
  import opened Outcomes
  import opened Values
  import opened Nodes

  /** The contents of one page. */
  type PageBytes = b: seq<byte> | |b| == PAGE_SIZE witness seq(PAGE_SIZE, i => 0)

  function ZeroPage(): (z: PageBytes)
    ensures forall i :: 0 <= i < PAGE_SIZE ==> z[i] == 0
  {
    seq(PAGE_SIZE, i => 0)
  }

  datatype Slot = Slot(data: PageBytes, dirty: bool)

  // ---- the flat array behind file and cache ----

  /** What page id holds: the cache knows best, then the file; a page past the end
      of the file that was never written is a hole of zeros. */
  function Current(file: seq<PageBytes>, cache: map<nat, Slot>, id: nat): PageBytes {
    if id in cache then cache[id].data else if id < |file| then file[id] else ZeroPage()
  }

  ghost function Flatten(file: seq<PageBytes>, cache: map<nat, Slot>, n: nat): (c: seq<PageBytes>)
    ensures |c| == n
    ensures forall id :: 0 <= id < n ==> c[id] == Current(file, cache, id)
  {
    seq(n, id requires 0 <= id < n => Current(file, cache, id))
  }

  /** Writing page id of a file; the file system fills a gap with zeros. */
  function FileWrite(file: seq<PageBytes>, id: nat, data: PageBytes): (f: seq<PageBytes>)
    ensures |f| == if id < |file| then |file| else id + 1
    ensures f[id] == data
    ensures forall x :: 0 <= x < |f| && x != id ==> f[x] == if x < |file| then file[x] else ZeroPage()
  {
    if id < |file| then file[id := data] else file + seq(id - |file|, i => ZeroPage()) + [data]
  }

  /** Storing a page in a flat array, padding with zero pages up to it. */
  ghost function Store(content: seq<PageBytes>, id: nat, data: PageBytes): seq<PageBytes> {
    FileWrite(content, id, data)
  }

  // ---- recency ----

  function Without(l: seq<nat>, x: nat): seq<nat> {
    if l == [] then [] else (if l[0] == x then [] else [l[0]]) + Without(l[1..], x)
  }

  ghost predicate Distinct(l: seq<nat>) {
    forall i, j :: 0 <= i < j < |l| ==> l[i] != l[j]
  }

  function Take(l: seq<nat>, n: nat): seq<nat> {
    if |l| <= n then l else l[..n]
  }

  /** The effect of an access on a recency list bounded by the capacity. */
  function Touch(l: seq<nat>, x: nat, cap: nat): seq<nat> {
    Take([x] + Without(l, x), cap)
  }

  lemma {:induction false} WithoutAbsent(l: seq<nat>, x: nat)
    requires x !in l
    ensures Without(l, x) == l
  {
    if l != [] {
      WithoutAbsent(l[1..], x);
    }
  }

  lemma {:induction false} WithoutAppend(a: seq<nat>, b: seq<nat>, x: nat)
    ensures Without(a + b, x) == Without(a, x) + Without(b, x)
  {
    if a == [] {
      assert a + b == b;
    } else {
      assert (a + b)[1..] == a[1..] + b;
      WithoutAppend(a[1..], b, x);
    }
  }

  lemma {:induction false} WithoutMembers(l: seq<nat>, x: nat)
    ensures forall y :: y in Without(l, x) <==> y in l && y != x
    ensures |Without(l, x)| <= |l|
  {
    if l != [] {
      WithoutMembers(l[1..], x);
      assert l == [l[0]] + l[1..];
    }
  }

  lemma {:induction false} WithoutDistinct(l: seq<nat>, x: nat)
    requires Distinct(l)
    ensures Distinct(Without(l, x))
    ensures |Without(l, x)| == if x in l then |l| - 1 else |l|
  {
    hide Distinct;
    if l == [] {
      NoneDistinct();
    } else {
      var t := l[1..];
      assert l == [l[0]] + t;
      DistinctCons(l[0], t);
      WithoutDistinct(t, x);
      WithoutMembers(t, x);
      if l[0] == x {
        WithoutAbsent(t, x);
        assert Without(l, x) == t;
      } else {
        DistinctCons(l[0], Without(t, x));
      }
    }
  }

  lemma NoneDistinct()
    ensures Distinct([])
  {
  }

  lemma DistinctCons(x: nat, l: seq<nat>)
    ensures Distinct([x] + l) <==> Distinct(l) && x !in l
  {
    var s := [x] + l;
    assert forall i :: 0 <= i < |l| ==> s[i + 1] == l[i];
    if Distinct(s) {
      forall i | 0 <= i < |l|
        ensures l[i] != x
      {
        assert s[i + 1] != s[0];
      }
    }
  }

  /** `splice` of an element to the front, when it is in the list. */
  lemma TouchHit(l: seq<nat>, x: nat, cap: nat)
    requires Distinct(l) && x in l && |l| <= cap
    ensures Touch(l, x, cap) == [x] + Without(l, x)
    ensures Distinct([x] + Without(l, x)) && |[x] + Without(l, x)| == |l|
    ensures forall y :: y in [x] + Without(l, x) <==> y in l
  {
    WithoutDistinct(l, x);
    WithoutMembers(l, x);
    assert forall i :: 0 <= i < |Without(l, x)| ==> Without(l, x)[i] in Without(l, x);
  }

  lemma TouchMiss(l: seq<nat>, x: nat, cap: nat)
    requires Distinct(l) && x !in l && |l| <= cap && cap > 0
    ensures Touch(l, x, cap) == [x] + Take(l, cap - 1)
    ensures Distinct([x] + Take(l, cap - 1))
  {
    WithoutAbsent(l, x);
    assert Take([x] + l, cap) == [x] + Take(l, cap - 1);
    var kept := Take(l, cap - 1);
    assert forall y :: y in kept ==> y in l;
  }

  lemma {:induction false} DistinctSize(l: seq<nat>, s: set<nat>)
    requires Distinct(l) && forall x :: x in l <==> x in s
    ensures |l| == |s|
  {
    if l == [] {
      assert s == {};
    } else {
      assert l == [l[0]] + l[1..];
      assert l[0] !in l[1..];
      DistinctSize(l[1..], s - {l[0]});
    }
  }

  // ---- one step on file, cache and recency list ----

  /** Cache and recency list agree; pages in the cache that are not dirty equal the
      file; the last page exists somewhere. */
  ghost predicate Sound(file: seq<PageBytes>, cache: map<nat, Slot>, lru: seq<nat>, n: nat) {
    && Distinct(lru) && (forall id :: id in lru <==> id in cache)
    && |file| <= n
    && (forall id :: id in cache ==> CleanIsStored(file, cache[id], id) && id < n)
    && (n > 0 ==> n - 1 in cache || n - 1 < |file|)
  }

  ghost predicate CleanIsStored(file: seq<PageBytes>, slot: Slot, id: nat) {
    !slot.dirty ==> id < |file| && file[id] == slot.data
  }

  /** No page was ever skipped. */
  ghost predicate NoGaps(file: seq<PageBytes>, cache: map<nat, Slot>, n: nat) {
    forall id :: 0 <= id < n ==> id in cache || id < |file|
  }

  /** Dropping the last page of the recency list, written first if it is dirty,
      loses nothing. */
  lemma Evicted(file: seq<PageBytes>, cache: map<nat, Slot>, lru: seq<nat>, n: nat, file': seq<PageBytes>)
    requires Sound(file, cache, lru, n) && lru != []
    requires var victim := lru[|lru| - 1];
             victim in lru && file' == if cache[victim].dirty then FileWrite(file, victim, cache[victim].data) else file
    ensures var victim := lru[|lru| - 1];
            && Sound(file', cache - {victim}, lru[..|lru| - 1], n)
            && Flatten(file', cache - {victim}, n) == Flatten(file, cache, n)
            && (NoGaps(file, cache, n) ==> NoGaps(file', cache - {victim}, n))
  {
    var victim, rest := lru[|lru| - 1], lru[..|lru| - 1];
    var cache' := cache - {victim};
    assert lru == rest + [victim];
    assert victim !in rest;
    forall id | id in cache'
      ensures CleanIsStored(file', cache'[id], id)
    {
      assert CleanIsStored(file, cache[id], id);
    }
    assert CleanIsStored(file, cache[victim], victim);
    forall id | 0 <= id < n
      ensures Current(file', cache', id) == Current(file, cache, id)
    {
    }
  }

  function Grown(n: nat, id: nat): nat {
    if id < n then n else id + 1
  }

  /** A page put into the cache: dirty data replaces the page, clean data must be
      what the file already holds for a page the cache does not have. */
  ghost predicate MayCache(file: seq<PageBytes>, cache: map<nat, Slot>, n: nat, id: nat, slot: Slot) {
    slot.dirty || (id < n && id !in cache && id < |file| && file[id] == slot.data)
  }

  lemma Cached(file: seq<PageBytes>, cache: map<nat, Slot>, lru: seq<nat>, n: nat, id: nat, slot: Slot, lru': seq<nat>)
    requires Sound(file, cache, lru, n) && MayCache(file, cache, n, id, slot)
    requires Distinct(lru') && forall x :: x in lru' <==> x in lru || x == id
    ensures Sound(file, cache[id := slot], lru', Grown(n, id))
    ensures Flatten(file, cache[id := slot], Grown(n, id))
            == if slot.dirty then Store(Flatten(file, cache, n), id, slot.data) else Flatten(file, cache, n)
    ensures NoGaps(file, cache, n) && id <= n ==> NoGaps(file, cache[id := slot], Grown(n, id))
  {
    var cache' := cache[id := slot];
    forall x | x in cache'
      ensures CleanIsStored(file, cache'[x], x) && x < Grown(n, id)
    {
      if x != id {
        assert CleanIsStored(file, cache[x], x);
      }
    }
    var before := Flatten(file, cache, n);
    var after := if slot.dirty then Store(before, id, slot.data) else before;
    forall x | 0 <= x < Grown(n, id)
      ensures Current(file, cache', x) == after[x]
    {
    }
  }

  /** With no cache a write goes straight to the file. */
  lemma WrittenThrough(file: seq<PageBytes>, cache: map<nat, Slot>, n: nat, id: nat, data: PageBytes)
    requires Sound(file, cache, [], n)
    ensures Sound(FileWrite(file, id, data), cache, [], Grown(n, id))
    ensures Flatten(FileWrite(file, id, data), cache, Grown(n, id)) == Store(Flatten(file, cache, n), id, data)
    ensures NoGaps(FileWrite(file, id, data), cache, Grown(n, id))
  {
    assert forall x :: x in cache ==> x in [];
  }

  /** Writing one dirty page and calling it clean changes nothing to be seen. */
  lemma Flushed(file: seq<PageBytes>, cache: map<nat, Slot>, lru: seq<nat>, n: nat, id: nat)
    requires Sound(file, cache, lru, n) && id in cache
    ensures var file', cache' := FileWrite(file, id, cache[id].data), cache[id := cache[id].(dirty := false)];
            Sound(file', cache', lru, n) && Flatten(file', cache', n) == Flatten(file, cache, n)
  {
    var file', cache' := FileWrite(file, id, cache[id].data), cache[id := cache[id].(dirty := false)];
    assert CleanIsStored(file, cache[id], id);
    forall x | x in cache'
      ensures CleanIsStored(file', cache'[x], x) && x < n
    {
      assert CleanIsStored(file, cache[x], x);
    }
    assert forall x :: 0 <= x < n ==> Current(file', cache', x) == Current(file, cache, x);
  }

  lemma AllFlushed(file: seq<PageBytes>, cache: map<nat, Slot>, lru: seq<nat>, n: nat)
    requires Sound(file, cache, lru, n) && forall id :: id in cache ==> !cache[id].dirty
    ensures file == Flatten(file, cache, n) && NoGaps(file, cache, n)
  {
    forall x | x in cache
      ensures x < |file| && file[x] == cache[x].data
    {
      assert CleanIsStored(file, cache[x], x);
    }
  }

  // ---- the pager ----

  class Pager {
    var isOpen: bool
    var file: seq<PageBytes>
    var pageCount: nat
    var capacity: nat
    var lru: seq<nat>
    var cache: map<nat, Slot>
    var scratch: PageBytes

    ghost predicate Steady()
      reads this
    {
      isOpen && Sound(file, cache, lru, pageCount)
    }

    /** Between calls the cache also respects its capacity. */
    ghost predicate Valid()
      reads this
    {
      Steady() && |lru| <= capacity
    }

    ghost predicate Dense()
      reads this
    {
      NoGaps(file, cache, pageCount)
    }

    /** The flat array of pages this pager stands for. */
    ghost function Content(): seq<PageBytes>
      reads this
    {
      Flatten(file, cache, pageCount)
    }

    constructor ()
      ensures !isOpen && capacity == 64 && lru == [] && cache == map[] && pageCount == 0
    {
      isOpen, file, pageCount, capacity, lru, cache, scratch := false, [], 0, 64, [], map[], ZeroPage();
    }

    /** `evict_one`: the page least recently used leaves the cache, after being
        written if it is dirty. */
    method EvictOne(ghost n: nat)
      requires Sound(file, cache, lru, n)
      modifies this`file, this`lru, this`cache
      ensures Sound(file, cache, lru, n) && Flatten(file, cache, n) == old(Flatten(file, cache, n))
      ensures old(NoGaps(file, cache, n)) ==> NoGaps(file, cache, n)
      ensures lru == if old(lru) == [] then [] else old(lru)[..|old(lru)| - 1]
      ensures forall id :: id in cache ==> id in old(cache)
      ensures forall id :: 0 <= id < |old(file)| && id !in old(cache) ==> id < |file| && file[id] == old(file)[id]
    {
      hide Flatten, NoGaps, Distinct, CleanIsStored, FileWrite;
      if lru == [] {
        return;
      }
      var victim := lru[|lru| - 1];
      assert victim in lru;
      if cache[victim].dirty {
        file := FileWrite(file, victim, cache[victim].data);
      }
      Evicted(old(file), cache, lru, n, file);
      cache := cache - {victim};
      lru := lru[..|lru| - 1];
    }

    lemma CacheSize(n: nat)
      requires Sound(file, cache, lru, n)
      ensures |cache| == |lru|
    {
      DistinctSize(lru, cache.Keys);
      assert |cache.Keys| == |cache|;
    }

    /** `set_cache_capacity`. A closed pager has nothing cached and only takes note. */
    method SetCacheCapacity(n: nat)
      requires Valid() || (!isOpen && cache == map[])
      modifies this`capacity, this`file, this`lru, this`cache
      ensures capacity == n
      ensures old(Valid()) ==>
                Valid() && Content() == old(Content()) && (old(Dense()) ==> Dense()) && lru == Take(old(lru), n)
      ensures !isOpen ==> file == old(file) && lru == old(lru) && cache == map[]
    {
      hide Sound, Flatten, NoGaps;
      capacity := n;
      if !isOpen {
        return;
      }
      CacheSize(pageCount);
      while |cache| > capacity
        invariant Steady() && Content() == old(Content()) && (old(Dense()) ==> Dense())
        invariant |lru| == |cache| && |lru| <= |old(lru)| && lru == old(lru)[..|lru|]
        invariant capacity == n && (|lru| == |old(lru)| || |lru| >= n)
        decreases |lru|
      {
        EvictOne(pageCount);
        CacheSize(pageCount);
      }
    }

    /** `touch_cache`. */
    method TouchCache(id: nat)
      requires Valid()
      modifies this`lru
      ensures Valid() && lru == if id in cache then Touch(old(lru), id, capacity) else old(lru)
    {
      if id !in cache {
        return;
      }
      TouchHit(lru, id, capacity);
      lru := [id] + Without(lru, id);
    }

    /** The eviction loop of `put_cache`. */
    method MakeRoom(ghost n: nat)
      requires Sound(file, cache, lru, n) && |lru| <= capacity && capacity > 0
      modifies this`file, this`lru, this`cache
      ensures Sound(file, cache, lru, n) && Flatten(file, cache, n) == old(Flatten(file, cache, n))
      ensures old(NoGaps(file, cache, n)) ==> NoGaps(file, cache, n)
      ensures lru == Take(old(lru), capacity - 1)
      ensures forall id :: id in cache ==> id in old(cache)
      ensures forall id :: 0 <= id < |old(file)| && id !in old(cache) ==> id < |file| && file[id] == old(file)[id]
    {
      hide Sound, Flatten, NoGaps;
      CacheSize(n);
      while |cache| >= capacity
        invariant Sound(file, cache, lru, n) && Flatten(file, cache, n) == old(Flatten(file, cache, n))
        invariant old(NoGaps(file, cache, n)) ==> NoGaps(file, cache, n)
        invariant |lru| == |cache| && |lru| <= |old(lru)| && lru == old(lru)[..|lru|]
        invariant |lru| == |old(lru)| || |lru| >= capacity - 1
        invariant forall id :: id in cache ==> id in old(cache)
        invariant forall id :: 0 <= id < |old(file)| && id !in old(cache) ==> id < |file| && file[id] == old(file)[id]
        decreases |lru|
      {
        EvictOne(n);
        CacheSize(n);
      }
    }

    /** `put_cache`, for a page count already raised from n to cover the page. */
    method PutCache(id: nat, data: PageBytes, dirty: bool, ghost n: nat)
      requires isOpen && Sound(file, cache, lru, n) && |lru| <= capacity && pageCount == Grown(n, id)
      requires MayCache(file, cache, n, id, Slot(data, dirty))
      modifies this`file, this`lru, this`cache, this`scratch
      ensures Valid() && lru == Touch(old(lru), id, capacity)
      ensures Content() == old(if dirty then Store(Flatten(file, cache, n), id, data) else Flatten(file, cache, n))
      ensures id <= n && old(NoGaps(file, cache, n)) ==> Dense()
      ensures capacity > 0 ==> id in cache && cache[id] == Slot(data, dirty)
    {
      hide Flatten, NoGaps, Distinct, FileWrite, Store, Touch, Sound, Without;
      SoundList(n);
      if capacity == 0 {
        if dirty {
          WrittenThrough(file, cache, n, id, data);
          file := FileWrite(file, id, data);
        }
        scratch := data;
        NoCapacity(lru, id);
        return;
      }
      if id in cache {
        TouchHit(lru, id, capacity);
        Cached(file, cache, lru, n, id, Slot(data, dirty), [id] + Without(lru, id));
        cache := cache[id := Slot(data, dirty)];
        lru := [id] + Without(lru, id);
        return;
      }
      TouchMiss(lru, id, capacity);
      MakeRoom(n);
      SoundList(n);
      Cached(file, cache, lru, n, id, Slot(data, dirty), [id] + lru);
      lru := [id] + lru;
      cache := cache[id := Slot(data, dirty)];
    }

    /** The recency list names the cached pages once each. */
    lemma SoundList(n: nat)
      requires Sound(file, cache, lru, n)
      ensures Distinct(lru) && forall x :: x in lru <==> x in cache
    {
      hide CleanIsStored;
    }

    lemma NoCapacity(l: seq<nat>, x: nat)
      requires |l| == 0
      ensures Touch(l, x, 0) == l
    {
    }

    /** `load_page_from_disk`, for a page that is not cached. */
    method LoadPageFromDisk(id: nat) returns (r: Result<()>)
      requires Valid() && id !in cache && capacity > 0
      modifies this`file, this`lru, this`cache, this`scratch
      ensures r == if id < |old(file)| then Ok(()) else Throw(if id < pageCount then BadFile else PastEnd)
      ensures r.Ok? ==> Valid() && Content() == old(Content()) && (old(Dense()) ==> Dense())
      ensures r.Ok? ==> lru == Touch(old(lru), id, capacity) && id in cache
      ensures !r.Ok? ==> r.Throw? && unchanged(this)
    {
      hide Sound, Flatten, NoGaps, Touch;
      FileIsCounted();
      if id >= pageCount {
        return Throw(PastEnd);
      }
      if id >= |file| {
        return Throw(BadFile);
      }
      PutCache(id, file[id], false, pageCount);
      return Ok(());
    }

    lemma FileIsCounted()
      requires Steady()
      ensures |file| <= pageCount
      ensures forall id :: id in cache ==> id < pageCount
    {
    }

    /** `read_page`: the page as last written. The one way to fail, other than
        reading past the end, is a page that was skipped and never written, while
        the file is still too short to have it. */
    method ReadPage(id: nat) returns (r: Result<PageBytes>)
      requires Valid()
      modifies this`file, this`lru, this`cache, this`scratch
      ensures r.Ok? ==> Valid() && Content() == old(Content()) && (old(Dense()) ==> Dense())
      ensures r.Ok? ==> id < pageCount && r.value == old(Content())[id] && lru == Touch(old(lru), id, capacity)
      ensures !r.Ok? ==> r.Throw? && unchanged(this)
      ensures id >= pageCount ==> r == Throw(PastEnd)
      ensures old(Dense()) && id < pageCount ==> r.Ok?
    {
      hide Sound, Flatten, Touch;
      FileIsCounted();
      if capacity == 0 {
        EmptyCache(id);
        if id >= pageCount {
          return Throw(PastEnd);
        }
        if id >= |file| {
          return Throw(BadFile);
        }
        scratch := file[id];
        NoCapacity(lru, id);
        return Ok(scratch);
      }
      if id in cache {
        TouchCache(id);
        return Ok(cache[id].data);
      }
      var _ :- LoadPageFromDisk(id);
      FileIsCounted();
      return Ok(cache[id].data);
    }

    lemma EmptyCache(id: nat)
      requires Valid() && capacity == 0
      ensures id !in cache && lru == []
    {
      assert id in lru <==> id in cache;
    }

    /** `write_page`: from now on the page holds these bytes. */
    method WritePage(id: nat, data: seq<byte>) returns (r: Result<()>)
      requires Valid()
      modifies this`file, this`pageCount, this`lru, this`cache, this`scratch
      ensures r.Ok? <==> |data| == PAGE_SIZE
      ensures r.Ok? ==> Valid() && Content() == Store(old(Content()), id, data) && lru == Touch(old(lru), id, capacity)
      ensures r.Ok? && old(Dense()) && id <= old(pageCount) ==> Dense()
      ensures !r.Ok? ==> r.Throw? && unchanged(this)
    {
      hide Sound, Flatten, NoGaps, Touch, Store;
      if |data| != PAGE_SIZE {
        return Throw(BadFile);
      }
      ghost var n := pageCount;
      if id >= pageCount {
        pageCount := id + 1;
      }
      PutCache(id, data, true, n);
      return Ok(());
    }

    /** `allocate_page`: a zero page at the end. */
    method AllocatePage() returns (id: nat)
      requires Valid()
      modifies this`file, this`pageCount, this`lru, this`cache, this`scratch
      ensures id == old(pageCount) && Valid() && (old(Dense()) ==> Dense())
      ensures Content() == old(Content()) + [ZeroPage()] && lru == Touch(old(lru), id, capacity)
      ensures forall i :: 0 <= i < PAGE_SIZE ==> Content()[id][i] == 0
    {
      id := pageCount;
      var w := WritePage(id, ZeroPage());
    }

    /** `flush_dirty_pages`, which visits the cached pages in no particular order. */
    method FlushDirtyPages()
      requires Valid()
      modifies this`file, this`cache
      ensures Valid() && Content() == old(Content()) && file == Content() && Dense()
      ensures forall id :: id in cache ==> !cache[id].dirty
    {
      hide Flatten, Distinct, FileWrite, CleanIsStored, NoGaps;
      var todo := cache.Keys;
      while todo != {}
        invariant Valid() && Content() == old(Content()) && todo <= cache.Keys
        invariant forall id :: id in cache && id !in todo ==> !cache[id].dirty
        decreases |todo|
      {
        var id :| id in todo;
        todo := todo - {id};
        if cache[id].dirty {
          Flushed(file, cache, lru, pageCount, id);
          file := FileWrite(file, id, cache[id].data);
          cache := cache[id := cache[id].(dirty := false)];
        }
      }
      AllFlushed(file, cache, lru, pageCount);
    }

    method Flush()
      requires isOpen ==> Valid()
      modifies this`file, this`cache
      ensures if isOpen then Valid() && Dense() && Content() == old(Content()) && file == Content() else unchanged(this)
    {
      if isOpen {
        FlushDirtyPages();
      }
    }

    /** `close`: everything written is in the file that stays behind. */
    method Close() returns (left: seq<PageBytes>)
      requires isOpen ==> Valid()
      modifies this
      ensures !isOpen && pageCount == 0 && lru == [] && cache == map[] && capacity == old(capacity)
      ensures old(isOpen) ==> left == old(Content())
    {
      left := [];
      if isOpen {
        Flush();
        left := file;
        isOpen := false;
      }
      pageCount, lru, cache := 0, [], map[];
    }

    /** `open` on a file holding the pages `disk`, truncated when `create` is set. */
    method Open(disk: seq<PageBytes>, create: bool)
      requires isOpen ==> Valid()
      modifies this
      ensures Valid() && Dense() && lru == [] && capacity == old(capacity)
      ensures Content() == if create then [] else disk
    {
      var _ := Close();
      isOpen := true;
      file := if create then [] else disk;
      pageCount := |file|;
    }
  }
}
