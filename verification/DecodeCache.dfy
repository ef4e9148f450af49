/** The decode cache that the generator emits: a hash table of pages, each page a list node, with
    move-to-front and a most recently used page. */
module DecodeCache {
  import opened Wrappers
  import VariableLength

  const NUM_OPERATIONS_PER_PAGE: nat := 4096
  const NUM_DECODE_HASH_TABLE_ENTRIES: nat := 4096

  /** An instruction code in stream order. */
  type Insn = seq<bool>

  /** A decoded operation: what it is, where and from which code it was decoded, its length in bits
      and its operands. */
  datatype Operation = Operation(kind: nat, addr: nat, encoding: Insn, length: nat, operands: seq<VariableLength.Item>)

  /** What the cache needs of an instruction set: uncached decoding, the size of codes in bits, and
      the number of address units per instruction. */
  datatype Isa = Isa(ncDecode: (nat, Insn) -> Operation, maxsize: nat, unit: nat) {

    ghost predicate Valid() {
      && 0 < unit
      && forall a, c :: ncDecode(a, c).addr == a && ncDecode(a, c).encoding == c && ncDecode(a, c).length <= maxsize
    }

    predicate IsCode(c: Insn) { |c| == maxsize }

    /** `Operation::Match`: the address and, over the operation's own length, the code. */
    predicate Match(op: Operation, addr: nat, c: Insn) {
      op.length <= |c| && op.length <= |op.encoding| && op.encoding[..op.length] == c[..op.length] && op.addr == addr
    }

    function PageKey(addr: nat): nat
      requires 0 < unit
    {
      addr / unit / NUM_OPERATIONS_PER_PAGE
    }

    function Slot(addr: nat): (slot: nat)
      requires 0 < unit
      ensures slot < NUM_OPERATIONS_PER_PAGE
    {
      addr / unit % NUM_OPERATIONS_PER_PAGE
    }
  }

  // ---------- what pages and slots are

  /** The quotient is the number of the interval. */
  lemma QuotientIs(a: nat, m: nat, q: int)
    requires 0 < m
    ensures a / m == q <==> q * m <= a < (q + 1) * m
  {
    var d := a / m;
    assert a == d * m + a % m;
    TimesKeepsOrder(d + 1, q, m);
    TimesKeepsOrder(q + 1, d, m);
  }

  lemma TimesKeepsOrder(x: int, y: int, m: nat)
    ensures x <= y ==> x * m <= y * m
  {
  }

  lemma QuotientTwice(a: nat, m: nat, n: nat)
    requires 0 < m && 0 < n
    ensures a / m / n == a / (n * m)
  {
    var q, p := a / m, a / m / n;
    QuotientIs(a, m, q);
    QuotientIs(q, n, p);
    TimesKeepsOrder(p * n, q, m);
    TimesKeepsOrder(q + 1, (p + 1) * n, m);
    TimesThrice(p, n, m);
    TimesThrice(p + 1, n, m);
    ProductIsPositive(n, m);
    hide *;
    var k := n * m;
    assert p * k <= a < (p + 1) * k;
    QuotientIs(a, k, p);
  }

  lemma TimesThrice(x: int, n: nat, m: nat)
    ensures x * n * m == x * (n * m)
  {
  }

  lemma ProductIsPositive(n: nat, m: nat)
    requires 0 < n && 0 < m
    ensures 0 < n * m
  {
  }

  /** Two addresses have one slot of one page exactly if they are addresses of one instruction. */
  lemma SlotMeans(isa: Isa, a: nat, b: nat)
    requires 0 < isa.unit
    ensures isa.PageKey(a) == isa.PageKey(b) && isa.Slot(a) == isa.Slot(b) <==> a / isa.unit == b / isa.unit
  {
    var x, y := a / isa.unit, b / isa.unit;
    assert x == x / 4096 * 4096 + x % 4096 && y == y / 4096 * 4096 + y % 4096;
  }

  /** They have one page exactly if they lie in one block of 4096 instructions. */
  ghost predicate OneBlock(isa: Isa, a: nat, b: nat) {
    exists k: nat :: InBlock(isa, k, a) && InBlock(isa, k, b)
  }

  ghost predicate InBlock(isa: Isa, k: nat, a: nat) {
    k * (4096 * isa.unit) <= a < (k + 1) * (4096 * isa.unit)
  }

  lemma PageMeans(isa: Isa, a: nat, b: nat)
    requires 0 < isa.unit
    ensures isa.PageKey(a) == isa.PageKey(b) <==> OneBlock(isa, a, b)
  {
    forall x: nat, k: nat ensures isa.PageKey(x) == k <==> InBlock(isa, k, x) {
      QuotientTwice(x, isa.unit, 4096);
      QuotientIs(x, 4096 * isa.unit, k);
    }
    assert InBlock(isa, isa.PageKey(a), a);
  }

  // ---------- the cache as a value: pages by key

  type Slots = s: seq<Option<Operation>> | |s| == NUM_OPERATIONS_PER_PAGE witness seq(NUM_OPERATIONS_PER_PAGE, i => None)
  type Cache = map<nat, Slots>

  function EmptyPage(): Slots {
    seq(NUM_OPERATIONS_PER_PAGE, i => None)
  }

  function Hit(isa: Isa, cache: Cache, addr: nat, insn: Insn): bool
    requires 0 < isa.unit
  {
    var key, slot := isa.PageKey(addr), isa.Slot(addr);
    key in cache && cache[key][slot].Some? && isa.Match(cache[key][slot].value, addr, insn)
  }

  function Decoded(isa: Isa, cache: Cache, addr: nat, insn: Insn): Operation
    requires 0 < isa.unit
  {
    if Hit(isa, cache, addr, insn) then cache[isa.PageKey(addr)][isa.Slot(addr)].value else isa.ncDecode(addr, insn)
  }

  function AfterDecode(isa: Isa, cache: Cache, addr: nat, insn: Insn): Cache
    requires 0 < isa.unit
  {
    var key, slot := isa.PageKey(addr), isa.Slot(addr);
    var page := if key in cache then cache[key] else EmptyPage();
    cache[key := page[slot := Some(Decoded(isa, cache, addr, insn))]]
  }

  // ---------- the page lists

  class DecodeMapPage {
    const key: nat
    var next: DecodeMapPage?
    var operation: Slots

    constructor (key: nat)
      ensures this.key == key && next == null && operation == EmptyPage()
    {
      this.key := key;
      next := null;
      operation := EmptyPage();
    }
  }

  /** A head pointer and next pointers that link exactly the pages of a list, in order. */
  ghost predicate Linked(head: DecodeMapPage?, pages: seq<DecodeMapPage>)
    reads pages`next
  {
    && (head == if pages == [] then null else pages[0])
    && forall i :: 0 <= i < |pages| ==> LinkAt(pages, i)
  }

  /** Page i points to the page after it. */
  ghost predicate LinkAt(pages: seq<DecodeMapPage>, i: nat)
    requires i < |pages|
    reads pages`next
  {
    pages[i].next == if i + 1 < |pages| then pages[i + 1] else null
  }

  /** The pages of bucket b: hashed there, with different keys, and holding what the cache has there. */
  ghost predicate Stores(pages: seq<DecodeMapPage>, b: nat, cache: Cache)
    reads pages`operation
  {
    && (forall i, j :: 0 <= i < j < |pages| ==> pages[i].key != pages[j].key)
    && (forall p :: p in pages ==> p.key % NUM_DECODE_HASH_TABLE_ENTRIES == b)
    && (forall p :: p in pages ==> p.key in cache && cache[p.key] == p.operation)
    && (forall k :: k in cache && k % NUM_DECODE_HASH_TABLE_ENTRIES == b ==> exists p :: p in pages && p.key == k)
  }

  function MoveToFront<T>(s: seq<T>, i: nat): (r: seq<T>)
    requires i < |s|
    ensures |r| == |s| && r[0] == s[i]
    ensures forall j :: 1 <= j < |s| ==> r[j] == s[if j <= i then j - 1 else j]
  {
    [s[i]] + s[..i] + s[i + 1..]
  }

  function Without<T>(s: seq<T>, i: nat): (r: seq<T>)
    requires i < |s|
    ensures |r| == |s| - 1
    ensures forall j :: 0 <= j < |r| ==> r[j] == s[if j < i then j else j + 1]
  {
    s[..i] + s[i + 1..]
  }

  /** One bucket has a page of it moved to the front, and the others are the same. */
  ghost predicate Fronted(before: seq<seq<DecodeMapPage>>, after: seq<seq<DecodeMapPage>>, index: nat, page: DecodeMapPage) {
    && index < |before|
    && exists i: nat :: i < |before[index]| && before[index][i] == page
                        && after == before[index := MoveToFront(before[index], i)]
  }

  lemma FrontedBy(buckets: seq<seq<DecodeMapPage>>, index: nat, page: DecodeMapPage, i: nat)
    requires index < |buckets| && i < |buckets[index]| && buckets[index][i] == page
    ensures Fronted(buckets, buckets[index := MoveToFront(buckets[index], i)], index, page)
    ensures i == 0 ==> Fronted(buckets, buckets, index, page)
  {
    if i == 0 {
      assert MoveToFront(buckets[index], 0) == buckets[index];
      assert buckets[index := buckets[index]] == buckets;
    }
  }

  lemma MoveKeepsStore(pages: seq<DecodeMapPage>, i: nat, b: nat, cache: Cache)
    requires i < |pages| && Stores(pages, b, cache)
    ensures Stores(MoveToFront(pages, i), b, cache)
    ensures forall p :: p in MoveToFront(pages, i) <==> p in pages
  {
    var r := MoveToFront(pages, i);
    assert forall p :: p in r <==> p in pages;
  }

  lemma WithoutStores(pages: seq<DecodeMapPage>, i: nat, b: nat, cache: Cache)
    requires i < |pages| && Stores(pages, b, cache)
    ensures Stores(Without(pages, i), b, cache - {pages[i].key})
    ensures forall p :: p in Without(pages, i) <==> p in pages && p != pages[i]
  {
    var r := Without(pages, i);
    forall p ensures p in r <==> p in pages && p != pages[i] {
      if p in pages && p != pages[i] {
        var j :| 0 <= j < |pages| && pages[j] == p;
        assert r[if j < i then j else j - 1] == p;
      }
    }
  }

  /** The pointers that moving page i to the front leaves make the moved list. */
  lemma MovedList(pages: seq<DecodeMapPage>, i: nat)
    requires 0 < i < |pages| && pages[i].next == pages[0]
    requires pages[i - 1].next == if i + 1 < |pages| then pages[i + 1] else null
    requires forall j :: 0 <= j < |pages| && j != i && j != i - 1 ==>
               LinkAt(pages, j)
    ensures Linked(pages[i], MoveToFront(pages, i))
  {
    var r := MoveToFront(pages, i);
    forall j | 0 <= j < |r| ensures LinkAt(r, j) {
      var from := if j == 0 then i else if j <= i then j - 1 else j;
      assert r[j] == pages[from] && (0 < j && j != i ==> LinkAt(pages, from));
      if j + 1 < |r| {
        assert r[j + 1] == pages[if j + 1 <= i then j else j + 1];
      }
    }
  }

  /** And those that unlinking it leaves make the list without it. */
  lemma UnlinkedList(pages: seq<DecodeMapPage>, i: nat)
    requires 0 < i < |pages|
    requires pages[i - 1].next == if i + 1 < |pages| then pages[i + 1] else null
    requires forall j :: 0 <= j < |pages| && j != i && j != i - 1 ==>
               LinkAt(pages, j)
    ensures Linked(pages[0], Without(pages, i))
  {
    var r := Without(pages, i);
    forall j | 0 <= j < |r| ensures LinkAt(r, j) {
      var from := if j < i then j else j + 1;
      assert r[j] == pages[from] && (j != i - 1 ==> LinkAt(pages, from));
      if j + 1 < |r| {
        assert r[j + 1] == pages[if j + 1 < i then j + 1 else j + 2];
      }
    }
  }

  method LinkFirst(table: array<DecodeMapPage?>, index: nat, prev: DecodeMapPage, cur: DecodeMapPage,
                   ghost pages: seq<DecodeMapPage>, ghost i: nat)
    requires index < table.Length && Linked(table[index], pages) && 0 < i < |pages|
    requires cur == pages[i] && prev == pages[i - 1]
    requires forall j, k :: 0 <= j < k < |pages| ==> pages[j] != pages[k]
    modifies table, prev`next, cur`next
    ensures Linked(table[index], MoveToFront(pages, i))
    ensures forall b :: 0 <= b < table.Length && b != index ==> table[b] == old(table[b])
  {
    assert LinkAt(pages, i);
    assert forall j :: 0 <= j < |pages| ==> LinkAt(pages, j);
    prev.next := cur.next;
    cur.next := table[index];
    table[index] := cur;
    forall j | 0 <= j < |pages| && j != i && j != i - 1 ensures LinkAt(pages, j) {
      assert old(LinkAt(pages, j));
    }
    MovedList(pages, i);
  }

  method LinkWithout(table: array<DecodeMapPage?>, index: nat, prev: DecodeMapPage?, cur: DecodeMapPage,
                     ghost pages: seq<DecodeMapPage>, ghost i: nat)
    requires index < table.Length && Linked(table[index], pages) && i < |pages|
    requires cur == pages[i] && prev == if i == 0 then null else pages[i - 1]
    requires forall j, k :: 0 <= j < k < |pages| ==> pages[j] != pages[k]
    modifies table, pages`next
    ensures Linked(table[index], Without(pages, i))
    ensures forall b :: 0 <= b < table.Length && b != index ==> table[b] == old(table[b])
  {
    assert LinkAt(pages, i);
    if prev == null {
      HeadWithout(pages);
      table[index] := cur.next;
    } else {
      LinkPast(prev, cur, pages, i);
    }
  }

  /** Unlinking a page of one list leaves the others as they are. */
  method LinkWithoutOne(table: array<DecodeMapPage?>, ghost lists: seq<seq<DecodeMapPage>>, index: nat,
                        prev: DecodeMapPage?, cur: DecodeMapPage, ghost i: nat)
    requires index < table.Length == |lists| && i < |lists[index]|
    requires cur == lists[index][i] && prev == if i == 0 then null else lists[index][i - 1]
    requires forall b :: 0 <= b < |lists| ==> Linked(table[b], lists[b])
    requires forall j, k :: 0 <= j < k < |lists[index]| ==> lists[index][j] != lists[index][k]
    requires forall p :: p in lists[index] ==> forall b :: 0 <= b < |lists| && b != index ==> p !in lists[b]
    modifies table, lists[index]`next
    ensures Linked(table[index], Without(lists[index], i))
    ensures forall b :: 0 <= b < |lists| && b != index ==> Linked(table[b], lists[b])
  {
    LinkWithout(table, index, prev, cur, lists[index], i);
    forall b | 0 <= b < |lists| && b != index ensures Linked(table[b], lists[b]) {
      forall j | 0 <= j < |lists[b]| ensures LinkAt(lists[b], j) {
        assert lists[b][j] in lists[b] && lists[b][j] !in lists[index];
        assert old(LinkAt(lists[b], j));
      }
    }
  }

  method LinkPast(prev: DecodeMapPage, cur: DecodeMapPage, ghost pages: seq<DecodeMapPage>, ghost i: nat)
    requires 0 < i < |pages| && cur == pages[i] && prev == pages[i - 1]
    requires forall j :: 0 <= j < |pages| ==> LinkAt(pages, j)
    requires forall j, k :: 0 <= j < k < |pages| ==> pages[j] != pages[k]
    modifies pages`next
    ensures Linked(pages[0], Without(pages, i))
  {
    assert LinkAt(pages, i);
    prev.next := cur.next;
    cur.next := null;
    forall j | 0 <= j < |pages| && j != i && j != i - 1 ensures LinkAt(pages, j) {
      assert old(LinkAt(pages, j));
    }
    UnlinkedList(pages, i);
  }

  lemma HeadWithout(pages: seq<DecodeMapPage>)
    requires 0 < |pages| && forall j :: 0 <= j < |pages| ==> LinkAt(pages, j)
    ensures Linked(pages[0].next, Without(pages, 0))
  {
    var r := Without(pages, 0);
    assert LinkAt(pages, 0);
    forall j | 0 <= j < |r| ensures LinkAt(r, j) {
      assert LinkAt(pages, j + 1);
    }
  }

  lemma LinkedFront(page: DecodeMapPage, head: DecodeMapPage?, pages: seq<DecodeMapPage>)
    requires Linked(head, pages) && page.next == head
    ensures Linked(page, [page] + pages)
  {
    var r := [page] + pages;
    forall j | 0 <= j < |r| ensures LinkAt(r, j) {
      if j > 0 {
        assert LinkAt(pages, j - 1);
      }
    }
  }

  lemma StoresFront(page: DecodeMapPage, pages: seq<DecodeMapPage>, b: nat, cache: Cache)
    requires Stores(pages, b, cache) && page.key % NUM_DECODE_HASH_TABLE_ENTRIES == b && page.key !in cache
    ensures Stores([page] + pages, b, cache[page.key := page.operation])
  {
    var r := [page] + pages;
    assert forall p :: p in r <==> p == page || p in pages;
  }

  /** Changing the entry of one key leaves the other buckets as they are. */
  lemma OthersKeepStore(buckets: seq<seq<DecodeMapPage>>, index: nat, cache: Cache, changed: Cache, key: nat)
    requires key % NUM_DECODE_HASH_TABLE_ENTRIES == index
    requires forall b :: 0 <= b < |buckets| ==> Stores(buckets[b], b, cache)
    requires forall k :: k != key ==> (k in cache <==> k in changed) && (k in cache ==> cache[k] == changed[k])
    ensures forall b :: 0 <= b < |buckets| && b != index ==> Stores(buckets[b], b, changed)
  {
    forall b | 0 <= b < |buckets| && b != index ensures Stores(buckets[b], b, changed) {
      assert Stores(buckets[b], b, cache);
    }
  }

  class Decoder {
    const isa: Isa
    var mruPage: DecodeMapPage?
    const decodeHashTable: array<DecodeMapPage?>
    /** The pages of every bucket in list order, and the cache they hold. */
    ghost var buckets: seq<seq<DecodeMapPage>>
    ghost var cache: Cache
    ghost var repr: set<DecodeMapPage>

    ghost predicate Valid()
      reads this, decodeHashTable, repr
    {
      && isa.Valid()
      && decodeHashTable.Length == NUM_DECODE_HASH_TABLE_ENTRIES == |buckets|
      && (forall b :: 0 <= b < |buckets| ==> forall p :: p in buckets[b] ==> p in repr)
      && (forall b :: 0 <= b < |buckets| ==> Linked(decodeHashTable[b], buckets[b]) && Stores(buckets[b], b, cache))
      && (mruPage != null ==> InTable(mruPage))
    }

    ghost predicate InTable(p: DecodeMapPage)
      reads this
    {
      var b := p.key % NUM_DECODE_HASH_TABLE_ENTRIES;
      b < |buckets| && p in buckets[b]
    }

    constructor (isa: Isa)
      requires isa.Valid()
      ensures Valid() && this.isa == isa && cache == map[] && mruPage == null
      ensures fresh(decodeHashTable) && repr == {}
    {
      this.isa := isa;
      mruPage := null;
      decodeHashTable := new DecodeMapPage?[NUM_DECODE_HASH_TABLE_ENTRIES](i => null);
      buckets := seq(NUM_DECODE_HASH_TABLE_ENTRIES, i => []);
      cache := map[];
      repr := {};
    }

    /** The search of a bucket that `FindPage` and `InvalidateDecodingCacheEntry` share. */
    method Search(pageKey: nat) returns (prev: DecodeMapPage?, cur: DecodeMapPage?, ghost i: nat)
      requires Valid()
      ensures cur == null <==> pageKey !in cache
      ensures var pages := buckets[pageKey % NUM_DECODE_HASH_TABLE_ENTRIES];
              cur != null ==>
                && i < |pages| && cur == pages[i] && cur.key == pageKey
                && prev == if i == 0 then null else pages[i - 1]
    {
      var index := pageKey % NUM_DECODE_HASH_TABLE_ENTRIES;
      ghost var pages := buckets[index];
      assert Linked(decodeHashTable[index], pages) && Stores(pages, index, cache);
      hide Valid, Stores;
      assert pageKey !in cache <==> forall j :: 0 <= j < |pages| ==> pages[j].key != pageKey by {
        KeyInBucket(pages, index, cache, pageKey);
      }
      prev, cur, i := null, decodeHashTable[index], 0;
      while cur != null
        invariant i <= |pages| && prev == if i == 0 then null else pages[i - 1]
        invariant cur == if i < |pages| then pages[i] else null
        invariant forall j :: 0 <= j < i ==> pages[j].key != pageKey
        decreases |pages| - i
      {
        if cur.key == pageKey {
          return;
        }
        assert LinkAt(pages, i);
        prev := cur;
        cur := cur.next;
        i := i + 1;
      }
    }

    /** Looks for a page by its key. The page found becomes the most recently used one; unless it was
        that already, it also becomes the first of its bucket, whose other pages keep their order. */
    method FindPage(pageKey: nat) returns (page: DecodeMapPage?)
      requires Valid()
      modifies this`mruPage, this`buckets, decodeHashTable, repr`next
      ensures Valid()
      ensures page != null <==> pageKey in cache
      ensures page != null ==> page.key == pageKey && InTable(page) && mruPage == page
      ensures page == null ==> mruPage == old(mruPage) && buckets == old(buckets)
      ensures page != null ==> if page == old(mruPage) then buckets == old(buckets)
                               else Fronted(old(buckets), buckets, pageKey % NUM_DECODE_HASH_TABLE_ENTRIES, page)
    {
      if mruPage != null && mruPage.key == pageKey {
        MruInCache();
        return mruPage;
      }
      var index := pageKey % NUM_DECODE_HASH_TABLE_ENTRIES;
      var prev, cur;
      ghost var i;
      prev, cur, i := Search(pageKey);
      if cur == null { return null; }
      Touch(index, prev, cur, i);
      return cur;
    }

    /** Makes page i of a bucket the first there and the most recently used one. */
    method Touch(index: nat, prev: DecodeMapPage?, cur: DecodeMapPage, ghost i: nat)
      requires Valid() && index < |buckets| && i < |buckets[index]| && cur == buckets[index][i]
      requires prev == if i == 0 then null else buckets[index][i - 1]
      modifies this`mruPage, this`buckets, decodeHashTable, repr`next
      ensures Valid() && InTable(cur) && mruPage == cur
      ensures Fronted(old(buckets), buckets, index, cur)
    {
      hide *;
      ValidFacts();
      Hashed(buckets[index], index, cache, cur);
      FrontedBy(buckets, index, cur, i);
      if prev != null {
        Relink(index, prev, cur, i);
        ValidFacts();
      }
      mruPage := cur;
      ValidFrom();
      FoundInTable(index, cur);
    }

    /** The most recently used page is one of the cache. */
    lemma MruInCache()
      requires Valid() && mruPage != null
      ensures mruPage.key in cache && InTable(mruPage)
    {
    }

    /** Moves page i of a bucket to its front. */
    method Relink(index: nat, prev: DecodeMapPage, cur: DecodeMapPage, ghost i: nat)
      requires Valid() && index < |buckets| && 0 < i < |buckets[index]|
      requires cur == buckets[index][i] && prev == buckets[index][i - 1]
      modifies this`buckets, decodeHashTable, prev`next, cur`next
      ensures Valid() && buckets == old(buckets)[index := MoveToFront(old(buckets)[index], i)]
      ensures InTable(cur)
    {
      hide *;
      ghost var was, pages := buckets, buckets[index];
      ValidFacts();
      OtherBuckets(index, cur);
      OtherBuckets(index, prev);
      DistinctPages(pages, index, cache);
      Hashed(pages, index, cache, cur);
      LinkFirst(decodeHashTable, index, prev, cur, pages, i);
      MoveKeepsStore(pages, i, index, cache);
      buckets := buckets[index := MoveToFront(pages, i)];
      forall b | 0 <= b < |buckets| ensures Linked(decodeHashTable[b], buckets[b]) && Stores(buckets[b], b, cache) {
      }
      ValidFrom();
      FoundInTable(index, cur);
    }

    /** Forgets the page of an address. */
    method InvalidateDecodingCacheEntry(addr: nat)
      requires Valid()
      modifies this, decodeHashTable, repr`next
      ensures Valid() && cache == old(cache) - {isa.PageKey(addr)} && repr == old(repr)
    {
      var pageKey := isa.PageKey(addr);
      if mruPage != null && mruPage.key == pageKey { mruPage := null; }
      var index := pageKey % NUM_DECODE_HASH_TABLE_ENTRIES;
      var prev, cur;
      ghost var i;
      prev, cur, i := Search(pageKey);
      if cur == null {
        assert cache - {pageKey} == cache;
        return;
      }
      Unlink(index, prev, cur, i);
    }

    /** Takes page i out of a bucket. */
    method Unlink(index: nat, prev: DecodeMapPage?, cur: DecodeMapPage, ghost i: nat)
      requires Valid() && index < |buckets| && i < |buckets[index]| && cur == buckets[index][i]
      requires prev == if i == 0 then null else buckets[index][i - 1]
      requires mruPage != cur
      modifies this`buckets, this`cache, decodeHashTable, repr`next
      ensures Valid() && cache == old(cache) - {cur.key}
    {
      hide *;
      ghost var was, pages := buckets, buckets[index];
      ValidFacts();
      forall p | p in pages ensures forall b :: 0 <= b < |buckets| && b != index ==> p !in buckets[b] {
        OtherBuckets(index, p);
      }
      DistinctPages(pages, index, cache);
      Hashed(pages, index, cache, cur);
      LinkWithoutOne(decodeHashTable, was, index, prev, cur, i);
      WithoutStores(pages, i, index, cache);
      OthersKeepStore(was, index, cache, cache - {cur.key}, cur.key);
      cache := cache - {cur.key};
      buckets := buckets[index := Without(pages, i)];
      forall b | 0 <= b < |buckets| ensures Linked(decodeHashTable[b], buckets[b]) && Stores(buckets[b], b, cache) {
      }
      ValidFrom();
    }

    /** Forgets all pages. */
    method InvalidateDecodingCache()
      requires Valid()
      modifies this, decodeHashTable
      ensures Valid() && cache == map[] && mruPage == null && repr == old(repr)
    {
      mruPage := null;
      for index := 0 to NUM_DECODE_HASH_TABLE_ENTRIES
        invariant forall b :: 0 <= b < index ==> decodeHashTable[b] == null
        invariant mruPage == null && repr == old(repr)
      {
        if decodeHashTable[index] != null {
          decodeHashTable[index] := null;
        }
      }
      buckets := seq(NUM_DECODE_HASH_TABLE_ENTRIES, b => []);
      cache := map[];
    }

    /** Decodes through the cache. */
    method Decode(addr: nat, insn: Insn) returns (operation: Operation)
      requires Valid()
      modifies this, decodeHashTable, repr
      ensures Valid() && fresh(repr - old(repr))
      ensures operation == Decoded(isa, old(cache), addr, insn)
      ensures cache == AfterDecode(isa, old(cache), addr, insn)
    {
      hide *;
      UnitIsPositive();
      ghost var was := cache;
      var page := PageOf(isa.PageKey(addr));
      var slot := isa.Slot(addr);
      DecodedOnPage(isa, was, page.operation, addr, insn);
      if page.operation[slot].Some? && isa.Match(page.operation[slot].value, addr, insn) {
        return page.operation[slot].value;
      }
      operation := isa.ncDecode(addr, insn);
      SetSlot(page, slot, operation);
    }

    lemma UnitIsPositive()
      requires Valid()
      ensures 0 < isa.unit
    {
    }

    /** The page of a key, a new one if there is none. */
    method PageOf(pageKey: nat) returns (page: DecodeMapPage)
      requires Valid()
      modifies this, decodeHashTable, repr`next
      ensures Valid() && InTable(page) && page in repr && fresh(repr - old(repr))
      ensures page.key == pageKey && page.operation == if pageKey in old(cache) then old(cache)[pageKey] else EmptyPage()
      ensures cache == if pageKey in old(cache) then old(cache) else old(cache)[pageKey := EmptyPage()]
    {
      hide *;
      var found := FindPage(pageKey);
      if found == null {
        page := AddPage(pageKey);
      } else {
        page := found;
      }
      PageHolds(page);
    }

    /** Puts a new page in front of its bucket. */
    method AddPage(pageKey: nat) returns (page: DecodeMapPage)
      requires Valid() && pageKey !in cache
      modifies this, decodeHashTable
      ensures Valid() && fresh(page) && repr == old(repr) + {page}
      ensures cache == old(cache)[pageKey := EmptyPage()] && page.key == pageKey && InTable(page)
      ensures var index := pageKey % NUM_DECODE_HASH_TABLE_ENTRIES;
              mruPage == page && buckets == old(buckets)[index := [page] + old(buckets)[index]]
    {
      var index := pageKey % NUM_DECODE_HASH_TABLE_ENTRIES;
      hide *;
      ValidFacts();
      page := new DecodeMapPage(pageKey);
      page.next := decodeHashTable[index];
      PutInFront(page, index);
    }

    method PutInFront(page: DecodeMapPage, index: nat)
      requires Valid() && page.key !in cache && index == page.key % NUM_DECODE_HASH_TABLE_ENTRIES
      requires index < decodeHashTable.Length && page.next == decodeHashTable[index]
      modifies this, decodeHashTable
      ensures Valid() && repr == old(repr) + {page} && InTable(page)
      ensures cache == old(cache)[page.key := page.operation]
      ensures mruPage == page && buckets == old(buckets)[index := [page] + old(buckets)[index]]
    {
      hide *;
      ValidFacts();
      ghost var pages := buckets[index];
      LinkedFront(page, decodeHashTable[index], pages);
      StoresFront(page, pages, index, cache);
      OthersKeepStore(buckets, index, cache, cache[page.key := page.operation], page.key);
      decodeHashTable[index] := page;
      mruPage := page;
      buckets := buckets[index := [page] + pages];
      cache := cache[page.key := page.operation];
      repr := repr + {page};
      forall b | 0 <= b < |buckets| ensures Linked(decodeHashTable[b], buckets[b]) && Stores(buckets[b], b, cache) {
      }
      ValidFrom();
      FoundInTable(index, page);
    }

    method SetSlot(page: DecodeMapPage, slot: nat, operation: Operation)
      requires Valid() && InTable(page) && slot < NUM_OPERATIONS_PER_PAGE
      modifies this`cache, page`operation
      ensures Valid() && cache == old(cache)[page.key := old(page.operation)[slot := Some(operation)]]
    {
      page.operation := page.operation[slot := Some(operation)];
      cache := cache[page.key := page.operation];
    }

    lemma ValidFacts()
      requires Valid()
      ensures isa.Valid() && |buckets| == decodeHashTable.Length == NUM_DECODE_HASH_TABLE_ENTRIES
      ensures forall b :: 0 <= b < |buckets| ==> Linked(decodeHashTable[b], buckets[b]) && Stores(buckets[b], b, cache)
      ensures forall b :: 0 <= b < |buckets| ==> forall p :: p in buckets[b] ==> p in repr
      ensures mruPage != null ==> mruPage in buckets[mruPage.key % NUM_DECODE_HASH_TABLE_ENTRIES]
    {
    }

    lemma PageHolds(page: DecodeMapPage)
      requires Valid() && InTable(page)
      ensures page in repr && page.key in cache && cache[page.key] == page.operation
    {
    }

    /** A page of one bucket is in no other one. */
    lemma OtherBuckets(index: nat, p: DecodeMapPage)
      requires Valid() && index < |buckets| && p in buckets[index]
      ensures forall b :: 0 <= b < |buckets| && b != index ==> p !in buckets[b]
    {
      ValidFacts();
    }

    lemma ValidFrom()
      requires isa.Valid() && |buckets| == decodeHashTable.Length == NUM_DECODE_HASH_TABLE_ENTRIES
      requires forall b :: 0 <= b < |buckets| ==> Linked(decodeHashTable[b], buckets[b]) && Stores(buckets[b], b, cache)
      requires forall b :: 0 <= b < |buckets| ==> forall p :: p in buckets[b] ==> p in repr
      requires mruPage != null ==> mruPage in buckets[mruPage.key % NUM_DECODE_HASH_TABLE_ENTRIES]
      ensures Valid()
    {
    }

    lemma FoundInTable(b: nat, p: DecodeMapPage)
      requires b < |buckets| && p in buckets[b] && p.key % NUM_DECODE_HASH_TABLE_ENTRIES == b
      ensures InTable(p)
    {
    }
  }

  /** Decoding on the page of an address, which is empty when it is new. */
  lemma DecodedOnPage(isa: Isa, cache: Cache, page: Slots, addr: nat, insn: Insn)
    requires 0 < isa.unit
    requires var key := isa.PageKey(addr); page == if key in cache then cache[key] else EmptyPage()
    ensures var key, slot := isa.PageKey(addr), isa.Slot(addr);
            if page[slot].Some? && isa.Match(page[slot].value, addr, insn)
            then key in cache && Decoded(isa, cache, addr, insn) == page[slot].value && AfterDecode(isa, cache, addr, insn) == cache
            else Decoded(isa, cache, addr, insn) == isa.ncDecode(addr, insn)
                 && AfterDecode(isa, cache, addr, insn) == cache[key := page[slot := Some(isa.ncDecode(addr, insn))]]
  {
    hide Isa.Match;
    var key, slot := isa.PageKey(addr), isa.Slot(addr);
    if Hit(isa, cache, addr, insn) {
      assert page[slot := page[slot]] == page && cache[key := page] == cache;
    }
  }

  lemma Hashed(pages: seq<DecodeMapPage>, b: nat, cache: Cache, p: DecodeMapPage)
    requires Stores(pages, b, cache) && p in pages
    ensures p.key % NUM_DECODE_HASH_TABLE_ENTRIES == b
  {
  }

  lemma DistinctPages(pages: seq<DecodeMapPage>, b: nat, cache: Cache)
    requires Stores(pages, b, cache)
    ensures forall i, j :: 0 <= i < j < |pages| ==> pages[i] != pages[j]
  {
  }

  lemma KeyInBucket(pages: seq<DecodeMapPage>, b: nat, cache: Cache, k: nat)
    requires Stores(pages, b, cache) && k % NUM_DECODE_HASH_TABLE_ENTRIES == b
    ensures k !in cache <==> forall j :: 0 <= j < |pages| ==> pages[j].key != k
  {
  }
}
