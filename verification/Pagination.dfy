/**
  * Cursor pagination in the Python client's helpers, over a store that may change between pages.
  *
  * The server is a parameter: a function from the number of the query and the query itself to a page,
  * known to honour the cursor contract against the store as it stands at that query. The number of
  * stores given bounds how long the scan is watched.
  */
module Pagination {
  import opened Bytes
  import opened Keys

  type Store = map<Key, Value>

  /** Range includes its start and excludes its end; an empty end means no end. */
  datatype Selection = Range(startKey: Key, endKey: Key) | Prefix(prefix: Key)

  datatype Query = Query(selection: Selection, limit: nat, cursor: Key)
  datatype Page = Page(items: seq<Item>, hasMore: bool, nextCursor: Key)

  predicate Selected(sel: Selection, k: Key) {
    match sel
    case Range(a, b) => !Less(k, a) && (b == [] || Less(k, b))
    case Prefix(p) => p <= k
  }

  /** The cursor is the last key of the page before; the empty cursor asks for the first page. */
  predicate Beyond(cursor: Key, k: Key) { cursor == [] || Less(cursor, k) }

  predicate Wanted(store: Store, q: Query, k: Key) {
    k in store && Selected(q.selection, k) && Beyond(q.cursor, k)
  }

  function Last(items: seq<Item>): Key
    requires items != []
  {
    items[|items| - 1].0
  }

  /** The cursor contract: the first `limit` wanted items in key order, whether there are more, and where they start. */
  ghost predicate IsPage(store: Store, q: Query, p: Page) {
    && Increasing(p.items)
    && (forall i :: 0 <= i < |p.items| ==> Wanted(store, q, p.items[i].0) && p.items[i].1 == store[p.items[i].0])
    && (forall k :: Wanted(store, q, k) && k !in KeySet(p.items) ==>
          p.hasMore && (p.items != [] ==> Less(Last(p.items), k)))
    && (p.hasMore ==> exists k :: Wanted(store, q, k) && k !in KeySet(p.items))
    && |p.items| <= q.limit && (p.hasMore ==> |p.items| == q.limit)
    && (p.hasMore && p.items != [] ==> p.nextCursor == Last(p.items))
  }

  lemma {:induction false} GreatestKey(keys: set<Key>) returns (m: Key)
    requires keys != {}
    ensures m in keys && forall k :: k in keys && k != m ==> Less(k, m)
    decreases |keys|
  {
    m :| m in keys;
    var rest := keys - {m};
    if rest != {} {
      var n := GreatestKey(rest);
      LessTotal(m, n);
      if Less(m, n) {
        m := n;
      } else {
        forall k | k in keys && k != m ensures Less(k, m) {
          if k != n { LessTransitive(k, n, m); }
        }
      }
    }
  }

  lemma {:induction false} ListInOrder(store: Store, keys: set<Key>) returns (items: seq<Item>)
    requires keys <= store.Keys
    ensures Increasing(items) && KeySet(items) == keys
    ensures forall i :: 0 <= i < |items| ==> items[i].0 in keys && items[i].1 == store[items[i].0]
    decreases |keys|
  {
    items := [];
    if keys != {} {
      var m := GreatestKey(keys);
      var rest := ListInOrder(store, keys - {m});
      items := rest + [(m, store[m])];
      IncreasingConcat(rest, [(m, store[m])]);
      KeySetConcat(rest, [(m, store[m])]);
      assert KeySet([(m, store[m])]) == {m} by { assert [(m, store[m])][0].0 == m; }
    }
  }

  /** The keys that do not fit on the page come after those that do. */
  lemma RestIsBeyond(all: seq<Item>, n: nat, k: Key)
    requires Increasing(all) && n <= |all| && k in KeySet(all) && k !in KeySet(all[..n])
    ensures n < |all| && (n > 0 ==> Less(all[n - 1].0, k))
  {
    assert all == all[..n] + all[n..];
    KeySetConcat(all[..n], all[n..]);
    var j :| 0 <= j < |all[n..]| && all[n..][j].0 == k;
    assert all[n + j].0 == k;
  }

  /** The cursor contract can always be met. */
  lemma EveryQueryHasAPage(store: Store, q: Query) returns (p: Page)
    ensures IsPage(store, q, p)
  {
    var wanted := set k | k in store && Wanted(store, q, k);
    var all := ListInOrder(store, wanted);
    var n := if |all| <= q.limit then |all| else q.limit;
    var items := all[..n];
    p := Page(items, n < |all|, if items == [] then [] else Last(items));
    forall k | Wanted(store, q, k) && k !in KeySet(items) ensures n < |all| && (n > 0 ==> Less(all[n - 1].0, k)) {
      assert k in wanted;
      RestIsBeyond(all, n, k);
    }
    if n < |all| {
      var k := all[n].0;
      assert k in KeySet(all);
      assert k !in KeySet(items) by { LessIrreflexive(k); }
      assert Wanted(store, q, k);
    }
    forall i | 0 <= i < n ensures Wanted(store, q, items[i].0) && items[i].1 == store[items[i].0] {
      assert items[i] == all[i];
    }
  }

  ghost predicate Serves(server: (nat, Query) -> Page, stores: seq<Store>) {
    forall i, q :: 0 <= i < |stores| ==> IsPage(stores[i], q, server(i, q))
  }

  ghost predicate Fixed(stores: seq<Store>) {
    forall i :: 0 <= i < |stores| ==> stores[i] == stores[0]
  }

  /** The keys a scan from `from` is meant to return. */
  ghost function Target(store: Store, sel: Selection, from: Key): set<Key> {
    set k | k in store && Selected(sel, k) && Beyond(from, k)
  }

  /** The first page must be the empty key alone, with more keys behind it: its cursor leads nowhere. */
  ghost predicate StuckOnEmptyKey(store: Store, sel: Selection, from: Key, limit: nat) {
    limit == 1 && [] in Target(store, sel, from) && Target(store, sel, from) != {[]}
  }

  ghost predicate InAll(stores: seq<Store>, k: Key) {
    forall s :: s in stores ==> k in s
  }

  ghost predicate InSome(stores: seq<Store>, item: Item) {
    exists s :: s in stores && item.0 in s && s[item.0] == item.1
  }

  /** Each item lies in the selection and was in the store, with that value, when some page was served. */
  ghost predicate FromStores(stores: seq<Store>, sel: Selection, from: Key, done: seq<Item>) {
    forall i :: 0 <= i < |done| ==> Selected(sel, done[i].0) && Beyond(from, done[i].0) && InSome(stores, done[i])
  }

  /** Every key of the selection that was present throughout, up to the cursor, has been collected. */
  ghost predicate Covered(stores: seq<Store>, sel: Selection, from: Key, cursor: Key, done: seq<Item>) {
    forall k :: InAll(stores, k) && Selected(sel, k) && Beyond(from, k) && !Less(cursor, k) ==> k in KeySet(done)
  }

  /** Every key of the selection that was present throughout has been collected. */
  ghost predicate Complete(stores: seq<Store>, sel: Selection, from: Key, done: seq<Item>) {
    forall k :: InAll(stores, k) && Selected(sel, k) && Beyond(from, k) ==> k in KeySet(done)
  }

  /** What has been collected after the pages of `stores`, with the scan to go on from `cursor`. */
  ghost predicate Progress(stores: seq<Store>, sel: Selection, from: Key, cursor: Key, done: seq<Item>) {
    && Increasing(done) && FromStores(stores, sel, from, done)
    && (stores == [] ==> done == [] && cursor == from)
    && (stores != [] ==> done != [] && cursor == Last(done) && |stores| <= |done|
                         && Covered(stores, sel, from, cursor, done))
  }

  lemma PageKeepsOrder(stores: seq<Store>, store: Store, sel: Selection, from: Key, limit: nat, cursor: Key,
                       done: seq<Item>, p: Page)
    requires Progress(stores, sel, from, cursor, done) && (stores == [] || cursor != [])
    requires IsPage(store, Query(sel, limit, cursor), p)
    ensures Increasing(done + p.items) && FromStores(stores + [store], sel, from, done + p.items)
  {
    IncreasingConcat(done, p.items);
    var all := done + p.items;
    forall i | 0 <= i < |all|
      ensures Selected(sel, all[i].0) && Beyond(from, all[i].0) && InSome(stores + [store], all[i])
    {
      if i < |done| {
        assert InSome(stores, done[i]);
        var s :| s in stores && all[i].0 in s && s[all[i].0] == all[i].1;
        assert s in stores + [store];
      } else {
        assert p.items[i - |done|] == all[i] && store in stores + [store];
        if stores != [] && from != [] { LessTransitive(from, cursor, all[i].0); }
      }
    }
  }

  lemma PageCovers(stores: seq<Store>, store: Store, sel: Selection, from: Key, limit: nat, cursor: Key,
                   done: seq<Item>, p: Page)
    requires Progress(stores, sel, from, cursor, done) && (stores == [] || cursor != [])
    requires IsPage(store, Query(sel, limit, cursor), p)
    ensures p.items != [] ==> Covered(stores + [store], sel, from, Last(p.items), done + p.items)
    ensures !p.hasMore ==> Complete(stores + [store], sel, from, done + p.items)
  {
    KeySetConcat(done, p.items);
    forall k | InAll(stores + [store], k) && Selected(sel, k) && Beyond(from, k)
      ensures k in KeySet(done + p.items) || (p.hasMore && (p.items != [] ==> Less(Last(p.items), k)))
    {
      assert store in stores + [store] && forall s :: s in stores ==> s in stores + [store];
      if stores == [] || Less(cursor, k) {
        assert Wanted(store, Query(sel, limit, cursor), k);
      } else {
        assert InAll(stores, k);
      }
    }
  }

  /** The state of a scan that did not get stuck: under way, or finished with everything collected. */
  ghost predicate ScanInv(used: seq<Store>, sel: Selection, from: Key, cursor: Key, done: seq<Item>, finished: bool) {
    if finished then Increasing(done) && FromStores(used, sel, from, done) && Complete(used, sel, from, done)
    else Progress(used, sel, from, cursor, done) && (used != [] ==> cursor != [])
  }

  /** Only the first page can end on the empty key with more to come, and it does when it must. */
  lemma NextCursorIsAKey(store: Store, sel: Selection, from: Key, limit: nat, cursor: Key, p: Page)
    requires limit >= 1 && IsPage(store, Query(sel, limit, cursor), p) && p.hasMore
    requires cursor == from || cursor != []
    ensures p.items != [] && p.nextCursor == Last(p.items)
    ensures p.nextCursor == [] ==> cursor == from && StuckOnEmptyKey(store, sel, from, limit)
  {
    if p.nextCursor == [] {
      assert |p.items| > 1 ==> Less(p.items[0].0, Last(p.items));
      assert KeySet(p.items) == {[]} by { assert p.items[0].0 == []; }
      var k :| Wanted(store, Query(sel, limit, cursor), k) && k !in KeySet(p.items);
      assert k in Target(store, sel, from);
    }
  }

  lemma ScanTurn(used: seq<Store>, store: Store, sel: Selection, from: Key, limit: nat, cursor: Key,
                 done: seq<Item>, p: Page)
    requires limit >= 1 && ScanInv(used, sel, from, cursor, done, false)
    requires IsPage(store, Query(sel, limit, cursor), p)
    requires used == [] ==> !StuckOnEmptyKey(store, sel, from, limit)
    ensures ScanInv(used + [store], sel, from, p.nextCursor, done + p.items, !p.hasMore)
  {
    PageKeepsOrder(used, store, sel, from, limit, cursor, done, p);
    PageCovers(used, store, sel, from, limit, cursor, done, p);
    if p.hasMore {
      if used == [] || cursor != from || !StuckOnEmptyKey(store, sel, from, limit) {
        NextCursorIsAKey(store, sel, from, limit, cursor, p);
      }
    }
  }

  /** A stuck page is the empty key with more to come, and asks for the first page again. */
  lemma StuckPage(store: Store, sel: Selection, p: Page)
    requires StuckOnEmptyKey(store, sel, [], 1) && IsPage(store, Query(sel, 1, []), p)
    ensures p.hasMore && p.items == [([], store[[]])] && p.nextCursor == []
  {
    assert Wanted(store, Query(sel, 1, []), []);
    assert [] in KeySet(p.items);
    var k :| k in Target(store, sel, []) && k != [];
    assert Wanted(store, Query(sel, 1, []), k);
  }

  lemma CountPages(stores: seq<Store>, sel: Selection, from: Key, done: seq<Item>)
    requires stores != [] && Fixed(stores) && Increasing(done) && FromStores(stores, sel, from, done)
    ensures KeySet(done) <= Target(stores[0], sel, from) && |done| <= |Target(stores[0], sel, from)|
  {
    forall k | k in KeySet(done) ensures k in Target(stores[0], sel, from) {
      var i :| 0 <= i < |done| && done[i].0 == k;
      assert InSome(stores, done[i]);
    }
    IncreasingHasDistinctKeys(done);
    SubsetSize(KeySet(done), Target(stores[0], sel, from));
  }

  lemma {:induction false} SubsetSize(a: set<Key>, b: set<Key>)
    requires a <= b
    ensures |a| <= |b|
    decreases |a|
  {
    if a != {} {
      var x :| x in a;
      SubsetSize(a - {x}, b - {x});
    }
  }

  /** Every key of the selection once, in order, with its value. */
  ghost predicate WholeSelection(store: Store, sel: Selection, from: Key, items: seq<Item>) {
    && Increasing(items) && KeySet(items) == Target(store, sel, from)
    && forall i :: 0 <= i < |items| ==> items[i].0 in store && items[i].1 == store[items[i].0]
  }

  /** There is only one such list, so what a finished scan returns does not depend on its page size. */
  lemma WholeSelectionIsUnique(store: Store, sel: Selection, from: Key, x: seq<Item>, y: seq<Item>)
    requires WholeSelection(store, sel, from, x) && WholeSelection(store, sel, from, y)
    ensures x == y
  {
    IncreasingIsUnique(x, y, store);
  }

  lemma FinishedScanIsWhole(a: seq<Store>, sel: Selection, from: Key, x: seq<Item>)
    requires a != [] && Fixed(a) && Increasing(x) && FromStores(a, sel, from, x) && Complete(a, sel, from, x)
    ensures WholeSelection(a[0], sel, from, x)
  {
    CountPages(a, sel, from, x);
    forall k | k in Target(a[0], sel, from) ensures k in KeySet(x) {
      assert InAll(a, k);
    }
    forall i | 0 <= i < |x| ensures x[i].0 in a[0] && x[i].1 == a[0][x[i].0] {
      assert InSome(a, x[i]);
    }
  }

  function SelectionOf(startKey: Key, endKey: Key, prefix: Key): Selection {
    if prefix != [] then Prefix(prefix) else Range(startKey, endKey)
  }

  /** What the caller of iterate_range asks for: a prefix if there is one, else from start to before end. */
  predicate InScan(startKey: Key, endKey: Key, prefix: Key, k: Key) {
    if |prefix| > 0 then |k| >= |prefix| && k[..|prefix|] == prefix
    else (k == startKey || Less(startKey, k)) && (|endKey| > 0 ==> Less(k, endKey))
  }

  lemma SelectedExactly(startKey: Key, endKey: Key, prefix: Key, k: Key)
    ensures Selected(SelectionOf(startKey, endKey, prefix), k) <==> InScan(startKey, endKey, prefix, k)
  {
    LessTotal(startKey, k);
    LessIrreflexive(k);
    if Less(startKey, k) && Less(k, startKey) { LessTransitive(k, startKey, k); }
  }

  /**
    * A scan so far: its first `stuck` pages were the empty key alone, each asking for the first page
    * again, and from then on it went the way of a scan that does not get stuck.
    */
  ghost predicate ScanAfterStuck(used: seq<Store>, sel: Selection, limit: nat, stuck: nat, cursor: Key,
                                 yielded: seq<Item>, finished: bool) {
    && stuck <= |used| && stuck <= |yielded|
    && (forall i :: 0 <= i < stuck ==> StuckOnEmptyKey(used[i], sel, [], limit) && yielded[i] == ([], used[i][[]]))
    && (stuck < |used| ==> !StuckOnEmptyKey(used[stuck], sel, [], limit))
    && ScanInv(used[stuck..], sel, [], cursor, yielded[stuck..], finished)
  }

  /** Some position holds the key, and no other does. */
  ghost predicate OnceIn(yielded: seq<Item>, k: Key) {
    exists i :: 0 <= i < |yielded| && OnlyAt(yielded, k, i)
  }

  ghost predicate OnlyAt(yielded: seq<Item>, k: Key, i: nat)
    requires i < |yielded|
  {
    forall j :: 0 <= j < |yielded| ==> (yielded[j].0 == k <==> j == i)
  }

  /** Every non-empty key of the selection that was present throughout has been yielded exactly once. */
  ghost predicate AllOnce(used: seq<Store>, sel: Selection, yielded: seq<Item>) {
    forall k :: k != [] && InAll(used, k) && Selected(sel, k) ==> OnceIn(yielded, k)
  }

  lemma ScanTurnAfterStuck(used: seq<Store>, store: Store, sel: Selection, limit: nat, stuck: nat, cursor: Key,
                           yielded: seq<Item>, p: Page) returns (stuck': nat)
    requires limit >= 1 && ScanAfterStuck(used, sel, limit, stuck, cursor, yielded, false)
    requires IsPage(store, Query(sel, limit, cursor), p)
    ensures ScanAfterStuck(used + [store], sel, limit, stuck', p.nextCursor, yielded + p.items, !p.hasMore)
    ensures stuck' == if stuck == |used| && StuckOnEmptyKey(store, sel, [], limit) then stuck + 1 else stuck
  {
    var all := yielded + p.items;
    if stuck == |used| && StuckOnEmptyKey(store, sel, [], limit) {
      stuck' := stuck + 1;
      assert used[stuck..] == [] && yielded[stuck..] == [];
      StuckPage(store, sel, p);
      assert (used + [store])[stuck'..] == [] && all[stuck'..] == [];
    } else {
      stuck' := stuck;
      ScanTurn(used[stuck..], store, sel, [], limit, cursor, yielded[stuck..], p);
      assert (used + [store])[stuck..] == used[stuck..] + [store] && all[stuck..] == yielded[stuck..] + p.items;
      assert stuck < |used| ==> (used + [store])[stuck] == used[stuck];
    }
  }

  /** The same for the page that the server gives to the next query of a scan. */
  lemma PageOfScan(server: (nat, Query) -> Page, stores: seq<Store>, pages: nat, sel: Selection, limit: nat, stuck: nat,
                   cursor: Key, yielded: seq<Item>, p: Page) returns (stuck': nat)
    requires limit >= 1 && pages < |stores| && Serves(server, stores) && p == server(pages, Query(sel, limit, cursor))
    requires ScanAfterStuck(stores[..pages], sel, limit, stuck, cursor, yielded, false)
    ensures ScanAfterStuck(stores[..pages + 1], sel, limit, stuck', p.nextCursor, yielded + p.items, !p.hasMore)
    ensures p.items == [] ==> yielded + p.items == yielded && !p.hasMore
  {
    assert IsPage(stores[pages], Query(sel, limit, cursor), p);
    assert stores[..pages + 1] == stores[..pages] + [stores[pages]];
    stuck' := ScanTurnAfterStuck(stores[..pages], stores[pages], sel, limit, stuck, cursor, yielded, p);
  }

  /** Stuck pages do not repeat or lose any other key. */
  lemma OtherKeysOnce(used: seq<Store>, sel: Selection, limit: nat, stuck: nat, cursor: Key, yielded: seq<Item>, k: Key)
    requires ScanAfterStuck(used, sel, limit, stuck, cursor, yielded, true)
    requires k != [] && InAll(used, k) && Selected(sel, k)
    ensures OnceIn(yielded, k)
  {
    var tail := yielded[stuck..];
    assert InAll(used[stuck..], k) by {
      forall s | s in used[stuck..] ensures k in s { assert s in used; }
    }
    assert k in KeySet(tail);
    var j :| 0 <= j < |tail| && tail[j].0 == k;
    forall i | 0 <= i < |yielded| ensures yielded[i].0 == k <==> i == stuck + j {
      if i >= stuck {
        assert tail[i - stuck] == yielded[i];
        LessIrreflexive(k);
        assert i - stuck < j ==> Less(tail[i - stuck].0, tail[j].0);
        assert j < i - stuck ==> Less(tail[j].0, tail[i - stuck].0);
      } else {
        assert yielded[i].0 == [];
      }
    }
    assert OnlyAt(yielded, k, stuck + j);
  }

  /** The loop of iterate_range. */
  method ScanPages(server: (nat, Query) -> Page, stores: seq<Store>, startKey: Key, endKey: Key, prefix: Key,
                   pageSize: nat)
    returns (yielded: seq<Item>, pages: nat, finished: bool, ghost stuck: nat, ghost last: Key)
    requires pageSize >= 1 && stores != [] && Serves(server, stores)
    ensures 0 < pages <= |stores| && (!finished ==> pages == |stores|)
    ensures
      ScanAfterStuck(stores[..pages], SelectionOf(startKey, endKey, prefix), pageSize, stuck, last, yielded, finished)
  {
    var cursor: Key := [];
    yielded, pages, finished := [], 0, false;
    ghost var sel := SelectionOf(startKey, endKey, prefix);
    stuck, last := 0, [];
    while !finished && pages < |stores|
      invariant pages <= |stores| && (finished ==> pages > 0)
      invariant ScanAfterStuck(stores[..pages], sel, pageSize, stuck, last, yielded, finished)
      invariant !finished ==> last == cursor
      decreases |stores| - pages, !finished
    {
      var result := if prefix != [] then server(pages, Query(Prefix(prefix), pageSize, cursor))
                    else server(pages, Query(Range(startKey, endKey), pageSize, cursor));
      stuck := PageOfScan(server, stores, pages, sel, pageSize, stuck, cursor, yielded, result);
      last := result.nextCursor;
      pages := pages + 1;
      if |result.items| == 0 {
        finished := true;
      } else {
        yielded := yielded + result.items;
        if !result.hasMore {
          finished := true;
        } else {
          cursor := result.nextCursor;
        }
      }
    }
  }

  /** What such a scan comes to when it is over, or when it has been watched to the end of the stores. */
  lemma ScanSummary(stores: seq<Store>, pages: nat, sel: Selection, limit: nat, stuck: nat, last: Key,
                    yielded: seq<Item>, finished: bool)
    requires 0 < pages <= |stores| && (!finished ==> pages == |stores|)
    requires ScanAfterStuck(stores[..pages], sel, limit, stuck, last, yielded, finished)
    ensures finished ==> AllOnce(stores[..pages], sel, yielded)
    ensures stuck == 0 <==> !StuckOnEmptyKey(stores[0], sel, [], limit)
    ensures stuck == 0 ==>
      && Increasing(yielded) && FromStores(stores[..pages], sel, [], yielded)
      && (finished ==> Complete(stores[..pages], sel, [], yielded))
    ensures Fixed(stores) && stuck == 0 && finished ==> WholeSelection(stores[0], sel, [], yielded)
    ensures Fixed(stores) && stuck == 0 && !finished ==> |stores| <= |Target(stores[0], sel, [])|
    ensures Fixed(stores) && stuck > 0 ==>
      !finished && |yielded| == |stores| && forall i :: 0 <= i < |yielded| ==> yielded[i].0 == []
  {
    var used := stores[..pages];
    assert used[0] == stores[0];
    if finished {
      forall k | k != [] && InAll(used, k) && Selected(sel, k) ensures OnceIn(yielded, k) {
        OtherKeysOnce(used, sel, limit, stuck, last, yielded, k);
      }
    }
    if stuck == 0 {
      assert used[0..] == used && yielded[0..] == yielded;
      if Fixed(stores) {
        if finished {
          FinishedScanIsWhole(used, sel, [], yielded);
        } else {
          CountPages(used, sel, [], yielded);
        }
      }
    } else if Fixed(stores) {
      StuckForever(used, sel, limit, stuck, last, yielded, finished);
    }
  }

  /**
    * iterate_range, over any changing store. Its first pages may be the empty key alone, again and again
    * as long as they are stuck; from then on it yields strictly increasing keys, each with a value it had.
    * When it ends, every non-empty key of the selection that was present throughout has been yielded
    * exactly once. Over a fixed store it ends exactly when its first page is not stuck, with the whole
    * selection in order.
    */
  method IterateRange(server: (nat, Query) -> Page, stores: seq<Store>, startKey: Key, endKey: Key, prefix: Key,
                      pageSize: nat)
    returns (yielded: seq<Item>, pages: nat, finished: bool, ghost stuck: nat, ghost last: Key)
    requires pageSize >= 1 && stores != [] && Serves(server, stores)
    ensures pages <= |stores| && (!finished ==> pages == |stores|) && pages > 0
    ensures
      ScanAfterStuck(stores[..pages], SelectionOf(startKey, endKey, prefix), pageSize, stuck, last, yielded, finished)
    ensures finished ==> AllOnce(stores[..pages], SelectionOf(startKey, endKey, prefix), yielded)
    ensures !StuckOnEmptyKey(stores[0], SelectionOf(startKey, endKey, prefix), [], pageSize) ==>
      && Increasing(yielded)
      && FromStores(stores[..pages], SelectionOf(startKey, endKey, prefix), [], yielded)
      && (finished ==> Complete(stores[..pages], SelectionOf(startKey, endKey, prefix), [], yielded))
    ensures Fixed(stores) && |stores| > |Target(stores[0], SelectionOf(startKey, endKey, prefix), [])| ==>
      (finished <==> !StuckOnEmptyKey(stores[0], SelectionOf(startKey, endKey, prefix), [], pageSize))
    ensures Fixed(stores) && finished ==>
      WholeSelection(stores[0], SelectionOf(startKey, endKey, prefix), [], yielded)
    ensures forall i :: 0 <= i < |yielded| ==> InScan(startKey, endKey, prefix, yielded[i].0)
    ensures finished ==> forall k ::
      k != [] && InAll(stores[..pages], k) && InScan(startKey, endKey, prefix, k) ==> OnceIn(yielded, k)
    ensures Fixed(stores) && StuckOnEmptyKey(stores[0], SelectionOf(startKey, endKey, prefix), [], pageSize) ==>
      !finished && |yielded| == |stores| && forall i :: 0 <= i < |yielded| ==> yielded[i].0 == []
  {
    yielded, pages, finished, stuck, last := ScanPages(server, stores, startKey, endKey, prefix, pageSize);
    ghost var sel := SelectionOf(startKey, endKey, prefix);
    ScanSummary(stores, pages, sel, pageSize, stuck, last, yielded, finished);
    YieldsSelected(stores[..pages], sel, pageSize, stuck, last, yielded, finished);
    forall k ensures Selected(sel, k) <==> InScan(startKey, endKey, prefix, k) {
      SelectedExactly(startKey, endKey, prefix, k);
    }
  }

  lemma YieldsSelected(used: seq<Store>, sel: Selection, limit: nat, stuck: nat, cursor: Key, yielded: seq<Item>,
                       finished: bool)
    requires ScanAfterStuck(used, sel, limit, stuck, cursor, yielded, finished)
    ensures forall i :: 0 <= i < |yielded| ==> Selected(sel, yielded[i].0)
  {
    forall i | 0 <= i < |yielded| ensures Selected(sel, yielded[i].0) {
      if i < stuck {
        assert [] in Target(used[i], sel, []);
      } else {
        assert yielded[stuck..][i - stuck] == yielded[i];
      }
    }
  }

  lemma StuckForever(used: seq<Store>, sel: Selection, limit: nat, stuck: nat, last: Key,
                     yielded: seq<Item>, finished: bool)
    requires stuck > 0 && Fixed(used) && ScanAfterStuck(used, sel, limit, stuck, last, yielded, finished)
    ensures !finished && stuck == |used| == |yielded|
  {
    assert StuckOnEmptyKey(used[0], sel, [], limit) && [] in Target(used[0], sel, []);
    assert used[stuck..] == [];
    NoPageNoEnd(sel, yielded[stuck..]);
  }

  lemma NoPageNoEnd(sel: Selection, done: seq<Item>)
    requires Selected(sel, [])
    ensures !(FromStores([], sel, [], done) && Complete([], sel, [], done))
  {
    if done == [] {
      assert InAll([], []) && [] !in KeySet(done);
    } else {
      assert !InSome([], done[0]);
    }
  }

  /**
    * paginate_range_result, whose fetch function asks for one selection with one page size. What it
    * returns is complete exactly when its first page is not stuck on the empty key; a stuck call stops
    * after that page. Over a fixed store it always ends, and a complete result is the whole selection.
    */
  method PaginateRangeResult(server: (nat, Query) -> Page, stores: seq<Store>, sel: Selection, limit: nat,
                             startCursor: Key)
    returns (allItems: seq<Item>, pages: nat, finished: bool)
    requires limit >= 1 && stores != [] && Serves(server, stores)
    ensures pages <= |stores| && (!finished ==> pages == |stores|)
    ensures !StuckOnEmptyKey(stores[0], sel, startCursor, limit) ==>
      Increasing(allItems) && FromStores(stores[..pages], sel, startCursor, allItems)
    ensures finished ==>
      (Complete(stores[..pages], sel, startCursor, allItems) <==> !StuckOnEmptyKey(stores[0], sel, startCursor, limit))
    ensures StuckOnEmptyKey(stores[0], sel, startCursor, limit) ==>
      finished && pages == 1 && allItems == [([], stores[0][[]])]
    ensures Fixed(stores) && |stores| > |Target(stores[0], sel, startCursor)| ==> finished
    ensures Fixed(stores) && finished && !StuckOnEmptyKey(stores[0], sel, startCursor, limit) ==>
      WholeSelection(stores[0], sel, startCursor, allItems)
  {
    var cursor := startCursor;
    allItems, pages, finished := [], 0, false;
    ghost var stuck := StuckOnEmptyKey(stores[0], sel, startCursor, limit);
    while !finished && pages < |stores|
      invariant pages <= |stores|
      invariant finished ==> pages > 0
      invariant !stuck ==> ScanInv(stores[..pages], sel, startCursor, cursor, allItems, finished)
      invariant stuck ==> (!finished ==> pages == 0 && cursor == [] && allItems == [])
      invariant stuck && finished ==> pages == 1 && allItems == [([], stores[0][[]])]
      decreases |stores| - pages, !finished
    {
      var result := server(pages, Query(sel, limit, cursor));
      assert IsPage(stores[pages], Query(sel, limit, cursor), result);
      assert stores[..pages + 1] == stores[..pages] + [stores[pages]];
      if !stuck {
        ScanTurn(stores[..pages], stores[pages], sel, startCursor, limit, cursor, allItems, result);
      } else {
        StuckPage(stores[pages], sel, result);
      }
      pages := pages + 1;
      allItems := allItems + result.items;
      if !result.hasMore || result.nextCursor == [] {
        finished := true;
      } else {
        cursor := result.nextCursor;
      }
    }
    if !stuck && Fixed(stores) {
      if finished {
        FinishedScanIsWhole(stores[..pages], sel, startCursor, allItems);
      } else {
        CountPages(stores[..pages], sel, startCursor, allItems);
      }
    }
    if stuck && finished {
      StuckIsIncomplete(stores[..pages], sel, startCursor, allItems);
    }
  }

  lemma StuckIsIncomplete(used: seq<Store>, sel: Selection, from: Key, done: seq<Item>)
    requires |used| == 1 && StuckOnEmptyKey(used[0], sel, from, 1) && |done| == 1 && done[0].0 == []
    ensures !Complete(used, sel, from, done)
  {
    var k :| k in Target(used[0], sel, from) && k != [];
    assert InAll(used, k) && k !in KeySet(done);
  }
}
