/**
  Keyset pagination as a whole-run protocol: pages that each start after the
  last item of the page before, over a collection that may change in between.
 */
module KeysetScan {
  import opened Wrappers
  import opened Ordering

  ghost predicate StrictOrder<T(!new)>(lt: (T, T) -> bool) {
    && (forall x :: !lt(x, x))
    && (forall x, y, z :: lt(x, y) && lt(y, z) ==> lt(x, z))
  }

  predicate After<T>(lt: (T, T) -> bool, last: Option<T>, x: T) {
    last.Some? ==> lt(last.value, x)
  }

  /**
    A page holds, in order and up to the limit, the first items of the
    collection that come after the last one seen.
   */
  ghost predicate IsPage<T(!new)>(lt: (T, T) -> bool, items: set<T>, last: Option<T>, limit: nat, page: seq<T>) {
    && Increasing(lt, page)
    && |page| <= limit
    && (forall x :: x in page ==> x in items && After(lt, last, x))
    && (forall x :: x in items && After(lt, last, x) && x !in page ==>
         |page| == limit && forall y :: y in page ==> lt(y, x))
  }

  /** Increasing sequences with the same members are the same. */
  lemma {:induction false} IncreasingSame<T(!new)>(lt: (T, T) -> bool, xs: seq<T>, ys: seq<T>)
    requires StrictOrder(lt) && Increasing(lt, xs) && Increasing(lt, ys)
    requires forall x :: x in xs <==> x in ys
    ensures xs == ys
  {
    if xs != [] || ys != [] {
      assert xs != [] ==> xs[0] in ys;
      assert ys != [] ==> ys[0] in xs;
      var i :| 0 <= i < |ys| && ys[i] == xs[0];
      var j :| 0 <= j < |xs| && xs[j] == ys[0];
      assert xs[0] == ys[0];
      forall x ensures x in xs[1..] <==> x in ys[1..] {
        assert x in xs <==> x == xs[0] || x in xs[1..];
        assert x in ys <==> x == ys[0] || x in ys[1..];
      }
      IncreasingSame(lt, xs[1..], ys[1..]);
    }
  }

  lemma {:induction false} NoLonger<T(!new)>(lt: (T, T) -> bool, xs: seq<T>, ys: seq<T>)
    requires StrictOrder(lt) && Increasing(lt, xs) && forall x :: x in xs ==> x in ys
    ensures |xs| <= |ys|
  {
    if xs != [] {
      var last := xs[|xs| - 1];
      assert last in xs;
      var k :| 0 <= k < |ys| && ys[k] == last;
      var rest := ys[..k] + ys[k + 1..];
      forall x | x in xs[..|xs| - 1] ensures x in rest {
        assert x in xs && lt(x, last);
        var l :| 0 <= l < |ys| && ys[l] == x;
        assert if l < k then rest[l] == x else rest[l - 1] == x;
      }
      NoLonger(lt, xs[..|xs| - 1], rest);
    }
  }

  lemma OnBothPages<T(!new)>(lt: (T, T) -> bool, items: set<T>, last: Option<T>, limit: nat, page: seq<T>,
                             other: seq<T>, x: T)
    requires StrictOrder(lt) && IsPage(lt, items, last, limit, page) && IsPage(lt, items, last, limit, other)
    requires x in page
    ensures x in other
  {
    if x !in other {
      forall y | y in other ensures y in page {
        assert lt(y, x);
        assert y !in page ==> lt(x, y);
      }
      var i :| 0 <= i < |page| && page[i] == x;
      forall y | y in other + [x] ensures y in page {}
      forall k, l | 0 <= k < l < |other + [x]| ensures lt((other + [x])[k], (other + [x])[l]) {
        assert other[k] in other;
      }
      NoLonger(lt, other + [x], page);
    }
  }

  /** What is asked for determines the page. */
  lemma PageIsUnique<T(!new)>(lt: (T, T) -> bool, items: set<T>, last: Option<T>, limit: nat, page: seq<T>,
                              other: seq<T>)
    requires StrictOrder(lt) && IsPage(lt, items, last, limit, page) && IsPage(lt, items, last, limit, other)
    ensures page == other
  {
    forall x ensures x in page <==> x in other {
      if x in page { OnBothPages(lt, items, last, limit, page, other, x); }
      if x in other { OnBothPages(lt, items, last, limit, other, page, x); }
    }
    IncreasingSame(lt, page, other);
  }

  function LastOf<T>(page: seq<T>): Option<T> {
    if page == [] then None else Some(page[|page| - 1])
  }

  function Flatten<T>(pages: seq<seq<T>>): seq<T> {
    if pages == [] then [] else Flatten(pages[..|pages| - 1]) + pages[|pages| - 1]
  }

  /**
    The pages of one scan: page `i` is taken from the collection as it is at
    request `i`, with that request's own limit, and an empty page ends the scan.
   */
  ghost predicate IsScan<T(!new)>(lt: (T, T) -> bool, collections: seq<set<T>>, limits: seq<nat>, pages: seq<seq<T>>) {
    && |pages| == |collections| == |limits|
    && (forall i :: 0 <= i < |limits| ==> limits[i] >= 1)
    && (forall i {:trigger PageFollows(lt, collections, limits, pages, i)} :: 0 <= i < |pages| ==>
         PageFollows(lt, collections, limits, pages, i))
  }

  ghost predicate PageFollows<T(!new)>(lt: (T, T) -> bool, collections: seq<set<T>>, limits: seq<nat>,
                                       pages: seq<seq<T>>, i: nat)
    requires i < |pages| == |collections| == |limits|
  {
    && (i > 0 ==> pages[i - 1] != [])
    && IsPage(lt, collections[i], if i == 0 then None else LastOf(pages[i - 1]), limits[i], pages[i])
  }

  lemma ScanPrefix<T(!new)>(lt: (T, T) -> bool, collections: seq<set<T>>, limits: seq<nat>, pages: seq<seq<T>>)
    requires IsScan(lt, collections, limits, pages) && pages != []
    ensures var n := |pages| - 1;
      IsScan(lt, collections[..n], limits[..n], pages[..n])
  {
    var n := |pages| - 1;
    forall i | 0 <= i < n ensures PageFollows(lt, collections[..n], limits[..n], pages[..n], i) {
      assert PageFollows(lt, collections, limits, pages, i);
    }
  }

  /** A scan yields items in strictly increasing order, so none of them twice. */
  lemma {:induction false} ScanIsIncreasing<T(!new)>(lt: (T, T) -> bool, collections: seq<set<T>>, limits: seq<nat>,
                                                     pages: seq<seq<T>>)
    requires StrictOrder(lt) && IsScan(lt, collections, limits, pages)
    ensures Increasing(lt, Flatten(pages))
    ensures pages != [] ==> forall x :: x in Flatten(pages) && pages[|pages| - 1] != [] ==>
      x == pages[|pages| - 1][|pages[|pages| - 1]| - 1] || lt(x, pages[|pages| - 1][|pages[|pages| - 1]| - 1])
  {
    if pages != [] {
      var n := |pages| - 1;
      ScanPrefix(lt, collections, limits, pages);
      ScanIsIncreasing(lt, collections[..n], limits[..n], pages[..n]);
      assert PageFollows(lt, collections, limits, pages, n);
      var before, page := Flatten(pages[..n]), pages[n];
      assert n > 0 ==> pages[..n][n - 1] == pages[n - 1];
      assert n == 0 ==> before == [];
      forall x, y | x in before && y in page ensures lt(x, y) {
        assert After(lt, LastOf(pages[n - 1]), y);
      }
      IncreasingConcat(lt, before, page);
      if page != [] {
        var last := page[|page| - 1];
        assert last in page;
        forall x | x in Flatten(pages) ensures x == last || lt(x, last) {
          if x in page {
            var i :| 0 <= i < |page| && page[i] == x;
          }
        }
      }
    }
  }

  lemma IncreasingConcat<T(!new)>(lt: (T, T) -> bool, xs: seq<T>, ys: seq<T>)
    requires Increasing(lt, xs) && Increasing(lt, ys)
    requires forall x, y :: x in xs && y in ys ==> lt(x, y)
    ensures Increasing(lt, xs + ys)
  {
    forall i, j | 0 <= i < j < |xs + ys| ensures lt((xs + ys)[i], (xs + ys)[j]) {
      if i < |xs| <= j {
        assert (xs + ys)[i] in xs && (xs + ys)[j] in ys;
      }
    }
  }

  /** An item present at every request so far has been returned or is still to come. */
  lemma {:induction false} PersistentItemIsPending<T(!new)>(lt: (T, T) -> bool, collections: seq<set<T>>,
                                                            limits: seq<nat>,
                                                            pages: seq<seq<T>>, x: T)
    requires StrictOrder(lt) && IsScan(lt, collections, limits, pages) && pages != []
    requires forall i :: 0 <= i < |collections| ==> x in collections[i]
    ensures x in Flatten(pages) || (pages[|pages| - 1] != [] && After(lt, LastOf(pages[|pages| - 1]), x))
  {
    var n := |pages| - 1;
    assert PageFollows(lt, collections, limits, pages, n);
    var page := pages[n];
    if n > 0 {
      ScanPrefix(lt, collections, limits, pages);
      PersistentItemIsPending(lt, collections[..n], limits[..n], pages[..n], x);
    }
    if x !in Flatten(pages) {
      assert x !in page && x in collections[n];
      assert |page| == limits[n] && page[|page| - 1] in page;
    }
  }

  /**
    A scan that has come to its end has returned every item that was present
    throughout, however the rest of the collection changed.
   */
  lemma FinishedScanSawPersistentItems<T(!new)>(lt: (T, T) -> bool, collections: seq<set<T>>, limits: seq<nat>,
                                                pages: seq<seq<T>>, x: T)
    requires StrictOrder(lt) && IsScan(lt, collections, limits, pages)
    requires pages != [] && pages[|pages| - 1] == []
    requires forall i :: 0 <= i < |collections| ==> x in collections[i]
    ensures x in Flatten(pages)
  {
    PersistentItemIsPending(lt, collections, limits, pages, x);
  }

  // ------------------------------------------- exactly which items are returned

  /** The page ends with an item before `x`, so a scan that goes on has not come to `x`. */
  predicate EndsBefore<T>(lt: (T, T) -> bool, page: seq<T>, x: T) {
    page != [] && lt(page[|page| - 1], x)
  }

  /** Request `i` is the one that reaches the place of `x` in the order. */
  predicate Settles<T>(lt: (T, T) -> bool, pages: seq<seq<T>>, x: T, i: nat) {
    && i < |pages|
    && (forall j :: 0 <= j < i ==> EndsBefore(lt, pages[j], x))
    && !EndsBefore(lt, pages[i], x)
  }

  /** A finished scan has come to the place of every item. */
  lemma {:induction false} SettledOnce<T(!new)>(lt: (T, T) -> bool, pages: seq<seq<T>>, x: T, from: nat)
    returns (i: nat)
    requires from < |pages| && pages[|pages| - 1] == []
    requires forall j :: 0 <= j < from ==> EndsBefore(lt, pages[j], x)
    ensures Settles(lt, pages, x, i)
    decreases |pages| - from
  {
    if EndsBefore(lt, pages[from], x) {
      i := SettledOnce(lt, pages, x, from + 1);
    } else {
      i := from;
    }
  }

  lemma {:induction false} LaterPagesComeAfter<T(!new)>(lt: (T, T) -> bool, collections: seq<set<T>>, limits: seq<nat>,
                                                        pages: seq<seq<T>>, i: nat, j: nat, y: T)
    requires StrictOrder(lt) && IsScan(lt, collections, limits, pages)
    requires i < j < |pages| && y in pages[j]
    ensures pages[i] != [] && lt(pages[i][|pages[i]| - 1], y)
    decreases j
  {
    assert PageFollows(lt, collections, limits, pages, j);
    assert After(lt, LastOf(pages[j - 1]), y);
    if i < j - 1 {
      var last := pages[j - 1][|pages[j - 1]| - 1];
      assert last in pages[j - 1];
      LaterPagesComeAfter(lt, collections, limits, pages, i, j - 1, last);
    }
  }

  lemma {:induction false} InSomePage<T>(pages: seq<seq<T>>, x: T)
    ensures x in Flatten(pages) <==> exists i :: 0 <= i < |pages| && x in pages[i]
  {
    if pages != [] {
      var n := |pages| - 1;
      InSomePage(pages[..n], x);
      if x in Flatten(pages[..n]) {
        var i :| 0 <= i < n && x in pages[..n][i];
        assert x in pages[i];
      }
      if i :| 0 <= i < n && x in pages[i] {
        assert x in pages[..n][i];
      }
    }
  }

  lemma PassedOver<T(!new)>(lt: (T, T) -> bool, page: seq<T>, x: T)
    requires StrictOrder(lt) && Increasing(lt, page) && EndsBefore(lt, page, x)
    ensures x !in page
  {
    forall k | 0 <= k < |page| ensures lt(page[k], x) {
      assert k < |page| - 1 ==> lt(page[k], page[|page| - 1]);
    }
  }

  /** An item that a page passes over, or has yet to come to, is not on it. */
  lemma OnlySettlingPageHolds<T(!new)>(lt: (T, T) -> bool, collections: seq<set<T>>, limits: seq<nat>,
                                       pages: seq<seq<T>>, x: T, i: nat, j: nat)
    requires StrictOrder(lt) && IsScan(lt, collections, limits, pages)
    requires Settles(lt, pages, x, i) && j < |pages| && j != i
    ensures x !in pages[j]
  {
    if j < i {
      assert PageFollows(lt, collections, limits, pages, j);
      PassedOver(lt, pages[j], x);
    } else {
      forall y | y in pages[j] ensures EndsBefore(lt, pages[i], y) {
        LaterPagesComeAfter(lt, collections, limits, pages, i, j, y);
      }
    }
  }

  /** The page that settles an item holds it exactly if the collection does. */
  lemma SettlingPageHoldsIff<T(!new)>(lt: (T, T) -> bool, collections: seq<set<T>>, limits: seq<nat>,
                                      pages: seq<seq<T>>, x: T, i: nat)
    requires StrictOrder(lt) && IsScan(lt, collections, limits, pages) && Settles(lt, pages, x, i)
    ensures x in pages[i] <==> x in collections[i]
  {
    assert PageFollows(lt, collections, limits, pages, i);
    assert i > 0 ==> EndsBefore(lt, pages[i - 1], x);
    assert pages[i] != [] ==> pages[i][|pages[i]| - 1] in pages[i];
  }

  /**
    Exactly the items present when the scan comes to their place are returned: an
    item is among the items of a scan if and only if the request that settles it
    found it in the collection.
   */
  lemma ReturnedIffPresentWhenSettled<T(!new)>(lt: (T, T) -> bool, collections: seq<set<T>>, limits: seq<nat>,
                                               pages: seq<seq<T>>, x: T, i: nat)
    requires StrictOrder(lt) && IsScan(lt, collections, limits, pages) && Settles(lt, pages, x, i)
    ensures x in Flatten(pages) <==> x in collections[i]
  {
    InSomePage(pages, x);
    SettlingPageHoldsIff(lt, collections, limits, pages, x, i);
    forall j | 0 <= j < |pages| && j != i ensures x !in pages[j] {
      OnlySettlingPageHolds(lt, collections, limits, pages, x, i, j);
    }
  }

  /** And in a finished scan every item is settled by one request. */
  lemma FinishedScanReturnsIff<T(!new)>(lt: (T, T) -> bool, collections: seq<set<T>>, limits: seq<nat>,
                                        pages: seq<seq<T>>, x: T)
    returns (i: nat)
    requires StrictOrder(lt) && IsScan(lt, collections, limits, pages)
    requires pages != [] && pages[|pages| - 1] == []
    ensures Settles(lt, pages, x, i)
    ensures x in Flatten(pages) <==> x in collections[i]
  {
    i := SettledOnce(lt, pages, x, 0);
    ReturnedIffPresentWhenSettled(lt, collections, limits, pages, x, i);
  }

  /** An item that is away just then is missed, though it was there before the scan and is after it. */
  lemma ItemMayBeMissed() returns (collections: seq<set<int>>, limits: seq<nat>, pages: seq<seq<int>>)
    ensures IsScan((x: int, y: int) => x < y, collections, limits, pages) && pages != [] && pages[|pages| - 1] == []
    ensures 2 in collections[0] && 2 in collections[|collections| - 1] && 2 !in Flatten(pages)
  {
    collections, limits, pages := [{1, 2, 3}, {1, 3}, {1, 2, 3}], [1, 1, 1], [[1], [3], []];
    var lt := (x: int, y: int) => x < y;
    assert PageFollows(lt, collections, limits, pages, 0);
    assert PageFollows(lt, collections, limits, pages, 1);
    assert PageFollows(lt, collections, limits, pages, 2);
    assert Settles(lt, pages, 2, 1);
    ReturnedIffPresentWhenSettled(lt, collections, limits, pages, 2, 1);
  }

  lemma {:induction false} ReturnedItemsWerePresent<T(!new)>(lt: (T, T) -> bool, collections: seq<set<T>>,
                                                             limits: seq<nat>,
                                                             pages: seq<seq<T>>, x: T)
    requires IsScan(lt, collections, limits, pages) && x in Flatten(pages)
    ensures exists i :: 0 <= i < |collections| && x in collections[i] && x in pages[i]
  {
    var n := |pages| - 1;
    assert PageFollows(lt, collections, limits, pages, n);
    if x !in pages[n] {
      ScanPrefix(lt, collections, limits, pages);
      ReturnedItemsWerePresent(lt, collections[..n], limits[..n], pages[..n], x);
      var i :| 0 <= i < n && x in collections[..n][i] && x in pages[..n][i];
      assert x in collections[i] && x in pages[i];
    } else {
      assert x in collections[n];
    }
  }

  lemma {:induction false} FlattenAtLeastPages<T(!new)>(lt: (T, T) -> bool, collections: seq<set<T>>,
                                                        limits: seq<nat>, pages: seq<seq<T>>)
    requires IsScan(lt, collections, limits, pages) && pages != []
    ensures |Flatten(pages)| >= |pages| - 1
    ensures pages[|pages| - 1] != [] ==> |Flatten(pages)| >= |pages|
  {
    var n := |pages| - 1;
    assert PageFollows(lt, collections, limits, pages, n);
    if n > 0 {
      ScanPrefix(lt, collections, limits, pages);
      FlattenAtLeastPages(lt, collections[..n], limits[..n], pages[..n]);
    }
  }

  lemma {:induction false} NoMoreThanMembers<T(!new)>(lt: (T, T) -> bool, xs: seq<T>, items: set<T>)
    requires StrictOrder(lt) && Increasing(lt, xs) && forall x :: x in xs ==> x in items
    ensures |xs| <= |items|
  {
    if xs != [] {
      var last := xs[|xs| - 1];
      var init := xs[..|xs| - 1];
      assert last in xs;
      assert forall x :: x in init ==> x in xs;
      assert last !in init;
      NoMoreThanMembers(lt, init, items - {last});
    }
  }

  /**
    On a collection of n items that does not change, a scan takes at most n + 1
    requests, and once it has ended it has returned exactly those items.
   */
  lemma ScanOfUnchangingCollection<T(!new)>(lt: (T, T) -> bool, items: set<T>, collections: seq<set<T>>,
                                              limits: seq<nat>, pages: seq<seq<T>>)
    requires StrictOrder(lt) && IsScan(lt, collections, limits, pages) && pages != []
    requires forall i :: 0 <= i < |collections| ==> collections[i] == items
    ensures |pages| <= |items| + 1
    ensures pages[|pages| - 1] == [] ==> forall x :: x in Flatten(pages) <==> x in items
  {
    ScanIsIncreasing(lt, collections, limits, pages);
    forall x | x in Flatten(pages) ensures x in items { ReturnedItemsWerePresent(lt, collections, limits, pages, x); }
    FlattenAtLeastPages(lt, collections, limits, pages);
    NoMoreThanMembers(lt, Flatten(pages), items);
    if pages[|pages| - 1] == [] {
      forall x | x in items ensures x in Flatten(pages) {
        FinishedScanSawPersistentItems(lt, collections, limits, pages, x);
      }
    }
  }
}
