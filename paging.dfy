/**
 * The paged search of `getUsers`: the normalisation of the 1-based page
 * number and the page size, and the repository queries `findAll(pageable)`
 * and `findByNameContainingIgnoreCase(name, pageable)` specified over the
 * user table: keep the matching rows, order them by id descending, and take
 * the page at offset `pageNumber * pageSize`.
 */
module Paging {
  import opened Wrappers
  import opened Users
  import opened Text

  /** Page size used when the caller gives none or a non-positive one. */
  const DefaultPageSize: int := 10

  /**
   * The 0-based page index from the optional 1-based `page` parameter: `page - 1`
   * for a positive page, the first page otherwise.
   */
  function PageNumber(page: Option<int>): (n: int)
    ensures n >= 0
    ensures page.Some? && page.value > 0 ==> n + 1 == page.value
    ensures page.None? || page.value <= 0 ==> n == 0
  {
    if page.Some? && page.value > 0 then page.value - 1 else 0
  }

  /** The page size from the optional `size` parameter, 10 when absent or not positive. */
  function PageSize(size: Option<int>): (n: int)
    ensures n >= 1
    ensures size.Some? && size.value > 0 ==> n == size.value
    ensures size.None? || size.value <= 0 ==> n == DefaultPageSize
  {
    if size.Some? && size.value > 0 then size.value else DefaultPageSize
  }

  /** The name filter: only a present, non-empty name selects the filtering query. */
  function Fragment(name: Option<string>): (frag: Option<string>)
    ensures frag.Some? <==> name.Some? && name.value != ""
    ensures frag.Some? ==> frag.value == name.value
  {
    if name.Some? && name.value != "" then name else None
  }

  /** The normalised page index and size satisfy `PageRequest.of`'s preconditions. */
  lemma PageRequestWellFormed(page: Option<int>, size: Option<int>)
    ensures PageNumber(page) >= 0 && PageSize(size) >= 1
  {
  }

  /** A non-empty set has an element to pick. */
  lemma NonEmptyHasElement(s: set<int>)
    requires s != {}
    ensures exists x :: x in s
  {
    if forall x :: x !in s {
      assert false;
    }
  }

  /** Every non-empty finite set of ids has a largest element. */
  lemma {:induction false} MaxExists(s: set<int>)
    requires s != {}
    ensures exists m :: m in s && forall y :: y in s ==> y <= m
  {
    NonEmptyHasElement(s);
    var x :| x in s;
    if s != {x} {
      MaxExists(s - {x});
      var m :| m in s - {x} && forall y :: y in s - {x} ==> y <= m;
      var top := if x > m then x else m;
      forall y | y in s ensures y <= top {
        if y != x {
          assert y in s - {x};
        }
      }
      assert top in s;
    } else {
      assert forall y :: y in s ==> y <= x;
    }
  }

  function MaxOf(s: set<int>): (m: int)
    requires s != {}
    ensures m in s && forall y :: y in s ==> y <= m
  {
    MaxExists(s);
    var m :| m in s && forall y :: y in s ==> y <= m;
    m
  }

  /** The ids of `s` in descending order: `Sort.by("id").descending()`. */
  function IdsDesc(s: set<int>): (r: seq<int>)
    ensures |r| == |s|
    decreases |s|
  {
    if s == {} then []
    else
      var m := MaxOf(s);
      [m] + IdsDesc(s - {m})
  }

  /** The descending order lists exactly the ids of the set. */
  lemma {:induction false} IdsDescMembers(s: set<int>)
    ensures forall x :: x in IdsDesc(s) <==> x in s
    decreases |s|
  {
    if s != {} {
      var m := MaxOf(s);
      IdsDescMembers(s - {m});
      assert IdsDesc(s) == [m] + IdsDesc(s - {m});
    }
  }

  /** The descending order is strictly descending, so no id is listed twice. */
  lemma {:induction false} IdsDescDescending(s: set<int>)
    ensures forall i, j :: 0 <= i < j < |IdsDesc(s)| ==> IdsDesc(s)[i] > IdsDesc(s)[j]
    decreases |s|
  {
    if s != {} {
      var m := MaxOf(s);
      var rest := s - {m};
      var r := IdsDesc(s);
      assert r == [m] + IdsDesc(rest);
      IdsDescDescending(rest);
      IdsDescMembers(rest);
      forall i, j | 0 <= i < j < |r| ensures r[i] > r[j] {
        assert r[j] == IdsDesc(rest)[j - 1];
        if i == 0 {
          assert r[j] in rest;
        } else {
          assert r[i] == IdsDesc(rest)[i - 1];
        }
      }
    }
  }

  /** The ids of `s` larger than `k`. */
  function Above(s: set<int>, k: int): (a: set<int>)
    ensures forall j :: j in a <==> j in s && j > k
  {
    set j | j in s && j > k
  }

  /** How many ids of `s` are larger than `k`: the position `k` takes in descending order. */
  function Rank(s: set<int>, k: int): nat
  {
    |Above(s, k)|
  }

  /** The id at position `i` of the descending order has exactly `i` larger ids before it. */
  lemma {:induction false} RankOfPosition(s: set<int>, i: nat)
    requires i < |s|
    ensures Rank(s, IdsDesc(s)[i]) == i
    decreases |s|
  {
    var m := MaxOf(s);
    var rest := s - {m};
    var ids := IdsDesc(s);
    assert ids == [m] + IdsDesc(rest);
    if i == 0 {
      assert Above(s, m) == {};
    } else {
      var x := IdsDesc(rest)[i - 1];
      assert ids[i] == x;
      RankOfPosition(rest, i - 1);
      IdsDescMembers(rest);
      assert x in IdsDesc(rest);
      AboveWithout(s, m, x);
    }
  }

  /** Removing an id larger than `k` from `s` removes exactly one id above `k`. */
  lemma AboveWithout(s: set<int>, m: int, k: int)
    requires m in s && k < m
    ensures Rank(s, k) == Rank(s - {m}, k) + 1
  {
    assert Above(s, k) == Above(s - {m}, k) + {m};
  }

  /** A larger id never has more ids above it. */
  lemma RankAntitone(s: set<int>, x: int, y: int)
    requires x <= y
    ensures Rank(s, y) <= Rank(s, x)
  {
    SubsetCard(Above(s, y), Above(s, x));
  }

  lemma {:induction false} SubsetCard(a: set<int>, b: set<int>)
    requires a <= b
    ensures |a| <= |b|
    decreases b
  {
    if a != {} {
      NonEmptyHasElement(a);
      var x :| x in a;
      SubsetCard(a - {x}, b - {x});
    }
  }

  /**
   * Whether a user is selected by the (optional) name filter: with no
   * fragment every user is, otherwise exactly those whose name contains the
   * fragment once both are lower-cased.
   */
  predicate Selected(u: User, frag: Option<string>)
    ensures Selected(u, frag) <==> frag.None? || Contains(Lower(u.name), Lower(frag.value))
  {
    if frag.None? then true
    else
      ContainsIgnoreCaseByLower(u.name, frag.value);
      ContainsIgnoreCase(u.name, frag.value)
  }

  /** The ids of the rows the query selects, before ordering and paging. */
  function Matching(store: Store, frag: Option<string>): (ids: set<int>)
    ensures forall id :: id in ids <==> id in store && Selected(store[id], frag)
  {
    set id | id in store && Selected(store[id], frag)
  }

  /**
   * Offset of a page: `PageRequest.getOffset()`, computed there in `long`
   * (it cannot overflow for `int` page numbers and sizes). Only the first
   * page, or an empty page size, starts at 0; a page of size at least 1
   * starts no earlier than its own number.
   */
  function Offset(pageNumber: nat, pageSize: nat): (o: nat)
    ensures o == 0 <==> pageNumber == 0 || pageSize == 0
    ensures pageSize >= 1 ==> o >= pageNumber
  {
    pageNumber * pageSize
  }

  /** `Integer.MAX_VALUE`: JPA's `setFirstResult` takes an `int`. */
  const IntMax: int := 0x7fff_ffff

  /**
   * Whether the offset fits the `int` that JPA's `setFirstResult` accepts;
   * Spring Data JPA refuses the query with `InvalidDataAccessApiUsageException`
   * when it does not.
   */
  predicate OffsetFits(pageNumber: nat, pageSize: nat)
  {
    Offset(pageNumber, pageSize) <= IntMax
  }

  /** The slice `[offset, offset + pageSize)` of `s`, clipped to its length. */
  function PageSlice<T>(s: seq<T>, pageNumber: nat, pageSize: nat): (r: seq<T>)
    ensures |r| <= pageSize
    ensures |r| == if Offset(pageNumber, pageSize) >= |s| then 0
                   else if |s| - Offset(pageNumber, pageSize) < pageSize then |s| - Offset(pageNumber, pageSize)
                   else pageSize
    ensures forall i :: 0 <= i < |r| ==> r[i] == s[Offset(pageNumber, pageSize) + i]
  {
    var off := Offset(pageNumber, pageSize);
    var lo := if off < |s| then off else |s|;
    var hi := if lo + pageSize < |s| then lo + pageSize else |s|;
    s[lo..hi]
  }

  /** The rows stored under `ids`, in the order of `ids`. */
  function Rows(store: Store, ids: seq<int>): (rows: seq<User>)
    requires forall i :: 0 <= i < |ids| ==> ids[i] in store
    ensures |rows| == |ids|
    ensures forall i :: 0 <= i < |ids| ==> rows[i] == store[ids[i]]
  {
    seq(|ids|, i requires 0 <= i < |ids| => store[ids[i]])
  }

  /**
   * The ids on page `pageNumber` of the descending order of `s`: the window
   * `[offset, offset + pageSize)` of the ranking, clipped to the ids there are.
   */
  function PageIds(s: set<int>, pageNumber: nat, pageSize: nat): (ids: seq<int>)
    ensures |ids| == (var off := Offset(pageNumber, pageSize);
      if off >= |s| then 0 else if |s| - off < pageSize then |s| - off else pageSize)
    ensures forall i :: 0 <= i < |ids| ==> ids[i] in s
    ensures forall i, j :: 0 <= i < j < |ids| ==> ids[i] > ids[j]
    ensures forall i :: 0 <= i < |ids| ==> Rank(s, ids[i]) == Offset(pageNumber, pageSize) + i
  {
    PageIdsSelected(s, pageNumber, pageSize);
    PageIdsDescending(s, pageNumber, pageSize);
    PageIdsRanked(s, pageNumber, pageSize);
    PageSlice(IdsDesc(s), pageNumber, pageSize)
  }

  /** Ids on a page of the descending order are ids of the set. */
  lemma PageIdsSelected(s: set<int>, pageNumber: nat, pageSize: nat)
    ensures forall i :: 0 <= i < |PageSlice(IdsDesc(s), pageNumber, pageSize)| ==>
      PageSlice(IdsDesc(s), pageNumber, pageSize)[i] in s
  {
    var all := IdsDesc(s);
    var ids := PageSlice(all, pageNumber, pageSize);
    var off := Offset(pageNumber, pageSize);
    IdsDescMembers(s);
    forall i | 0 <= i < |ids| ensures ids[i] in s {
      assert ids[i] == all[off + i];
      assert all[off + i] in all;
    }
  }

  /** Ids on a page of the descending order are ranked from the page's offset on. */
  lemma PageIdsRanked(s: set<int>, pageNumber: nat, pageSize: nat)
    ensures forall i :: 0 <= i < |PageSlice(IdsDesc(s), pageNumber, pageSize)| ==>
      Rank(s, PageSlice(IdsDesc(s), pageNumber, pageSize)[i]) == Offset(pageNumber, pageSize) + i
  {
    var all := IdsDesc(s);
    var ids := PageSlice(all, pageNumber, pageSize);
    var off := Offset(pageNumber, pageSize);
    forall i | 0 <= i < |ids| ensures Rank(s, ids[i]) == off + i {
      assert ids[i] == all[off + i];
      RankOfPosition(s, off + i);
    }
  }

  /** A page of the descending order is itself descending. */
  lemma PageIdsDescending(s: set<int>, pageNumber: nat, pageSize: nat)
    ensures forall i, j :: 0 <= i < j < |PageSlice(IdsDesc(s), pageNumber, pageSize)| ==>
      PageSlice(IdsDesc(s), pageNumber, pageSize)[i] > PageSlice(IdsDesc(s), pageNumber, pageSize)[j]
  {
    var all := IdsDesc(s);
    var ids := PageSlice(all, pageNumber, pageSize);
    var off := Offset(pageNumber, pageSize);
    IdsDescDescending(s);
    forall i, j | 0 <= i < j < |ids| ensures ids[i] > ids[j] {
      DescendingAt(all, off + i, off + j);
    }
  }

  lemma DescendingAt(r: seq<int>, a: int, b: int)
    requires forall i, j :: 0 <= i < j < |r| ==> r[i] > r[j]
    requires 0 <= a < b < |r|
    ensures r[a] > r[b]
  {
  }

  /**
   * `getContent()` of the repository page: the rows selected by `frag`
   * (all rows when it is `None`), ordered by id descending, page
   * `pageNumber` of size `pageSize`. The page is exactly the window
   * `[offset, offset + pageSize)` of the descending ranking of the selected
   * rows: it holds the rows with `offset + i` larger selected ids, as many
   * as the selection has beyond the offset and at most `pageSize`.
   */
  function Query(store: Store, frag: Option<string>, pageNumber: nat, pageSize: nat): (rows: seq<User>)
    requires StoreValid(store)
    ensures |rows| <= pageSize
    ensures |rows| == (var off, total := Offset(pageNumber, pageSize), |Matching(store, frag)|;
      if off >= total then 0 else if total - off < pageSize then total - off else pageSize)
    ensures forall i :: 0 <= i < |rows| ==> rows[i].id in store && store[rows[i].id] == rows[i]
    ensures forall i :: 0 <= i < |rows| ==> Selected(rows[i], frag)
    ensures forall i, j :: 0 <= i < j < |rows| ==> rows[i].id > rows[j].id
    ensures forall i :: 0 <= i < |rows| ==>
      Rank(Matching(store, frag), rows[i].id) == Offset(pageNumber, pageSize) + i
  {
    var ids := PageIds(Matching(store, frag), pageNumber, pageSize);
    assert forall i :: 0 <= i < |ids| ==> ids[i] in store && store[ids[i]].id == ids[i];
    Rows(store, ids)
  }

  /** The next page starts where the previous one ends. */
  lemma OffsetOfNextPage(n: nat, pageSize: nat)
    ensures Offset(n + 1, pageSize) == Offset(n, pageSize) + pageSize
  {
  }

  /** Every user on page `n + 1` has a smaller id than every user on page `n`. */
  lemma PagesInOrder(store: Store, frag: Option<string>, n: nat, pageSize: nat)
    requires StoreValid(store)
    ensures var cur := Query(store, frag, n, pageSize);
      var next := Query(store, frag, n + 1, pageSize);
      forall i, j :: 0 <= i < |cur| && 0 <= j < |next| ==> cur[i].id > next[j].id
  {
    var s := Matching(store, frag);
    var cur := Query(store, frag, n, pageSize);
    var next := Query(store, frag, n + 1, pageSize);
    OffsetOfNextPage(n, pageSize);
    forall i, j | 0 <= i < |cur| && 0 <= j < |next| ensures cur[i].id > next[j].id {
      assert Rank(s, cur[i].id) < Rank(s, next[j].id);
      if cur[i].id <= next[j].id {
        RankAntitone(s, cur[i].id, next[j].id);
      }
    }
  }

  /**
   * No selected user is skipped by paging: the user with `r` larger
   * selected ids is at index `r % pageSize` of page `r / pageSize`.
   */
  lemma EverySelectedUserOnItsPage(store: Store, frag: Option<string>, id: int, pageSize: nat)
    requires StoreValid(store)
    requires pageSize >= 1
    requires id in store && Selected(store[id], frag)
    ensures var r := Rank(Matching(store, frag), id);
      var rows := Query(store, frag, r / pageSize, pageSize);
      r % pageSize < |rows| && rows[r % pageSize] == store[id]
  {
    var s := Matching(store, frag);
    var ids := IdsDesc(s);
    var i := PositionOf(s, id);
    RankOfPosition(s, i);
    PositionOnPage(ids, i, pageSize);
    var page := PageSlice(ids, i / pageSize, pageSize);
    assert page == PageIds(s, i / pageSize, pageSize);
    assert Query(store, frag, i / pageSize, pageSize) == Rows(store, page);
  }

  /** The position of a member of `s` in the descending order. */
  ghost function PositionOf(s: set<int>, id: int): (i: nat)
    requires id in s
    ensures i < |IdsDesc(s)| && IdsDesc(s)[i] == id
  {
    IdsDescMembers(s);
    var ids := IdsDesc(s);
    assert id in ids;
    var i :| 0 <= i < |ids| && ids[i] == id;
    i
  }

  /** Element `i` of a sequence sits at index `i % pageSize` of page `i / pageSize`. */
  lemma PositionOnPage<T>(ids: seq<T>, i: nat, pageSize: nat)
    requires i < |ids| && pageSize >= 1
    ensures var page := PageSlice(ids, i / pageSize, pageSize);
      i % pageSize < |page| && page[i % pageSize] == ids[i]
  {
    var p, q := i / pageSize, i % pageSize;
    assert Offset(p, pageSize) + q == i;
  }
}
