/** Generic operations on an in-memory table (a sequence of rows in storage
    order): the `where`, `update ... set ... where`, `order by ... asc`,
    `limit`/`offset` and serial-id pieces that the route handlers compose. */
module Tables {

  datatype Option<+T> = None | Some(value: T)

  /** Rows of `s` that satisfy `p`, in storage order (a `where` clause). */
  function Filter<T(!new)>(s: seq<T>, p: T -> bool): (r: seq<T>)
    ensures |r| <= |s|
    ensures forall x :: x in r <==> x in s && p(x)
  {
    if s == [] then []
    else
      var rest := Filter(s[..|s| - 1], p);
      var last := s[|s| - 1];
      assert s == s[..|s| - 1] + [last];
      if p(last) then rest + [last] else rest
  }

  /** Filtering with a predicate every row satisfies removes nothing. */
  lemma {:induction false} FilterAll<T(!new)>(s: seq<T>, p: T -> bool)
    requires forall x | x in s :: p(x)
    ensures Filter(s, p) == s
  {
    if s != [] {
      var init, last := s[..|s| - 1], s[|s| - 1];
      assert s == init + [last];
      assert forall x | x in init :: x in s;
      FilterAll(init, p);
    }
  }

  /** Predicates that agree on every row keep the same rows. */
  lemma {:induction false} FilterSame<T(!new)>(s: seq<T>, p: T -> bool, q: T -> bool)
    requires forall x | x in s :: p(x) == q(x)
    ensures Filter(s, p) == Filter(s, q)
  {
    if s != [] {
      var init, last := s[..|s| - 1], s[|s| - 1];
      assert s == init + [last];
      assert forall x | x in init :: x in s;
      FilterSame(init, p, q);
    }
  }

  /** The first row of `s` that satisfies `p` (`findFirst`). */
  function FindFirst<T>(s: seq<T>, p: T -> bool): (r: Option<T>)
    ensures r.None? <==> forall x | x in s :: !p(x)
    ensures r.Some? ==> r.value in s && p(r.value)
    ensures r.Some? ==> exists i | 0 <= i < |s| :: s[i] == r.value && forall j | 0 <= j < i :: !p(s[j])
  {
    if s == [] then None
    else if p(s[0]) then Some(s[0])
    else
      var r := FindFirst(s[1..], p);
      assert forall x | x in s :: x == s[0] || x in s[1..];
      if r.Some? then
        ghost var i :| 0 <= i < |s[1..]| && s[1..][i] == r.value && forall j | 0 <= j < i :: !p(s[1..][j]);
        assert s[i + 1] == r.value && forall j | 0 <= j < i + 1 :: !p(s[j]);
        r
      else r
  }

  /** Every row's key is different from every other row's key. */
  ghost predicate UniqueKeys<T>(s: seq<T>, key: T -> int) {
    forall i, j | 0 <= i < |s| && 0 <= j < |s| && i != j :: key(s[i]) != key(s[j])
  }

  /** When the key is unique, looking a row up by its key finds exactly that row. */
  lemma FindByUniqueKey<T>(s: seq<T>, key: T -> int, x: T)
    requires UniqueKeys(s, key) && x in s
    ensures FindFirst(s, (y: T) => key(y) == key(x)) == Some(x)
  {
    var r := FindFirst(s, (y: T) => key(y) == key(x));
    var i :| 0 <= i < |s| && s[i] == x;
    var k :| 0 <= k < |s| && s[k] == r.value;
    assert key(s[k]) == key(s[i]);
  }

  /** `update ... set f(row) where p(row)`: matching rows are rewritten by `f`,
      the other rows and the order of all rows stay as they were. */
  function UpdateWhere<T>(s: seq<T>, p: T -> bool, f: T -> T): (r: seq<T>)
    ensures |r| == |s|
    ensures forall i | 0 <= i < |s| :: r[i] == if p(s[i]) then f(s[i]) else s[i]
  {
    seq(|s|, i requires 0 <= i < |s| => if p(s[i]) then f(s[i]) else s[i])
  }

  /** The largest key in the table, or 0 for an empty table. */
  function MaxKey<T>(s: seq<T>, key: T -> int): (m: nat)
    ensures forall x | x in s :: key(x) <= m
    decreases |s|
  {
    if s == [] then 0
    else
      var m := MaxKey(s[1..], key);
      assert forall x | x in s :: x == s[0] || x in s[1..];
      if key(s[0]) > m then key(s[0]) else m
  }

  /** The id a serial column hands out next: positive and larger than every id in use. */
  function FreshKey<T>(s: seq<T>, key: T -> int): (k: int)
    ensures k > 0
    ensures forall x | x in s :: key(x) < k
  {
    MaxKey(s, key) + 1
  }

  /** Appending a row whose key is fresh keeps the keys unique. */
  lemma AppendFresh<T>(s: seq<T>, key: T -> int, x: T)
    requires UniqueKeys(s, key)
    requires forall y | y in s :: key(y) != key(x)
    ensures UniqueKeys(s + [x], key)
  {
    var t := s + [x];
    forall i, j | 0 <= i < |t| && 0 <= j < |t| && i != j
      ensures key(t[i]) != key(t[j])
    {
      if i < |s| && j < |s| {
        assert t[i] == s[i] && t[j] == s[j];
      } else if i < |s| {
        assert t[i] in s;
      } else {
        assert t[j] in s;
      }
    }
  }

  /** Removing rows keeps the remaining keys unique. */
  lemma {:induction false} FilterUnique<T(!new)>(s: seq<T>, key: T -> int, p: T -> bool)
    requires UniqueKeys(s, key)
    ensures UniqueKeys(Filter(s, p), key)
  {
    if s != [] {
      var init := s[..|s| - 1];
      var last := s[|s| - 1];
      assert UniqueKeys(init, key) by {
        forall i, j | 0 <= i < |init| && 0 <= j < |init| && i != j
          ensures key(init[i]) != key(init[j])
        {
          assert init[i] == s[i] && init[j] == s[j];
        }
      }
      FilterUnique(init, key, p);
      if p(last) {
        forall y | y in Filter(init, p) ensures key(y) != key(last) {
          var i :| 0 <= i < |init| && init[i] == y;
          assert s[i] == y && s[|s| - 1] == last;
        }
        AppendFresh(Filter(init, p), key, last);
      }
    }
  }

  /** Rewriting rows without changing their keys keeps the keys unique. */
  lemma UpdateUnique<T>(s: seq<T>, key: T -> int, p: T -> bool, f: T -> T)
    requires UniqueKeys(s, key)
    requires forall x :: key(f(x)) == key(x)
    ensures UniqueKeys(UpdateWhere(s, p, f), key)
  {
    var r := UpdateWhere(s, p, f);
    forall i, j | 0 <= i < |r| && 0 <= j < |r| && i != j
      ensures key(r[i]) != key(r[j])
    {
      assert key(r[i]) == key(s[i]) && key(r[j]) == key(s[j]);
    }
  }

  /** Keys ascend along the sequence (`order by key asc`). */
  ghost predicate SortedBy<T>(s: seq<T>, key: T -> int) {
    forall i, j | 0 <= i < j < |s| :: key(s[i]) <= key(s[j])
  }

  /** Keys strictly ascend along the sequence. */
  ghost predicate StrictlySortedBy<T>(s: seq<T>, key: T -> int) {
    forall i, j | 0 <= i < j < |s| :: key(s[i]) < key(s[j])
  }

  function InsertBy<T(!new)>(x: T, s: seq<T>, key: T -> int): (r: seq<T>)
    requires SortedBy(s, key)
    ensures SortedBy(r, key)
    ensures forall y :: y in r <==> y == x || y in s
  {
    if s == [] || key(x) <= key(s[0]) then
      ConsSorted(x, s, key);
      [x] + s
    else
      assert s == [s[0]] + s[1..];
      var rest := InsertBy(x, s[1..], key);
      assert rest[0] == x || rest[0] in s[1..];
      ConsSorted(s[0], rest, key);
      [s[0]] + rest
  }

  /** Inserting a row with a new key into strictly ascending rows keeps them strictly ascending. */
  lemma {:induction false} InsertByStrict<T(!new)>(x: T, s: seq<T>, key: T -> int)
    requires StrictlySortedBy(s, key)
    requires forall y | y in s :: key(y) != key(x)
    ensures StrictlySortedBy(InsertBy(x, s, key), key)
  {
    if s == [] || key(x) <= key(s[0]) {
      ConsSorted(x, s, key);
    } else {
      assert s == [s[0]] + s[1..];
      var rest := InsertBy(x, s[1..], key);
      InsertByStrict(x, s[1..], key);
      assert rest[0] == x || rest[0] in s[1..];
      ConsSorted(s[0], rest, key);
    }
  }

  /** Inserting adds exactly the one row. */
  lemma {:induction false} InsertByPermutes<T(!new)>(x: T, s: seq<T>, key: T -> int)
    requires SortedBy(s, key)
    ensures multiset(InsertBy(x, s, key)) == multiset(s) + multiset{x}
  {
    if s != [] && key(x) > key(s[0]) {
      assert s == [s[0]] + s[1..];
      InsertByPermutes(x, s[1..], key);
    }
  }

  /** Putting a row in front of sorted rows whose keys are all at least its own keeps them sorted. */
  lemma ConsSorted<T>(h: T, s: seq<T>, key: T -> int)
    requires SortedBy(s, key)
    requires s != [] ==> key(h) <= key(s[0])
    ensures SortedBy([h] + s, key)
    ensures StrictlySortedBy(s, key) && (s != [] ==> key(h) < key(s[0])) ==> StrictlySortedBy([h] + s, key)
  {
    var r := [h] + s;
    forall i, j | 0 <= i < j < |r| ensures key(r[i]) <= key(r[j]) {
      if i == 0 && j > 1 { assert key(s[0]) <= key(s[j - 1]); }
    }
  }

  /** The rows of `s` ordered by ascending key: a sorted permutation of `s`. */
  function SortBy<T(!new)>(s: seq<T>, key: T -> int): (r: seq<T>)
    ensures SortedBy(r, key)
    ensures multiset(r) == multiset(s)
  {
    if s == [] then []
    else
      assert s == [s[0]] + s[1..];
      var rest := SortBy(s[1..], key);
      InsertByPermutes(s[0], rest, key);
      InsertBy(s[0], rest, key)
  }

  /** Sorting keeps exactly the rows it was given. */
  lemma SortByKeepsRows<T(!new)>(s: seq<T>, key: T -> int)
    ensures |SortBy(s, key)| == |s|
    ensures forall y :: y in SortBy(s, key) <==> y in s
  {
    var r := SortBy(s, key);
    assert |multiset(r)| == |multiset(s)|;
    forall y ensures y in r <==> y in s {
      assert y in r <==> y in multiset(r);
    }
  }

  /** When keys are unique the sorted order is strict. */
  lemma {:induction false} SortByStrict<T(!new)>(s: seq<T>, key: T -> int)
    requires UniqueKeys(s, key)
    ensures StrictlySortedBy(SortBy(s, key), key)
  {
    if s != [] {
      assert s == [s[0]] + s[1..];
      var rest := SortBy(s[1..], key);
      forall i, j | 0 <= i < |s[1..]| && 0 <= j < |s[1..]| && i != j
        ensures key(s[1..][i]) != key(s[1..][j])
      {
        assert s[1..][i] == s[i + 1] && s[1..][j] == s[j + 1];
      }
      SortByStrict(s[1..], key);
      SortByKeepsRows(s[1..], key);
      forall y | y in rest ensures key(y) != key(s[0]) {
        var i :| 0 <= i < |s[1..]| && s[1..][i] == y;
        assert s[i + 1] == y;
      }
      InsertByStrict(s[0], rest, key);
    }
  }

  /** `limit` rows starting at row `offset` (SQL `limit ... offset ...`);
      an offset at or past the end yields no rows. */
  function Page<T>(s: seq<T>, offset: nat, limit: nat): (r: seq<T>)
    ensures |r| == if offset >= |s| then 0 else Min(limit, |s| - offset)
    ensures forall i | 0 <= i < |r| :: r[i] == s[offset + i]
  {
    if offset >= |s| then [] else s[offset..offset + Min(limit, |s| - offset)]
  }

  function Min(a: int, b: int): int { if a <= b then a else b }

  /** Two consecutive pages together are the page of both sizes. */
  lemma PagesTile<T>(s: seq<T>, offset: nat, n: nat, m: nat)
    ensures Page(s, offset, n) + Page(s, offset + n, m) == Page(s, offset, n + m)
  {
    var a, b, c := Page(s, offset, n), Page(s, offset + n, m), Page(s, offset, n + m);
    assert |a + b| == |c|;
    forall i | 0 <= i < |c| ensures (a + b)[i] == c[i] {
      if i >= |a| {
        assert (a + b)[i] == b[i - |a|];
      }
    }
  }

  /** `order by key asc limit limit offset offset`: the `limit` rows that
      follow the first `offset` rows in ascending key order. */
  function SortedPage<T(!new)>(s: seq<T>, key: T -> int, offset: nat, limit: nat): (r: seq<T>)
    ensures |r| <= limit
    ensures forall x | x in r :: x in s
    ensures offset >= |s| ==> r == []
  {
    var byKey := SortBy(s, key);
    SortByKeepsRows(s, key);
    var r := Page(byKey, offset, limit);
    assert forall x | x in r :: x in byKey;
    r
  }

  /** A sorted page is the page of the rows in ascending key order. */
  lemma SortedPageIsPage<T(!new)>(s: seq<T>, key: T -> int, offset: nat, limit: nat)
    ensures SortedPage(s, key, offset, limit) == Page(SortBy(s, key), offset, limit)
  {
  }

  /** In a strictly ascending concatenation no row is on both sides. */
  lemma StrictlySortedDisjoint<T>(left: seq<T>, right: seq<T>, key: T -> int)
    requires StrictlySortedBy(left + right, key)
    ensures forall x | x in left :: x !in right
  {
    var both := left + right;
    forall x | x in left ensures x !in right {
      var i :| 0 <= i < |left| && left[i] == x;
      forall j | 0 <= j < |right| ensures right[j] != x {
        assert both[i] == left[i] && both[|left| + j] == right[j];
      }
    }
  }

  /** With unique keys every page is in strictly ascending key order. */
  lemma SortedPageAscends<T(!new)>(s: seq<T>, key: T -> int, offset: nat, limit: nat)
    requires UniqueKeys(s, key)
    ensures StrictlySortedBy(SortedPage(s, key, offset, limit), key)
  {
    var byKey := SortBy(s, key);
    SortByStrict(s, key);
    var r := Page(byKey, offset, limit);
    forall i, j | 0 <= i < j < |r| ensures key(r[i]) < key(r[j]) {
      assert r[i] == byKey[offset + i] && r[j] == byKey[offset + j];
    }
  }

  /** Pages of a non-zero size, counted from 0, leave no row out. */
  lemma SortedPageCovers<T(!new)>(s: seq<T>, key: T -> int, limit: nat, x: T) returns (q: nat, offset: nat)
    requires limit != 0 && x in s
    ensures offset == q * limit && x in SortedPage(s, key, offset, limit)
  {
    var byKey := SortBy(s, key);
    SortByKeepsRows(s, key);
    var k :| 0 <= k < |byKey| && byKey[k] == x;
    q, offset := PageOf(k, limit);
    var r := Page(byKey, offset, limit);
    assert r[k - offset] == x;
  }

  /** The page (counted from 0) holding row `k`, and the row it starts at. */
  lemma PageOf(k: nat, limit: nat) returns (q: nat, offset: nat)
    requires limit != 0
    ensures offset == q * limit && offset <= k < offset + limit
  {
    q, offset := 0, 0;
    while offset + limit <= k
      invariant offset == q * limit && offset <= k
      decreases k - offset
    {
      q, offset := q + 1, offset + limit;
    }
  }

  /** Two consecutive pages of one size are the page of twice that size. */
  lemma SortedPagesTile<T(!new)>(s: seq<T>, key: T -> int, offset: nat, limit: nat)
    ensures SortedPage(s, key, offset, limit) + SortedPage(s, key, offset + limit, limit)
         == SortedPage(s, key, offset, 2 * limit)
  {
    PagesTile(SortBy(s, key), offset, limit, limit);
  }
}
