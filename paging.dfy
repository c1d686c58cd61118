/**
 * Query arithmetic shared by both listings: the filter that keeps the matching
 * documents in natural (insertion) order, MongoDB's `skip`/`limit`, and the
 * `Math.ceil(total / limit)` page count.
 */
module Paging {
  import opened Common

  /** `find(filter)`: the elements that satisfy `keep`, in their original order. */
  function Filter<T>(s: seq<T>, keep: T -> bool): (r: seq<T>)
    ensures |r| <= |s|
    ensures forall k :: 0 <= k < |r| ==> keep(r[k])
  {
    if s == [] then []
    else
      var last := s[|s| - 1];
      Filter(s[..|s| - 1], keep) + (if keep(last) then [last] else [])
  }

  /** Everything the filter keeps comes from `s`. */
  lemma {:induction false} FilterWithin<T>(s: seq<T>, keep: T -> bool)
    ensures forall k :: 0 <= k < |Filter(s, keep)| ==> Filter(s, keep)[k] in s
    decreases |s|
  {
    if s != [] {
      var init := s[..|s| - 1];
      FilterWithin(init, keep);
      var r := Filter(s, keep);
      forall k | 0 <= k < |r| ensures r[k] in s {
        if k < |Filter(init, keep)| {
          assert r[k] == Filter(init, keep)[k];
          var j :| 0 <= j < |init| && init[j] == r[k];
          assert s[j] == init[j];
        } else {
          assert r[k] == s[|s| - 1];
        }
      }
    }
  }

  /** Nothing that satisfies `keep` is filtered out. */
  lemma {:induction false} FilterKeeps<T>(s: seq<T>, keep: T -> bool, i: nat)
    requires i < |s| && keep(s[i])
    ensures s[i] in Filter(s, keep)
    decreases |s|
  {
    var init := s[..|s| - 1];
    if i < |s| - 1 {
      assert init[i] == s[i];
      FilterKeeps(init, keep, i);
    } else {
      var r := Filter(s, keep);
      assert r[|r| - 1] == s[i];
    }
  }

  /** Filtering distributes over concatenation, so it keeps the relative order of what it keeps. */
  lemma {:induction false} FilterAppend<T>(a: seq<T>, b: seq<T>, keep: T -> bool)
    ensures Filter(a + b, keep) == Filter(a, keep) + Filter(b, keep)
    decreases |b|
  {
    if b == [] {
      assert a + b == a;
    } else {
      var last := b[|b| - 1];
      assert (a + b)[..|a + b| - 1] == a + b[..|b| - 1];
      FilterAppend(a, b[..|b| - 1], keep);
    }
  }

  /** A filter that keeps everything is the identity. */
  lemma {:induction false} FilterAll<T>(s: seq<T>, keep: T -> bool)
    requires forall k :: 0 <= k < |s| ==> keep(s[k])
    ensures Filter(s, keep) == s
    decreases |s|
  {
    if s != [] {
      FilterAll(s[..|s| - 1], keep);
    }
  }

  /** Filtering out a single rejected element between two kept runs. */
  lemma FilterSkip<T>(before: seq<T>, x: T, after: seq<T>, keep: T -> bool)
    requires !keep(x) && Filter(before, keep) == before && Filter(after, keep) == after
    ensures Filter(before + [x] + after, keep) == before + after
  {
    assert Filter([x], keep) == [] by {
      assert [x][..0] == [];
    }
    FilterAppend(before, [x], keep);
    FilterAppend(before + [x], after, keep);
  }

  /** When `keep` rejects position `k` and nothing else, the filter cuts out exactly that position. */
  lemma FilterDropsOne<T>(s: seq<T>, k: nat, keep: T -> bool)
    requires k < |s| && !keep(s[k])
    requires forall i :: 0 <= i < |s| && i != k ==> keep(s[i])
    ensures Filter(s, keep) == s[..k] + s[k + 1..]
  {
    var before, after := s[..k], s[k + 1..];
    assert s == before + [s[k]] + after;
    forall i | 0 <= i < |before| ensures keep(before[i]) {
      assert before[i] == s[i];
    }
    forall i | 0 <= i < |after| ensures keep(after[i]) {
      assert after[i] == s[k + 1 + i];
    }
    FilterAll(before, keep);
    FilterAll(after, keep);
    FilterSkip(before, s[k], after, keep);
  }

  /** The keys of the first `n` elements of `s` that `keep` admits. */
  function KeptKeys<T, K>(s: seq<T>, keep: T -> bool, key: T -> K, n: nat): set<K>
    requires n <= |s|
  {
    set k | 0 <= k < n && keep(s[k]) :: key(s[k])
  }

  /** One more element adds its key when admitted, and that key is new when keys are distinct. */
  lemma KeptKeysStep<T, K>(s: seq<T>, keep: T -> bool, key: T -> K, n: nat)
    requires n < |s|
    requires forall i, j :: 0 <= i < j < |s| ==> key(s[i]) != key(s[j])
    ensures KeptKeys(s, keep, key, n + 1) == KeptKeys(s, keep, key, n) + (if keep(s[n]) then {key(s[n])} else {})
    ensures key(s[n]) !in KeptKeys(s, keep, key, n)
  {
    var before := KeptKeys(s, keep, key, n);
    var after := KeptKeys(s, keep, key, n + 1);
    forall x | x in after ensures x in before || (keep(s[n]) && x == key(s[n])) {
      var k :| 0 <= k < n + 1 && keep(s[k]) && key(s[k]) == x;
    }
  }

  /** So the number of admitted keys grows by one exactly when the next element is admitted. */
  lemma KeptKeysGrow<T, K>(s: seq<T>, keep: T -> bool, key: T -> K, n: nat)
    requires n < |s|
    requires forall i, j :: 0 <= i < j < |s| ==> key(s[i]) != key(s[j])
    ensures |KeptKeys(s, keep, key, n + 1)| == |KeptKeys(s, keep, key, n)| + (if keep(s[n]) then 1 else 0)
  {
    KeptKeysStep(s, keep, key, n);
  }

  /** Lengthening the prefix by one element lengthens its filter by one exactly when that element is kept. */
  lemma FilterPrefixStep<T>(s: seq<T>, keep: T -> bool, n: nat)
    requires n < |s|
    ensures |Filter(s[..n + 1], keep)| == |Filter(s[..n], keep)| + (if keep(s[n]) then 1 else 0)
  {
    var prefix := s[..n + 1];
    assert prefix[..n] == s[..n];
    assert prefix[n] == s[n];
  }

  lemma {:induction false} CountKeptUpTo<T, K>(s: seq<T>, keep: T -> bool, key: T -> K, n: nat)
    requires n <= |s|
    requires forall i, j :: 0 <= i < j < |s| ==> key(s[i]) != key(s[j])
    ensures |Filter(s[..n], keep)| == |KeptKeys(s, keep, key, n)|
  {
    if n == 0 {
      assert KeptKeys(s, keep, key, 0) == {};
    } else {
      CountKeptUpTo(s, keep, key, n - 1);
      KeptKeysGrow(s, keep, key, n - 1);
      FilterPrefixStep(s, keep, n - 1);
    }
  }

  /** When `key` tells the elements of `s` apart, the filter keeps as many elements as there are keys it admits. */
  lemma CountKept<T, K>(s: seq<T>, keep: T -> bool, key: T -> K)
    requires forall i, j :: 0 <= i < j < |s| ==> key(s[i]) != key(s[j])
    ensures |Filter(s, keep)| == |KeptKeys(s, keep, key, |s|)|
  {
    CountKeptUpTo(s, keep, key, |s|);
    assert s[..|s|] == s;
  }

  /** `key` increases strictly along `s`. */
  predicate IncreasingBy<T>(s: seq<T>, key: T -> int) {
    forall i, j :: 0 <= i < j < |s| ==> key(s[i]) < key(s[j])
  }

  /** If `key` increases strictly along `s`, it increases strictly along every filtering of `s`. */
  lemma {:induction false} FilterKeepsOrder<T>(s: seq<T>, keep: T -> bool, key: T -> int)
    requires IncreasingBy(s, key)
    ensures IncreasingBy(Filter(s, keep), key)
    decreases |s|
  {
    if s != [] {
      var init := s[..|s| - 1];
      var last := s[|s| - 1];
      FilterKeepsOrder(init, keep, key);
      FilterWithin(init, keep);
      var r0 := Filter(init, keep);
      forall k | 0 <= k < |r0| ensures key(r0[k]) < key(last) {
        var i :| 0 <= i < |init| && init[i] == r0[k];
        assert s[i] == init[i];
      }
      var r := Filter(s, keep);
      assert r == r0 + (if keep(last) then [last] else []);
      forall i, j | 0 <= i < j < |r| ensures key(r[i]) < key(r[j]) {
        assert r[i] == r0[i];
        if j < |r0| {
          assert r[j] == r0[j];
          assert key(r0[i]) < key(r0[j]);
        } else {
          assert keep(last) && j == |r0| && r[j] == last;
          assert key(r0[i]) < key(last);
        }
      }
    }
  }

  /** Pages are counted from one and hold at least one document. */
  predicate InRange(page: Option<int>, limit: Option<int>) {
    (page.None? || page.value >= 1) && (limit.None? || limit.value >= 1)
  }

  /** The destructuring default `page = 1`: the first page when the query names none. */
  function PageOf(page: Option<int>): int { page.GetOr(1) }

  /** The destructuring default `limit = 10`: ten documents a page when the query names no size. */
  function LimitOf(limit: Option<int>): int { limit.GetOr(10) }

  /** `(page - 1) * limit`, the number of documents `skip` passes over. */
  function Offset(page: int, limit: int): (n: nat)
    requires page >= 1 && limit >= 1
  {
    (page - 1) * limit
  }

  function Min(a: int, b: int): int { if a <= b then a else b }

  /** `.skip(Offset(page, limit)).limit(limit)` over the matching documents. */
  function Paginate<T>(s: seq<T>, page: int, limit: int): (r: seq<T>)
    requires page >= 1 && limit >= 1
    ensures |r| <= limit
    ensures |r| == if Offset(page, limit) >= |s| then 0 else Min(limit, |s| - Offset(page, limit))
    ensures forall k :: 0 <= k < |r| ==> Offset(page, limit) + k < |s| && r[k] == s[Offset(page, limit) + k]
  {
    var start := Offset(page, limit);
    if start >= |s| then [] else s[start..Min(start + limit, |s|)]
  }

  /** `Math.ceil(total / limit)` for whole numbers: the fewest pages of `limit` that hold `total`. */
  function TotalPages(total: nat, limit: int): (pages: nat)
    requires limit >= 1
    ensures pages * limit >= total
    ensures pages == 0 || (pages - 1) * limit < total
  {
    var q := (total + limit - 1) / limit;
    DivBounds(total + limit - 1, limit);
    q
  }

  /** The quotient of Euclidean division from both sides. */
  lemma DivBounds(n: nat, d: int)
    requires d >= 1
    ensures (n / d) * d <= n < (n / d + 1) * d
  {
  }

  /** Document `i` appears on page `i / limit + 1`, at position `i % limit`. */
  lemma PagePosition<T>(s: seq<T>, i: nat, limit: int)
    requires i < |s| && limit >= 1
    ensures i / limit >= 0
    ensures var p := Paginate(s, i / limit + 1, limit);
            i % limit < |p| && p[i % limit] == s[i]
  {
    assert Offset(i / limit + 1, limit) == (i / limit) * limit;
    assert (i / limit) * limit + i % limit == i;
  }

  /** A page is non-empty exactly when its number is at most the page count. */
  lemma NonEmptyPages<T>(s: seq<T>, page: int, limit: int)
    requires page >= 1 && limit >= 1
    ensures |Paginate(s, page, limit)| > 0 <==> page <= TotalPages(|s|, limit)
  {
    var n := TotalPages(|s|, limit);
    if page <= n {
      assert (page - 1) * limit <= (n - 1) * limit by { MulMonotone(page - 1, n - 1, limit); }
    } else {
      assert n * limit <= (page - 1) * limit by { MulMonotone(n, page - 1, limit); }
    }
  }

  lemma MulMonotone(a: int, b: int, c: int)
    requires 0 <= a <= b && c >= 0
    ensures a * c <= b * c
  {
  }
}
