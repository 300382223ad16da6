/**
 * The query building blocks the controllers hand to their stores: a `where`
 * filter, an `order` by an integer key, an `offset`/`limit` window and a
 * lookup by key. Each is stated by what it returns, not by how a database
 * would compute it.
 */
module Queries {
  import opened Wrappers

  function Min(a: int, b: int): int { if a <= b then a else b }

  /** `s` is in non-decreasing order of `key`. */
  predicate SortedBy<T>(s: seq<T>, key: T -> int) {
    forall i, j :: 0 <= i < j < |s| ==> key(s[i]) <= key(s[j])
  }

  /** The elements of `s` that satisfy `p`, in their original order. */
  function Filter<T(!new)>(s: seq<T>, p: T -> bool): (r: seq<T>)
    ensures |r| <= |s|
    ensures forall i :: 0 <= i < |r| ==> r[i] in s && p(r[i])
    ensures forall i :: 0 <= i < |s| && p(s[i]) ==> s[i] in r
    ensures forall x :: multiset(r)[x] == if p(x) then multiset(s)[x] else 0
  {
    if s == [] then []
    else
      assert s == [s[0]] + s[1..];
      if p(s[0]) then [s[0]] + Filter(s[1..], p)
      else Filter(s[1..], p)
  }

  /** Inserts `x` into the sorted `s`, before the first element whose key is not smaller. */
  function InsertBy<T>(x: T, s: seq<T>, key: T -> int): (r: seq<T>)
    requires SortedBy(s, key)
    ensures SortedBy(r, key)
    ensures |r| == |s| + 1
    ensures forall k :: 0 <= k < |r| ==> r[k] == x || r[k] in s
    ensures multiset(r) == multiset(s) + multiset{x}
  {
    if s == [] || key(x) <= key(s[0]) then [x] + s
    else
      var rest := InsertBy(x, s[1..], key);
      assert s == [s[0]] + s[1..];
      forall k | 0 <= k < |rest| ensures key(s[0]) <= key(rest[k]) {
        if rest[k] != x {
          var m :| 0 <= m < |s[1..]| && s[1..][m] == rest[k];
          assert s[m + 1] == rest[k];
        }
      }
      [s[0]] + rest
  }

  /** `s` ordered by `key` (an ORM `order` clause): a sorted permutation of `s`. */
  function SortBy<T>(s: seq<T>, key: T -> int): (r: seq<T>)
    ensures SortedBy(r, key)
    ensures multiset(r) == multiset(s)
  {
    if s == [] then []
    else
      assert s == [s[0]] + s[1..];
      InsertBy(s[0], SortBy(s[1..], key), key)
  }

  /**
   * At most `limit` elements of `s`, starting at position `offset` (an ORM
   * `offset`/`limit` pair); empty when `offset` is past the end.
   */
  function Window<T>(s: seq<T>, offset: nat, limit: nat): (r: seq<T>)
    ensures |r| == if offset >= |s| then 0 else Min(limit, |s| - offset)
    ensures forall i :: 0 <= i < |r| ==> r[i] == s[offset + i]
    ensures multiset(r) <= multiset(s)
  {
    if offset >= |s| then []
    else
      var end := offset + Min(limit, |s| - offset);
      assert s == s[..offset] + s[offset..end] + s[end..];
      s[offset..end]
  }

  /** The position of the first element of `s` that satisfies `p` (a lookup by key). */
  function IndexWhere<T>(s: seq<T>, p: T -> bool): (r: Option<nat>)
    ensures r.Some? ==> r.value < |s| && p(s[r.value])
    ensures r.Some? ==> forall j :: 0 <= j < r.value ==> !p(s[j])
    ensures r.None? <==> forall j :: 0 <= j < |s| ==> !p(s[j])
  {
    if s == [] then None
    else if p(s[0]) then Some(0)
    else match IndexWhere(s[1..], p)
      case Some(i) => Some(i + 1)
      case None => None
  }

  /**
   * A window of the sorted filter: the sort loses no row, and the window holds
   * only rows of `s` that satisfy `p`, each no more often than the filter
 * keeps it, still in order of `key`.
   */
  lemma SortedFilterWindow<T(!new)>(s: seq<T>, p: T -> bool, key: T -> int, offset: nat, limit: nat)
    ensures |SortBy(Filter(s, p), key)| == |Filter(s, p)|
    ensures var w := Window(SortBy(Filter(s, p), key), offset, limit);
      && (forall i :: 0 <= i < |w| ==> w[i] in s && p(w[i]))
      && SortedBy(w, key)
      && multiset(w) <= multiset(Filter(s, p))
  {
    var kept := Filter(s, p);
    var sorted := SortBy(kept, key);
    assert |sorted| == |kept| by {
      assert |multiset(sorted)| == |multiset(kept)|;
    }
    var w := Window(sorted, offset, limit);
    forall i | 0 <= i < |w| ensures w[i] in s && p(w[i]) {
      assert w[i] == sorted[offset + i];
      assert w[i] in multiset(kept);
    }
    forall i, j | 0 <= i < j < |w| ensures key(w[i]) <= key(w[j]) {
      assert w[i] == sorted[offset + i] && w[j] == sorted[offset + j];
    }
  }
}
