/** The ascending range scan of a storage map keyed by `u128`: every key once,
    smallest first, which is the order `Map::range(.., Order::Ascending)` yields. */
module Storage {
  import opened State

  /** `k` is the smallest element of `s`. */
  predicate IsMin(k: U128, s: set<U128>)
  {
    k in s && forall j :: j in s ==> k <= j
  }

  lemma {:induction false} MinExists(s: set<U128>)
    requires s != {}
    ensures exists k :: IsMin(k, s)
    decreases |s|
  {
    var x :| x in s;
    if s == {x} {
      assert IsMin(x, s);
    } else {
      var rest := s - {x};
      MinExists(rest);
      var k :| IsMin(k, rest);
      assert forall j :: j in s ==> j == x || j in rest;
      if x < k {
        assert IsMin(x, s);
      } else {
        assert IsMin(k, s);
      }
    }
  }

  /** The smallest key of a non-empty key set. */
  function Min(s: set<U128>): (k: U128)
    requires s != {}
    ensures k in s && forall j :: j in s ==> k <= j
  {
    MinExists(s);
    var k :| IsMin(k, s); k
  }

  /** Every key of `r` is smaller than the keys after it. */
  predicate Ascending(r: seq<U128>)
  {
    forall i, j :: 0 <= i < j < |r| ==> r[i] < r[j]
  }

  /** Putting the smallest key in front of an ascending listing of the other
      keys gives an ascending listing of all of them. */
  lemma PrependMin(s: set<U128>, k: U128, rest: seq<U128>)
    requires IsMin(k, s)
    requires |rest| == |s - {k}|
    requires forall i :: 0 <= i < |rest| ==> rest[i] in s - {k}
    requires forall x :: x in s - {k} ==> x in rest
    requires Ascending(rest)
    ensures |[k] + rest| == |s|
    ensures forall i :: 0 <= i < |[k] + rest| ==> ([k] + rest)[i] in s
    ensures forall x :: x in s ==> x in [k] + rest
    ensures Ascending([k] + rest)
  {
    assert |s - {k}| == |s| - 1;
    assert forall x :: x in s ==> x == k || x in s - {k};
  }

  /** The keys of `s` in ascending order, each exactly once. */
  function SortedKeys(s: set<U128>): (r: seq<U128>)
    ensures |r| == |s|
    ensures forall i :: 0 <= i < |r| ==> r[i] in s
    ensures forall k :: k in s ==> k in r
    ensures Ascending(r)
    decreases |s|
  {
    if s == {} then []
    else
      var k := Min(s);
      var rest := SortedKeys(s - {k});
      PrependMin(s, k, rest);
      [k] + rest
  }

  /** `s` holds exactly the keys `lo, lo+1, ..., hi-1`. */
  ghost predicate IsKeyRange(s: set<U128>, lo: nat, hi: nat)
  {
    forall k: U128 :: k in s <==> lo <= k < hi
  }

  /** Removing the smallest key of a range leaves the range one shorter. */
  lemma RangeTail(s: set<U128>, lo: nat, hi: nat)
    requires lo < hi <= U128_LIMIT
    requires IsKeyRange(s, lo, hi)
    ensures s != {} && Min(s) == lo
    ensures IsKeyRange(s - {Min(s)}, lo + 1, hi)
  {
    assert (lo as U128) in s;
  }

  /** Scanning a contiguous key range yields `lo, lo+1, ..., hi-1`. */
  lemma {:induction false} SortedKeysOfRange(s: set<U128>, lo: nat, hi: nat)
    requires lo <= hi <= U128_LIMIT
    requires IsKeyRange(s, lo, hi)
    ensures |SortedKeys(s)| == hi - lo
    ensures forall i :: 0 <= i < hi - lo ==> SortedKeys(s)[i] == lo + i
    decreases hi - lo
  {
    if lo == hi {
      assert s == {} by {
        forall k | k in s ensures false { }
      }
    } else {
      RangeTail(s, lo, hi);
      var rest := s - {Min(s)};
      SortedKeysOfRange(rest, lo + 1, hi);
      var r, tail := SortedKeys(s), SortedKeys(rest);
      assert r == [lo as U128] + tail;
      forall i | 0 <= i < hi - lo ensures r[i] == lo + i {
        if i > 0 {
          assert r[i] == tail[i - 1];
        }
      }
    }
  }
}
