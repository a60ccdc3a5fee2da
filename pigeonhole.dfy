/** Counting facts used to bound the length of the snake by the size of the board. */
module Pigeonhole {

  /** No value occurs twice in `s`. */
  ghost predicate Distinct<T>(s: seq<T>) {
    forall i, j :: 0 <= i < j < |s| ==> s[i] != s[j]
  }

  /** Every value of `s` lies in [0, n). */
  ghost predicate Below(s: seq<int>, n: int) {
    forall i :: 0 <= i < |s| ==> 0 <= s[i] < n
  }

  /** `s` with the element at index `k` taken out. */
  function Without<T>(s: seq<T>, k: nat): (t: seq<T>)
    requires k < |s|
    ensures |t| == |s| - 1
    ensures forall a :: 0 <= a < k ==> t[a] == s[a]
    ensures forall a :: k <= a < |t| ==> t[a] == s[a + 1]
  {
    s[..k] + s[k + 1..]
  }

  /** Pairwise distinct integers drawn from [0, n) number at most n. */
  lemma {:induction false} DistinctBelowBounded(s: seq<int>, n: nat)
    requires Below(s, n)
    requires Distinct(s)
    ensures |s| <= n
    decreases n
  {
    if |s| == 0 {
    } else if k :| 0 <= k < |s| && s[k] == n - 1 {
      var t := Without(s, k);
      forall a | 0 <= a < |t|
        ensures 0 <= t[a] < n - 1
      {
        if a < k {
          assert s[a] != s[k];
        } else {
          assert s[k] != s[a + 1];
        }
      }
      forall a, b | 0 <= a < b < |t|
        ensures t[a] != t[b]
      {
        var a' := if a < k then a else a + 1;
        var b' := if b < k then b else b + 1;
        assert s[a'] != s[b'];
      }
      DistinctBelowBounded(t, n - 1);
    } else {
      assert 0 <= s[0] < n;
      assert Below(s, n - 1);
      DistinctBelowBounded(s, n - 1);
    }
  }
}
