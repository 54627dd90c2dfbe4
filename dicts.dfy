/**
 * `dict(zip(keys, values))`: pairs are taken up to the shorter of the two
 * sequences and inserted left to right, so a repeated key keeps the value of
 * its last occurrence.
 */
module Dicts {

  function Min(a: nat, b: nat): nat { if a <= b then a else b }

  /** The dictionary after inserting the first `n` pairs. */
  function ZipPrefix<K, V>(ks: seq<K>, vs: seq<V>, n: nat): map<K, V>
    requires n <= |ks| && n <= |vs|
  {
    if n == 0 then map[] else ZipPrefix(ks, vs, n - 1)[ks[n - 1] := vs[n - 1]]
  }

  /** `dict(zip(ks, vs))` */
  function ZipToMap<K, V>(ks: seq<K>, vs: seq<V>): map<K, V>
  {
    ZipPrefix(ks, vs, Min(|ks|, |vs|))
  }

  /** Index `i` is the last position below `n` where `k` occurs in `ks`. */
  ghost predicate LastAt<K>(ks: seq<K>, n: nat, i: int, k: K)
    requires n <= |ks|
  {
    0 <= i < n && ks[i] == k && forall j :: i < j < n ==> ks[j] != k
  }

  lemma {:induction false} ZipPrefixSpec<K, V>(ks: seq<K>, vs: seq<V>, n: nat)
    requires n <= |ks| && n <= |vs|
    ensures ZipPrefix(ks, vs, n).Keys == set i | 0 <= i < n :: ks[i]
    ensures forall k :: k in ZipPrefix(ks, vs, n) ==>
              exists i :: LastAt(ks, n, i, k) && ZipPrefix(ks, vs, n)[k] == vs[i]
    decreases n
  {
    if n > 0 {
      ZipPrefixSpec(ks, vs, n - 1);
      var m := ZipPrefix(ks, vs, n);
      assert m.Keys == (set i | 0 <= i < n - 1 :: ks[i]) + {ks[n - 1]};
      forall k | k in m ensures exists i :: LastAt(ks, n, i, k) && m[k] == vs[i] {
        if k == ks[n - 1] {
          assert LastAt(ks, n, n - 1, k);
        } else {
          var i :| LastAt(ks, n - 1, i, k) && ZipPrefix(ks, vs, n - 1)[k] == vs[i];
          assert LastAt(ks, n, i, k);
        }
      }
    }
  }

  /**
   * The keys of `dict(zip(ks, vs))` are exactly the first `min(|ks|, |vs|)`
   * keys, and each holds the value paired with its last occurrence.
   */
  lemma ZipToMapSpec<K, V>(ks: seq<K>, vs: seq<V>)
    ensures ZipToMap(ks, vs).Keys == set i | 0 <= i < Min(|ks|, |vs|) :: ks[i]
    ensures forall i :: 0 <= i < Min(|ks|, |vs|) && LastAt(ks, Min(|ks|, |vs|), i, ks[i]) ==> ZipToMap(ks, vs)[ks[i]] == vs[i]
  {
    var n := Min(|ks|, |vs|);
    ZipPrefixSpec(ks, vs, n);
    forall i | 0 <= i < n && LastAt(ks, n, i, ks[i]) ensures ZipToMap(ks, vs)[ks[i]] == vs[i] {
      var k := ks[i];
      assert k in ZipToMap(ks, vs);
      var i' :| LastAt(ks, n, i', k) && ZipToMap(ks, vs)[k] == vs[i'];
      assert i == i';
    }
  }

  /** Keys and values beyond the shorter sequence are ignored. */
  lemma {:induction false} ZipIgnoresTail<K, V>(ks: seq<K>, vs: seq<V>, ks': seq<K>, vs': seq<V>)
    ensures |ks| >= |vs| ==> ZipToMap(ks + ks', vs) == ZipToMap(ks, vs)
    ensures |vs| >= |ks| ==> ZipToMap(ks, vs + vs') == ZipToMap(ks, vs)
  {
    var n := Min(|ks|, |vs|);
    if |ks| >= |vs| {
      ZipPrefixAgree(ks + ks', vs, ks, vs, n);
    }
    if |vs| >= |ks| {
      ZipPrefixAgree(ks, vs + vs', ks, vs, n);
    }
  }

  lemma {:induction false} ZipPrefixAgree<K, V>(ks: seq<K>, vs: seq<V>, ks': seq<K>, vs': seq<V>, n: nat)
    requires n <= |ks| && n <= |vs| && n <= |ks'| && n <= |vs'|
    requires ks[..n] == ks'[..n] && vs[..n] == vs'[..n]
    ensures ZipPrefix(ks, vs, n) == ZipPrefix(ks', vs', n)
    decreases n
  {
    if n > 0 {
      assert ks[..n - 1] == ks'[..n - 1] && vs[..n - 1] == vs'[..n - 1];
      assert ks[n - 1] == ks[..n][n - 1] == ks'[n - 1];
      assert vs[n - 1] == vs[..n][n - 1] == vs'[n - 1];
      ZipPrefixAgree(ks, vs, ks', vs', n - 1);
    }
  }

  /** With no repeated key every pair survives: one entry per pair, holding its own value. */
  lemma {:induction false} ZipDistinct<K, V>(ks: seq<K>, vs: seq<V>, n: nat)
    requires n <= |ks| && n <= |vs|
    requires forall i, j :: 0 <= i < j < n ==> ks[i] != ks[j]
    ensures |ZipPrefix(ks, vs, n)| == n
    ensures forall i :: 0 <= i < n ==> ks[i] in ZipPrefix(ks, vs, n) && ZipPrefix(ks, vs, n)[ks[i]] == vs[i]
    decreases n
  {
    if n > 0 {
      ZipDistinct(ks, vs, n - 1);
      ZipPrefixSpec(ks, vs, n - 1);
      assert ks[n - 1] !in ZipPrefix(ks, vs, n - 1);
    }
  }
}
