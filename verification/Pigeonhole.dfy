/** Counting: more places than values mean that a value comes twice. */
module Counting {
  lemma {:induction false} Pigeonhole<T>(s: seq<T>, values: set<T>)
    requires |s| > |values| && forall i :: 0 <= i < |s| ==> s[i] in values
    ensures exists i, j :: 0 <= i < j < |s| && s[i] == s[j]
    decreases |s|
  {
    var n := |s| - 1;
    if k :| 0 <= k < n && s[k] == s[n] {
    } else {
      assert s[n] in values;
      Pigeonhole(s[..n], values - {s[n]});
      var i, j :| 0 <= i < j < n && s[..n][i] == s[..n][j];
      assert s[i] == s[j];
    }
  }

  function Below(n: nat): (r: set<nat>)
    ensures forall i :: i in r <==> 0 <= i < n
    ensures |r| == n
  {
    if n == 0 then {} else Below(n - 1) + {n - 1}
  }
}
