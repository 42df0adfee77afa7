// Counting the elements of a sequence that satisfy a predicate.
module Counting {

  function CountIf<T>(ts: seq<T>, p: T -> bool): nat {
    if ts == [] then 0
    else CountIf(ts[..|ts| - 1], p) + (if p(ts[|ts| - 1]) then 1 else 0)
  }

  lemma {:induction false} CountIfBounds<T>(ts: seq<T>, p: T -> bool)
    ensures CountIf(ts, p) <= |ts|
    ensures CountIf(ts, p) == 0 <==> forall i :: 0 <= i < |ts| ==> !p(ts[i])
  {
    if ts != [] {
      var front := ts[..|ts| - 1];
      CountIfBounds(front, p);
      assert forall i :: 0 <= i < |front| ==> front[i] == ts[i];
    }
  }

  lemma {:induction false} CountIfUpdate<T>(ts: seq<T>, p: T -> bool, i: nat, t: T)
    requires i < |ts|
    ensures CountIf(ts[i := t], p) ==
            CountIf(ts, p) - (if p(ts[i]) then 1 else 0) + (if p(t) then 1 else 0)
  {
    var n := |ts| - 1;
    var us := ts[i := t];
    if i == n {
      assert us[..n] == ts[..n];
    } else {
      assert us[..n] == ts[..n][i := t];
      CountIfUpdate(ts[..n], p, i, t);
    }
  }

  lemma {:induction false} CountIfConstant<T>(n: nat, t: T, p: T -> bool)
    requires !p(t)
    ensures CountIf(seq(n, _ => t), p) == 0
  {
    CountIfBounds(seq(n, _ => t), p);
  }
}
