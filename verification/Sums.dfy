/** Sums of a weight over a sequence, and how one change moves them. */
module Sums {

  ghost function Total<T>(s: seq<T>, w: T -> nat): nat {
    if s == [] then 0 else w(s[0]) + Total(s[1..], w)
  }

  lemma {:induction false} TotalUpdate<T>(s: seq<T>, w: T -> nat, i: nat, t: T)
    requires i < |s|
    ensures Total(s[i := t], w) == Total(s, w) - w(s[i]) + w(t)
    ensures Total(s, w) >= w(s[i])
  {
    if i == 0 {
      assert s[0 := t][1..] == s[1..];
    } else {
      assert s[i := t][1..] == s[1..][i - 1 := t];
      TotalUpdate(s[1..], w, i - 1, t);
    }
  }

  lemma {:induction false} TotalAppend<T>(s: seq<T>, w: T -> nat, t: T)
    ensures Total(s + [t], w) == Total(s, w) + w(t)
  {
    if s == [] {
      assert [t][1..] == [];
    } else {
      assert (s + [t])[1..] == s[1..] + [t];
      TotalAppend(s[1..], w, t);
    }
  }

  lemma {:induction false} TotalZero<T>(s: seq<T>, w: T -> nat)
    requires forall i :: 0 <= i < |s| ==> w(s[i]) == 0
    ensures Total(s, w) == 0
  {
    if s != [] {
      TotalZero(s[1..], w);
    }
  }

  /** A positive sum has a positive term. */
  lemma {:induction false} TotalPositive<T>(s: seq<T>, w: T -> nat) returns (i: nat)
    requires Total(s, w) > 0
    ensures i < |s| && w(s[i]) > 0
  {
    if w(s[0]) > 0 {
      i := 0;
    } else {
      var j := TotalPositive(s[1..], w);
      i := j + 1;
    }
  }

  lemma {:induction false} TotalAtMost<T>(s: seq<T>, v: T -> nat, w: T -> nat)
    requires forall i :: 0 <= i < |s| ==> v(s[i]) <= w(s[i])
    ensures Total(s, v) <= Total(s, w)
  {
    if s != [] {
      TotalAtMost(s[1..], v, w);
    }
  }
}
