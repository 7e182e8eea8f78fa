/** Notions that several parts share. */
module Basics {

  function Least(a: nat, b: nat): nat
  {
    if a < b then a else b
  }

  function Pow2(k: nat): (p: nat)
    ensures p > 0
  {
    if k == 0 then 1 else 2 * Pow2(k - 1)
  }

  ghost predicate NoRepeats<T>(xs: seq<T>)
  {
    forall i, j :: 0 <= i < j < |xs| ==> xs[i] != xs[j]
  }

  /** The string `b` stands at `p` in `m`. */
  ghost predicate At(m: seq<nat>, p: nat, b: seq<nat>)
  {
    p + |b| <= |m| && m[p..p + |b|] == b
  }

  lemma AtParts(m: seq<nat>, p: nat, a: seq<nat>, b: seq<nat>)
    requires At(m, p, a + b)
    ensures At(m, p, a) && At(m, p + |a|, b)
  {
    var s := m[p..p + |a| + |b|];
    assert s[..|a|] == m[p..p + |a|] && s[|a|..] == m[p + |a|..p + |a| + |b|];
    assert (a + b)[..|a|] == a && (a + b)[|a|..] == b;
  }

  lemma AtHead(m: seq<nat>, p: nat, x: nat, b: seq<nat>)
    requires At(m, p, [x] + b)
    ensures p < |m| && m[p] == x && At(m, p + 1, b)
  {
    var s := m[p..p + 1 + |b|];
    assert s[0] == m[p] && s[1..] == m[p + 1..p + 1 + |b|] && ([x] + b)[1..] == b;
  }

  lemma AtIndex(m: seq<nat>, p: nat, b: seq<nat>, i: nat)
    requires At(m, p, b) && i < |b|
    ensures m[p + i] == b[i]
  {
    assert m[p..p + |b|][i] == b[i];
  }

  lemma AtBound(m: seq<nat>, p: nat, b: seq<nat>)
    requires At(m, p, b)
    ensures p + |b| <= |m|
  {
  }

  lemma AtTail(m: seq<nat>, p: nat, b: seq<nat>, i: nat)
    requires At(m, p, b) && i <= |b|
    ensures At(m, p + i, b[i..])
  {
    assert b == b[..i] + b[i..];
    AtParts(m, p, b[..i], b[i..]);
  }

  lemma AtSlice(m: seq<nat>, p: nat, b: seq<nat>)
    requires At(m, p, b)
    ensures p + |b| <= |m| && m[p..p + |b|] == b
  {
  }
}
