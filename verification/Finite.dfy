/** Counting facts about duplicate-free sequences and finite sets of numbers. */
module Finite {

  ghost predicate Distinct(s: seq<nat>) {
    forall i, j :: 0 <= i < j < |s| ==> s[i] != s[j]
  }

  lemma DistinctTail(s: seq<nat>)
    requires Distinct(s) && s != []
    ensures Distinct(s[1..]) && forall x :: x in s[1..] <==> x in s && x != s[0]
  {
    assert forall x :: x in s <==> x == s[0] || x in s[1..];
  }

  lemma DistinctSnoc(s: seq<nat>, f: nat)
    requires Distinct(s) && f !in s
    ensures Distinct(s + [f]) && forall x :: x in s + [f] <==> x in s || x == f
  {
  }

  /** Pigeonhole: distinct numbers below n that miss one of them are fewer than n. */
  lemma {:induction false} Pigeonhole(s: seq<nat>, n: nat, f: nat)
    requires Distinct(s) && f < n && f !in s && forall x :: x in s ==> x < n
    ensures |s| < n
  {
    SetOfDistinct(s);
    var others := Below(n) - {f};
    assert |others| == n - 1;
    assert Elems(s) <= others;
    SubsetSize(Elems(s), others);
  }

  function Elems(s: seq<nat>): set<nat> { set x | x in s }

  function Below(n: nat): (all: set<nat>)
    ensures |all| == n && forall x: nat :: x in all <==> x < n
  {
    if n == 0 then {} else Below(n - 1) + {n - 1}
  }

  lemma {:induction false} SetOfDistinct(s: seq<nat>)
    requires Distinct(s)
    ensures |Elems(s)| == |s|
  {
    if s == [] {
    } else {
      DistinctTail(s);
      SetOfDistinct(s[1..]);
      assert Elems(s) == Elems(s[1..]) + {s[0]};
    }
  }

  lemma {:induction false} SubsetSize(a: set<nat>, b: set<nat>)
    requires a <= b
    ensures |a| <= |b|
  {
    if a == {} {
    } else {
      var x :| x in a;
      SubsetSize(a - {x}, b - {x});
    }
  }

  /** i is the first position after curr whose bit equals `bit`, or maxN when there is none. */
  ghost predicate IsNextBit(bit: bool, bits: seq<bool>, maxN: nat, curr: int, i: nat)
    requires -1 <= curr < maxN <= |bits|
  {
    && curr < i <= maxN && (i < maxN ==> bits[i] == bit)
    && (forall j :: curr < j < i ==> bits[j] != bit)
  }
}
