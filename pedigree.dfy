/** The part of a pedigree that partitioning reads: the number of individuals
    and the list of (parent0, parent1, child) triples, all given as individual
    indices, together with the facts derived from them (which triple an
    individual is the child of, and which individuals are founders). */
module Pedigrees {

  /** One parent-parent-child relation; every field is an individual index. */
  datatype Triple = Triple(parent0: nat, parent1: nat, child: nat)

  /** `size` individuals numbered 0 .. size-1, and the triples linking them. */
  datatype Pedigree = Pedigree(size: nat, triples: seq<Triple>)

  /** Every index named by a triple is an individual of the pedigree. */
  predicate InRange(ped: Pedigree) {
    forall t :: 0 <= t < |ped.triples| ==>
      ped.triples[t].parent0 < ped.size &&
      ped.triples[t].parent1 < ped.size &&
      ped.triples[t].child < ped.size
  }

  /** Each individual is the child of at most one triple. */
  predicate DistinctChildren(ts: seq<Triple>) {
    forall a, b :: 0 <= a < b < |ts| ==> ts[a].child != ts[b].child
  }

  /** The index of the LAST triple in `ts` whose child is `j`, or -1 if there
      is none (later triples overwrite earlier ones when indices are collected). */
  function TripleIndexIn(ts: seq<Triple>, j: nat): (r: int)
    ensures -1 <= r < |ts|
    ensures r >= 0 ==> ts[r].child == j
    ensures forall k :: r < k < |ts| ==> ts[k].child != j
  {
    if |ts| == 0 then -1
    else if ts[|ts| - 1].child == j then |ts| - 1
    else TripleIndexIn(ts[..|ts| - 1], j)
  }

  function TripleIndex(ped: Pedigree, j: nat): int {
    TripleIndexIn(ped.triples, j)
  }

  /** `rank` orders the individuals so that both parents of the triple the
      lookup picks for an individual (the last one naming it as child) rank
      strictly below it; triples the lookup overrides are not constrained. */
  ghost predicate Ranked(ped: Pedigree, rank: seq<nat>) {
    |rank| == ped.size && InRange(ped) &&
    forall j :: 0 <= j < ped.size && TripleIndex(ped, j) >= 0 ==>
      rank[ped.triples[TripleIndex(ped, j)].parent0] < rank[j] &&
      rank[ped.triples[TripleIndex(ped, j)].parent1] < rank[j]
  }

  /** Following the looked-up triples from child to parents never returns to
      the same individual. */
  ghost predicate Acyclic(ped: Pedigree) {
    exists rank :: Ranked(ped, rank)
  }

  /** A ranking witnessing acyclicity; recursion over ancestors decreases it. */
  ghost function SomeRank(ped: Pedigree): (rank: seq<nat>)
    requires Acyclic(ped)
    ensures Ranked(ped, rank)
  {
    var rank :| Ranked(ped, rank); rank
  }

  /** A pedigree that repeats a child is accepted when the triples the lookup
      picks are acyclic, even if an overridden triple would close a cycle:
      individual 0 is named by triples 0 and 2, and only triple 2 is used. */
  lemma OverriddenTripleIgnored()
    ensures Acyclic(Pedigree(3, [Triple(1, 1, 0), Triple(0, 0, 1), Triple(2, 2, 0)]))
  {
    var ped := Pedigree(3, [Triple(1, 1, 0), Triple(0, 0, 1), Triple(2, 2, 0)]);
    assert TripleIndex(ped, 0) == 2;
    assert TripleIndex(ped, 1) == 1;
    assert TripleIndex(ped, 2) == -1;
    assert Ranked(ped, [1, 2, 0]);
  }

  /** A founder is an individual that is not the child of any triple. */
  predicate IsFounder(ped: Pedigree, j: nat) {
    forall t :: 0 <= t < |ped.triples| ==> ped.triples[t].child != j
  }

  /** The lookup finds no triple exactly for founders. */
  lemma FounderHasNoTriple(ped: Pedigree, j: nat)
    ensures TripleIndex(ped, j) == -1 <==> IsFounder(ped, j)
  {
    var r := TripleIndex(ped, j);
    if r != -1 {
      assert ped.triples[r].child == j;
    }
  }

  /** With distinct children, the lookup of a triple's child finds that triple. */
  lemma TripleIndexOfChild(ped: Pedigree, t: nat)
    requires DistinctChildren(ped.triples)
    requires t < |ped.triples|
    ensures TripleIndex(ped, ped.triples[t].child) == t
  {
    var r := TripleIndex(ped, ped.triples[t].child);
    assert t <= r;
  }

  /** The founders among individuals 0 .. n-1, in increasing index order. */
  function FoundersBelow(ped: Pedigree, n: nat): (fs: seq<nat>)
    ensures forall k :: 0 <= k < |fs| ==> fs[k] < n && IsFounder(ped, fs[k])
    ensures forall a, b :: 0 <= a < b < |fs| ==> fs[a] < fs[b]
    ensures forall j :: 0 <= j < n && IsFounder(ped, j) ==> j in fs
  {
    if n == 0 then []
    else FoundersBelow(ped, n - 1) + (if IsFounder(ped, n - 1) then [n - 1] else [])
  }

  /** Listing the founders below m is a prefix of listing them below n >= m. */
  lemma {:induction false} FoundersPrefix(ped: Pedigree, m: nat, n: nat)
    requires m <= n
    ensures |FoundersBelow(ped, m)| <= |FoundersBelow(ped, n)|
    ensures FoundersBelow(ped, n)[..|FoundersBelow(ped, m)|] == FoundersBelow(ped, m)
  {
    if m < n {
      FoundersPrefix(ped, m, n - 1);
      var fm, fn1 := FoundersBelow(ped, m), FoundersBelow(ped, n - 1);
      assert FoundersBelow(ped, n)[..|fn1|] == fn1;
      assert FoundersBelow(ped, n)[..|fm|] == fn1[..|fm|];
    }
  }

  /** A founder j below n appears in the founder list below n at position
      |FoundersBelow(ped, j)|, the number of founders before it. */
  lemma {:induction false} FounderPosition(ped: Pedigree, j: nat, n: nat)
    requires j < n && IsFounder(ped, j)
    ensures |FoundersBelow(ped, j)| < |FoundersBelow(ped, n)|
    ensures FoundersBelow(ped, n)[|FoundersBelow(ped, j)|] == j
  {
    FoundersPrefix(ped, j + 1, n);
    assert FoundersBelow(ped, j + 1) == FoundersBelow(ped, j) + [j];
    assert FoundersBelow(ped, n)[..|FoundersBelow(ped, j + 1)|][|FoundersBelow(ped, j)|] == j;
  }

  /** Number of triples in `ts` whose child index is below n. */
  function ChildrenBelow(ts: seq<Triple>, n: nat): nat {
    if ts == [] then 0 else (if ts[0].child < n then 1 else 0) + ChildrenBelow(ts[1..], n)
  }

  /** Number of triples in `ts` whose child is j. */
  function ChildOccurrences(ts: seq<Triple>, j: nat): nat {
    if ts == [] then 0 else (if ts[0].child == j then 1 else 0) + ChildOccurrences(ts[1..], j)
  }

  lemma {:induction false} ChildrenBelowStep(ts: seq<Triple>, n: nat)
    ensures ChildrenBelow(ts, n + 1) == ChildrenBelow(ts, n) + ChildOccurrences(ts, n)
  {
    if ts != [] {
      ChildrenBelowStep(ts[1..], n);
    }
  }

  lemma {:induction false} ChildrenBelowAll(ts: seq<Triple>, n: nat)
    requires forall t :: 0 <= t < |ts| ==> ts[t].child < n
    ensures ChildrenBelow(ts, n) == |ts|
  {
    if ts != [] {
      assert forall t :: 0 <= t < |ts[1..]| ==> ts[1..][t] == ts[t + 1];
      ChildrenBelowAll(ts[1..], n);
    }
  }

  lemma {:induction false} NoChildrenBelowZero(ts: seq<Triple>)
    ensures ChildrenBelow(ts, 0) == 0
  {
    if ts != [] {
      NoChildrenBelowZero(ts[1..]);
    }
  }

  /** With distinct children, j occurs as a child once if some triple names it,
      and not at all otherwise. */
  lemma {:induction false} OccurrencesOfDistinct(ts: seq<Triple>, j: nat)
    requires DistinctChildren(ts)
    ensures ChildOccurrences(ts, j) == if forall t :: 0 <= t < |ts| ==> ts[t].child != j then 0 else 1
  {
    if ts != [] {
      var rest := ts[1..];
      assert forall t :: 0 <= t < |rest| ==> rest[t] == ts[t + 1];
      OccurrencesOfDistinct(rest, j);
      if ts[0].child == j {
        assert forall t :: 0 <= t < |rest| ==> rest[t].child != j;
      } else if forall t :: 0 <= t < |rest| ==> rest[t].child != j {
        assert forall t :: 0 <= t < |ts| ==> ts[t].child != j by {
          forall t | 0 <= t < |ts| ensures ts[t].child != j {
            if t > 0 { assert ts[t] == rest[t - 1]; }
          }
        }
      } else {
        var t :| 0 <= t < |rest| && rest[t].child == j;
        assert ts[t + 1].child == j;
      }
    }
  }

  /** Below n, every individual is either a founder or the child of exactly one triple. */
  lemma {:induction false} FoundersAndChildren(ped: Pedigree, n: nat)
    requires DistinctChildren(ped.triples)
    ensures |FoundersBelow(ped, n)| + ChildrenBelow(ped.triples, n) == n
  {
    if n > 0 {
      FoundersAndChildren(ped, n - 1);
      ChildrenBelowStep(ped.triples, n - 1);
      OccurrencesOfDistinct(ped.triples, n - 1);
      assert |FoundersBelow(ped, n)| ==
        |FoundersBelow(ped, n - 1)| + if IsFounder(ped, n - 1) then 1 else 0;
    } else {
      NoChildrenBelowZero(ped.triples);
    }
  }

  /** There are as many founders as individuals minus triples, when every
      individual is the child of at most one triple. */
  lemma {:induction false} FounderCount(ped: Pedigree)
    requires InRange(ped) && DistinctChildren(ped.triples)
    ensures |ped.triples| <= ped.size
    ensures |FoundersBelow(ped, ped.size)| == ped.size - |ped.triples|
  {
    FoundersAndChildren(ped, ped.size);
    ChildrenBelowAll(ped.triples, ped.size);
  }
}
