/** What the haplotype-to-partition map of a pedigree IS, for one transmission
    vector: a pure recursive definition over the ancestry, and the properties
    that partitioning promises about it. */
module PartitionSpec {
  import opened Pedigrees

  /** The transmission vector is a 32-bit unsigned integer with two bits per
      triple (bit 2t for parent0, bit 2t+1 for parent1 of triple t). */
  type TransmissionVector = bv32

  /** Bit k of the transmission vector is set. */
  predicate Bit(tv: TransmissionVector, k: nat)
    requires k < 32
  {
    (tv >> k) & 1 == 1
  }

  /** The pedigrees partitioning accepts: indices in range, no individual its
      own ancestor, and at most 16 triples so that bit 2t+1 exists for each. */
  ghost predicate Supported(ped: Pedigree) {
    InRange(ped) && Acyclic(ped) && 2 * |ped.triples| <= 32
  }

  /** Number of partitions: two per founder. */
  function PartitionCount(ped: Pedigree): nat {
    2 * |FoundersBelow(ped, ped.size)|
  }

  /** The pair of partition ids of individual i's haplotypes 0 and 1.
      A founder with k founders before it gets (2k, 2k+1); the child of the
      triple t gets from parent0 its first id when bit 2t is set and its
      second otherwise, and likewise from parent1 using bit 2t+1. */
  function Partition(ped: Pedigree, tv: TransmissionVector, i: nat): (r: (int, int))
    requires Supported(ped) && i < ped.size
    ensures 0 <= r.0 < PartitionCount(ped)
    ensures 0 <= r.1 < PartitionCount(ped)
    decreases SomeRank(ped)[i]
  {
    var t := TripleIndex(ped, i);
    if t == -1 then
      FounderHasNoTriple(ped, i);
      FounderPosition(ped, i, ped.size);
      var k := |FoundersBelow(ped, i)|;
      (2 * k, 2 * k + 1)
    else
      var tr := ped.triples[t];
      var p0 := Partition(ped, tv, tr.parent0);
      var p1 := Partition(ped, tv, tr.parent1);
      (if Bit(tv, 2 * t) then p0.0 else p0.1,
       if Bit(tv, 2 * t + 1) then p1.0 else p1.1)
  }

  /** The k-th founder in index order owns partitions 2k and 2k+1. */
  lemma {:induction false} FounderLayout(ped: Pedigree, tv: TransmissionVector, k: nat)
    requires Supported(ped)
    requires k < |FoundersBelow(ped, ped.size)|
    ensures IsFounder(ped, FoundersBelow(ped, ped.size)[k])
    ensures Partition(ped, tv, FoundersBelow(ped, ped.size)[k]) == (2 * k, 2 * k + 1)
  {
    var fs := FoundersBelow(ped, ped.size);
    var f := fs[k];
    FounderPosition(ped, f, ped.size);
    FounderHasNoTriple(ped, f);
  }

  /** Distinct founders own disjoint pairs of partitions. */
  lemma {:induction false} FoundersDisjoint(ped: Pedigree, tv: TransmissionVector, i: nat, j: nat)
    requires Supported(ped)
    requires i < ped.size && j < ped.size && i != j
    requires IsFounder(ped, i) && IsFounder(ped, j)
    ensures Partition(ped, tv, i).0 != Partition(ped, tv, j).0
    ensures Partition(ped, tv, i).0 != Partition(ped, tv, j).1
    ensures Partition(ped, tv, i).1 != Partition(ped, tv, j).0
    ensures Partition(ped, tv, i).1 != Partition(ped, tv, j).1
  {
    FounderHasNoTriple(ped, i);
    FounderHasNoTriple(ped, j);
    FounderPosition(ped, i, ped.size);
    FounderPosition(ped, j, ped.size);
  }

  /** The count formula: with every individual the child of at most one
      triple, there are 2 * (size - triple_count) partitions, and every id
      lies below that bound. */
  lemma {:induction false} CountFormula(ped: Pedigree, tv: TransmissionVector, i: nat)
    requires Supported(ped) && DistinctChildren(ped.triples)
    requires i < ped.size
    ensures PartitionCount(ped) == 2 * (ped.size - |ped.triples|)
    ensures 0 <= Partition(ped, tv, i).0 < 2 * (ped.size - |ped.triples|)
    ensures 0 <= Partition(ped, tv, i).1 < 2 * (ped.size - |ped.triples|)
  {
    FounderCount(ped);
  }

  /** For every triple t, the child takes from parent0 the first id when bit
      2t is set and the second otherwise, and from parent1 the same way using
      bit 2t+1; so each of its ids is one of the corresponding parent's ids. */
  lemma {:induction false} ChildInherits(ped: Pedigree, tv: TransmissionVector, t: nat)
    requires Supported(ped) && DistinctChildren(ped.triples)
    requires t < |ped.triples|
    ensures var tr := ped.triples[t];
      var c, p0, p1 := Partition(ped, tv, tr.child), Partition(ped, tv, tr.parent0), Partition(ped, tv, tr.parent1);
      c.0 == (if Bit(tv, 2 * t) then p0.0 else p0.1) &&
      c.1 == (if Bit(tv, 2 * t + 1) then p1.0 else p1.1) &&
      (c.0 == p0.0 || c.0 == p0.1) &&
      (c.1 == p1.0 || c.1 == p1.1)
  {
    TripleIndexOfChild(ped, t);
  }

  /** Only the 2 * triple_count low bits of the transmission vector matter:
      two vectors agreeing on them give the same partition for everyone. */
  lemma {:induction false} HighBitsIgnored(ped: Pedigree, tv: TransmissionVector, tv': TransmissionVector, i: nat)
    requires Supported(ped) && i < ped.size
    requires forall k :: 0 <= k < 2 * |ped.triples| ==> Bit(tv, k) == Bit(tv', k)
    ensures Partition(ped, tv, i) == Partition(ped, tv', i)
    decreases SomeRank(ped)[i]
  {
    var t := TripleIndex(ped, i);
    if t != -1 {
      var tr := ped.triples[t];
      HighBitsIgnored(ped, tv, tv', tr.parent0);
      HighBitsIgnored(ped, tv, tv', tr.parent1);
    }
  }
}
