/** The partition map object: built once from a pedigree and a transmission
    vector, it fills an array with each individual's pair of partition ids,
    founders first and then every child through a memoised recursion over
    its parents, and answers count and lookup queries. */
module Partitions {
  import opened Pedigrees
  import opened PartitionSpec

  /** The marker of an entry the construction has not filled yet. */
  const Unassigned: (int, int) := (-1, -1)

  /** The 32-bit unsigned integers, the type of the stored partition count. */
  const UintModulus: int := 0x1_0000_0000

  /** For every individual, the index of the last triple naming it as child,
      or -1 for a founder. */
  method CollectTripleIndices(pedigree: Pedigree) returns (tripleIndices: array<int>)
    requires InRange(pedigree)
    ensures fresh(tripleIndices) && tripleIndices.Length == pedigree.size
    ensures forall j :: 0 <= j < pedigree.size ==> tripleIndices[j] == TripleIndex(pedigree, j)
  {
    tripleIndices := new int[pedigree.size](_ => -1);
    var t := 0;
    while t < |pedigree.triples|
      invariant 0 <= t <= |pedigree.triples|
      invariant forall j :: 0 <= j < pedigree.size ==>
        tripleIndices[j] == TripleIndexIn(pedigree.triples[..t], j)
    {
      tripleIndices[pedigree.triples[t].child] := t;
      assert pedigree.triples[..t + 1][..t] == pedigree.triples[..t];
      t := t + 1;
    }
    assert pedigree.triples[..t] == pedigree.triples;
  }

  class PedigreePartitions {
    const pedigree: Pedigree
    const transmissionVector: TransmissionVector
    const partitionCount: nat
    const haplotypeToPartitionMap: array<(int, int)>

    /** After construction the count is 2 * (size - triple_count) as a 32-bit
        unsigned integer, and every entry holds the individual's partition pair. */
    ghost predicate Valid()
      reads this, haplotypeToPartitionMap
    {
      Supported(pedigree) &&
      partitionCount == (2 * (pedigree.size - |pedigree.triples|)) % UintModulus &&
      haplotypeToPartitionMap.Length == pedigree.size &&
      forall j :: 0 <= j < pedigree.size ==>
        haplotypeToPartitionMap[j] == Partition(pedigree, transmissionVector, j)
    }

    /** During construction: every entry is either unassigned or final, and
        founders are already final. */
    ghost predicate Partial()
      reads this, haplotypeToPartitionMap
    {
      Supported(pedigree) &&
      haplotypeToPartitionMap.Length == pedigree.size &&
      forall j :: 0 <= j < pedigree.size ==>
        (haplotypeToPartitionMap[j] == Unassigned && !IsFounder(pedigree, j)) ||
        haplotypeToPartitionMap[j] == Partition(pedigree, transmissionVector, j)
    }

    /** Collects, for every individual, the index of the (last) triple naming
        it as child, numbers the founders in index order, then resolves every
        individual through its ancestors. */
    constructor (pedigree: Pedigree, transmissionVector: TransmissionVector)
      requires Supported(pedigree)
      ensures this.pedigree == pedigree && this.transmissionVector == transmissionVector
      ensures partitionCount == (2 * (pedigree.size - |pedigree.triples|)) % UintModulus
      ensures fresh(haplotypeToPartitionMap)
      ensures Valid()
    {
      this.pedigree := pedigree;
      this.transmissionVector := transmissionVector;
      partitionCount := (2 * (pedigree.size - |pedigree.triples|)) % UintModulus;
      haplotypeToPartitionMap := new (int, int)[pedigree.size](_ => Unassigned);
      new;
      var tripleIndices := CollectTripleIndices(pedigree);
      NumberFounders(tripleIndices);

      var i := 0;
      while i < pedigree.size
        modifies haplotypeToPartitionMap
        invariant 0 <= i <= pedigree.size
        invariant Partial()
        invariant forall j :: 0 <= j < i ==>
          haplotypeToPartitionMap[j] == Partition(pedigree, transmissionVector, j)
      {
        ComputeRec(i, tripleIndices);
        i := i + 1;
      }
    }

    /** Gives the founders, in index order, the consecutive pairs (0, 1),
        (2, 3), ...; every other entry stays unassigned. */
    method NumberFounders(tripleIndices: array<int>)
      requires Supported(pedigree) && haplotypeToPartitionMap.Length == pedigree.size
      requires forall j :: 0 <= j < pedigree.size ==> haplotypeToPartitionMap[j] == Unassigned
      requires tripleIndices.Length == pedigree.size
      requires forall j :: 0 <= j < pedigree.size ==> tripleIndices[j] == TripleIndex(pedigree, j)
      modifies haplotypeToPartitionMap
      ensures Partial()
      ensures forall j :: 0 <= j < pedigree.size ==>
        haplotypeToPartitionMap[j] ==
          (if IsFounder(pedigree, j) then Partition(pedigree, transmissionVector, j) else Unassigned)
    {
      var p := 0;
      var i := 0;
      while i < pedigree.size
        invariant 0 <= i <= pedigree.size
        invariant p == 2 * |FoundersBelow(pedigree, i)|
        invariant forall j :: 0 <= j < i ==>
          haplotypeToPartitionMap[j] ==
            (if IsFounder(pedigree, j) then Partition(pedigree, transmissionVector, j) else Unassigned)
        invariant forall j :: i <= j < pedigree.size ==> haplotypeToPartitionMap[j] == Unassigned
      {
        FounderHasNoTriple(pedigree, i);
        if tripleIndices[i] == -1 {
          haplotypeToPartitionMap[i] := (p, p + 1);
          p := p + 2;
        }
        i := i + 1;
      }
    }

    /** Resolves individual i: an entry already filled is left as it is;
        otherwise i is a child, both its parents are resolved first, and i
        takes one id from each as its triple's transmission bits select. */
    method ComputeRec(i: nat, tripleIndices: array<int>)
      requires Partial() && i < pedigree.size
      requires tripleIndices.Length == pedigree.size
      requires forall j :: 0 <= j < pedigree.size ==> tripleIndices[j] == TripleIndex(pedigree, j)
      modifies haplotypeToPartitionMap
      decreases SomeRank(pedigree)[i]
      ensures Partial()
      ensures haplotypeToPartitionMap[i] == Partition(pedigree, transmissionVector, i)
      ensures forall j :: 0 <= j < pedigree.size && old(haplotypeToPartitionMap[j]) != Unassigned ==>
        haplotypeToPartitionMap[j] == old(haplotypeToPartitionMap[j])
      ensures old(haplotypeToPartitionMap[i]) != Unassigned ==>
        haplotypeToPartitionMap[..] == old(haplotypeToPartitionMap[..])
    {
      if haplotypeToPartitionMap[i].0 != -1 {
        return;
      }
      var tripleIndex := tripleIndices[i];
      FounderHasNoTriple(pedigree, i);
      assert tripleIndex >= 0;
      var parent0 := pedigree.triples[tripleIndex].parent0;
      var parent1 := pedigree.triples[tripleIndex].parent1;
      assert SomeRank(pedigree)[parent0] < SomeRank(pedigree)[i];
      assert SomeRank(pedigree)[parent1] < SomeRank(pedigree)[i];
      ComputeRec(parent0, tripleIndices);
      ComputeRec(parent1, tripleIndices);
      var first := if Bit(transmissionVector, 2 * tripleIndex)
        then haplotypeToPartitionMap[parent0].0 else haplotypeToPartitionMap[parent0].1;
      var second := if Bit(transmissionVector, 2 * tripleIndex + 1)
        then haplotypeToPartitionMap[parent1].0 else haplotypeToPartitionMap[parent1].1;
      haplotypeToPartitionMap[i] := (first, second);
    }

    /** The number of partitions: two per founder, equal to
        2 * (size - triple_count) when every individual is the child of at
        most one triple; every stored id lies below it. */
    method Count() returns (c: nat)
      requires Valid()
      ensures c == partitionCount
      ensures DistinctChildren(pedigree.triples) && 2 * pedigree.size < UintModulus ==>
        c == PartitionCount(pedigree) &&
        forall j :: 0 <= j < pedigree.size ==>
          0 <= haplotypeToPartitionMap[j].0 < c && 0 <= haplotypeToPartitionMap[j].1 < c
    {
      if DistinctChildren(pedigree.triples) {
        FounderCount(pedigree);
      }
      c := partitionCount;
    }

    /** The partition id of haplotype 0 or 1 of an individual. */
    method HaplotypeToPartition(individualIndex: nat, haplotype: nat) returns (r: nat)
      requires Valid()
      requires individualIndex < pedigree.size
      requires haplotype == 0 || haplotype == 1
      ensures r == if haplotype == 0
        then Partition(pedigree, transmissionVector, individualIndex).0
        else Partition(pedigree, transmissionVector, individualIndex).1
      ensures r < PartitionCount(pedigree)
    {
      if haplotype == 0 {
        r := haplotypeToPartitionMap[individualIndex].0;
      } else {
        assert haplotype == 1;
        r := haplotypeToPartitionMap[individualIndex].1;
      }
    }
  }
}
