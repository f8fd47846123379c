# Pedigree partitions

A Dafny model of `PedigreePartitions`, the part of the pedigree-aware phasing
engine that says, for one transmission vector, which "partition" each
haplotype of each individual belongs to.

A pedigree has `size` individuals and a list of triples
`(parent0, parent1, child)` given as individual indices. A transmission
vector is a 32-bit unsigned integer with two bits per triple. The object
assigns each individual a pair of partition ids, one for haplotype 0 and one
for haplotype 1:

- a founder (an individual that is the child of no triple) gets a fresh pair
  `(p, p+1)`, with founders numbered in index order from `p = 0`;
- the child of triple `t` takes parent0's first id when bit `2t` is set and
  its second id otherwise, and takes one of parent1's ids the same way using
  bit `2t+1`;
- parents are resolved before their children by a memoised recursion.

The project has three files:

- `pedigree.dfy` (module `Pedigrees`): the pedigree as the partitioning code
  sees it (`size()`, `triple_count()`, `get_triples()`). It also defines the
  triple lookup ("last triple naming the individual wins", as the index loop
  does), founders and their index-order list, and acyclicity as the existence
  of a ranking in which the parents of each individual's looked-up triple rank
  below it (triples the lookup overrides are not constrained).
- `partition_spec.dfy` (module `PartitionSpec`): the partition map as a pure
  recursive function `Partition(ped, tv, i)`, and the lemmas about it.
- `pedigree_partitions.dfy` (module `Partitions`): the class
  `PedigreePartitions`. It fills an array in place exactly as the C++
  constructor does: collect triple indices, number the founders, then resolve
  every individual through the memoised recursion. It is proved equal to
  `Partition` entry by entry.

`PedigreePartitions` computes the haplotype-to-partition map for one given
transmission vector. It does not enumerate the transmission vectors that are
consistent with Mendelian inheritance, and it does not look at genotypes.

## Model

| member | source | states |
|---|---|---|
| `Pedigrees.TripleIndexIn` | src/pedigreepartitions.cpp:10-14 | the looked-up index is the LAST triple whose child is the individual, or -1 when no triple names it |
| `Pedigrees.OverriddenTripleIgnored` | src/pedigreepartitions.cpp:12-13 | a pedigree naming individual 0 as child twice is accepted because only the last triple for 0 is used, although the overridden triple would close a cycle |
| `Pedigrees.FounderHasNoTriple` | src/pedigreepartitions.cpp:19 | the lookup yields -1 exactly for individuals that are the child of no triple (founders) |
| `Pedigrees.TripleIndexOfChild` | src/pedigreepartitions.cpp:11-14 | when children are distinct, looking up the child of triple t finds t itself |
| `Pedigrees.FoundersBelow` | src/pedigreepartitions.cpp:17-23 | lists the founders below n, strictly increasing, and contains every one of them |
| `Pedigrees.FounderPosition` | src/pedigreepartitions.cpp:17-23 | a founder j sits in the founder list at position "number of founders before j" |
| `Pedigrees.FounderCount` | src/pedigreepartitions.cpp:8 | with indices in range and each individual the child of at most one triple, there are size - triple_count founders (and triple_count <= size) |
| `PartitionSpec.Partition` | src/pedigreepartitions.cpp:17-41 | every individual's two partition ids lie in [0, 2 * number of founders) |
| `PartitionSpec.FounderLayout` | src/pedigreepartitions.cpp:17-23 | the k-th founder in index order is mapped to (2k, 2k+1) |
| `PartitionSpec.FoundersDisjoint` | src/pedigreepartitions.cpp:17-23 | two different founders share no partition id |
| `PartitionSpec.CountFormula` | src/pedigreepartitions.cpp:8 | with distinct children, the number of partitions is 2 * (size - triple_count) and every id lies below it |
| `PartitionSpec.ChildInherits` | src/pedigreepartitions.cpp:33-40 | for every triple t, the child's haplotype-0 id is parent0's first id if bit 2t is set and its second otherwise (haplotype 1: parent1, bit 2t+1); so each is one of that parent's ids |
| `PartitionSpec.HighBitsIgnored` | src/pedigreepartitions.cpp:37-39 | two transmission vectors that agree on bits below 2 * triple_count give the same partitions for every individual |
| `Partitions.CollectTripleIndices` | src/pedigreepartitions.cpp:10-14 | the filled array holds, for every individual, the triple lookup's result |
| `Partitions.PedigreePartitions.constructor` | src/pedigreepartitions.cpp:7-27 | the count is 2 * (size - triple_count) taken modulo 2^32, and afterwards every entry of the map equals `Partition` (so all are assigned and in range) |
| `Partitions.PedigreePartitions.NumberFounders` | src/pedigreepartitions.cpp:15-23 | afterwards founders hold their final pair and every other individual is still unassigned |
| `Partitions.PedigreePartitions.ComputeRec` | src/pedigreepartitions.cpp:29-41 | individual i ends up with its final pair; entries already assigned are never overwritten; on an assigned i nothing changes. The body also proves (by an assertion, not in the contract) that reaching the triple lookup implies a triple index >= 0 |
| `Partitions.PedigreePartitions.Count` | src/pedigreepartitions.cpp:43-45 | with distinct children and no 32-bit wrap-around, the count is two per founder and bounds every stored id |
| `Partitions.PedigreePartitions.HaplotypeToPartition` | src/pedigreepartitions.cpp:47-54 | haplotype 0 gives the first id and haplotype 1 the second, both below the number of partitions |

## Left out

- The `Pedigree` class itself (genotype storage, validation, how triples are built): `pedigree.h`/`pedigree.cpp` are not part of this model. Only `size()`, `triple_count()` and the triples' three indices are modelled, as the `Pedigree` datatype.
- Cyclic pedigrees: when following the looked-up triple of each individual (the last one naming it) from child to parents returns to the same individual, the C++ recursion does not terminate. The model requires the absence of such cycles (`Acyclic`) for every operation. Triples that a later triple overrides are not constrained.
- Shifts of the 32-bit transmission vector by 32 or more are undefined in C++. The model requires `2 * triple_count <= 32`.
- Partition ids are modelled as unbounded integers. The C++ `int` counter `p` overflows with 2^30 or more founders; this is not modelled.
- The type of the `partition_count` member is declared in a header that is not part of this model. It is taken as `unsigned int`, the return type of `count()`. The stored value is therefore `2 * (size - triple_count)` reduced modulo 2^32.
- `Partitions.PedigreePartitions.Count`: the "two partitions per founder" formula is stated only when every individual is the child of at most one triple and `2 * size < 2^32`. With a repeated child, the last triple wins the lookup, as in the code, and the unsigned formula then no longer counts the founders.
- `Partitions.PedigreePartitions.HaplotypeToPartition`: requires the haplotype to be 0 or 1, as the source's assertion demands. A build with assertions disabled would return the second id for any other value; that is not modelled.
- The object's reference to the pedigree, and its lifetime, are reduced to a constant field holding the pedigree value.
- The constructor's three phases are written as `CollectTripleIndices`, `NumberFounders` and the resolution loop. The first two are separate methods with the same loops as the C++ constructor.
