# Ring count and molecular distance edge descriptors, in Dafny

This project models two descriptor families of the mordred molecular descriptor
calculator and proves what they promise.

- **RingCount** (`RingCounting`, `ring_count.dfy`) counts the rings of a ring
  list that pass three filters:
  - a size filter: any size, exactly `order` atoms, or `order` atoms or more with `greater`;
  - an aromaticity filter: all atoms aromatic, or not all aromatic;
  - a heteroatom filter: some atom is not a carbon, or every atom is a carbon.

  It also enumerates the standard battery of 138 instances (`preset`) and builds
  the short-code display name `n{codes}Ring` (`__str__`). The three filters and
  the count are predicates and recursive functions. `preset` and `__str__` are
  imperative, so they become methods proved against specification functions.
- **FusedRings** (`FusedRings`, `fused_rings.dfy`) groups rings into fused ring
  systems:
  - two rings are linked when they share at least two atoms;
  - the link graph is built by a nested loop over ring pairs (`LinkGraph`);
  - its connected components are found by breadth-first search, as networkx
    does (`Component`, `ConnectedComponents`);
  - each component becomes the union of its rings' atoms (`Calculate`).

  Components are specified through walks in the link graph (`Reach`).
- **MolecularDistanceEdge** (`DistanceEdge`, `molecular_distance_edge.dfy`) covers:
  - a constructor that stores the valence pair as (min, max) and resolves the
    element;
  - the 19-instance preset;
  - the display name `MDE{symbol}-{v1}{v2}`;
  - the selection of the distances `D[i][j]` of the atom pairs i < j whose
    valences are the descriptor's pair in either orientation and whose atoms
    are both of the descriptor's element.

  No qualifying pair gives the missing value (`None`, NaN in the source).
  `IsIndex` states the final formula n / (∏ Dv)^(1/n) over the reals. For a single pair
  at distance d it gives 1/d (`SinglePairIndex`), which is what lines 83-85
  compute: line 83 takes dx = (∏ Dv)^(1/(2n)) and line 85 returns n / dx², which
is n / (∏ Dv)^(1/n).

`Common` (`common.dfy`) holds what both families share:
- the molecule, a sequence of atoms with an atomic number and an aromatic flag;
- rings, as sets of atom indices;
- `Option`;
- Python's `str()` of an integer, with its inverse.

A RingCount instance is the datatype `RingCount`, whose constructor stores the
five arguments unchanged, as `__init__` (`_ring_count.py:113-118`) does. An
omitted argument takes `__init__`'s default: `order` None, `greater` False,
`fused` False, `aromatic` None, `hetero` None, so `RingCount()` counts every
ring. `DistanceEdge.New` likewise defaults to valences 1 and 1 and element "C".

## Model

| member | source | states |
|---|---|---|
| RingCounting.Calculate | mordred/_ring_count.py:156-160 | the count of rings passing the three filters is a whole number no larger than the number of rings |
| RingCounting.CalculateCountsAccepted | mordred/_ring_count.py:156-160 | the count equals the number of positions whose ring passes `_check_order`, `_check_arom` and `_check_hetero`: each passing ring counts once, no other ring counts |
| RingCounting.UnfilteredCountsAll | mordred/_ring_count.py:125-160 | with order, aromatic and hetero all None every ring is counted |
| RingCounting.DefaultCountsAll | mordred/_ring_count.py:113-118 | `RingCount()` with every argument at its default counts every ring |
| RingCounting.GreaterSplitsCount | mordred/_ring_count.py:125-132 | rings of n or more atoms are those of exactly n plus those of n+1 or more (the `greater` and exact branches of the size check) |
| RingCounting.AromaticSplitsCount | mordred/_ring_count.py:134-143 | count(aromatic=True) + count(aromatic=False) == count(aromatic=None): False counts exactly the rings with some non-aromatic atom |
| RingCounting.HeteroSplitsCount | mordred/_ring_count.py:145-154 | count(hetero=True) + count(hetero=False) == count(hetero=None): False counts exactly the all-carbon rings |
| RingCounting.BenzeneHasOneAromaticSixRing | mordred/_ring_count.py:125-160 | a six-membered all-aromatic carbon ring is counted once by order 6, aromatic True |
| RingCounting.EmitBlock | mordred/_ring_count.py:75-79 | the inner loop yields the any-size instance, one exact-size instance for each size from 3 (4 when fused) to 12, then the 12-or-more instance |
| RingCounting.EmitHeteroLoop | mordred/_ring_count.py:74-79 | the hetero loop yields the blocks for hetero None then True |
| RingCounting.EmitAromaticLoop | mordred/_ring_count.py:73-79 | the aromatic loop yields the blocks for aromatic None, True, False |
| RingCounting.Preset | mordred/_ring_count.py:71-79 | `preset` yields exactly the battery `PresetInstances()`, fused False before True |
| RingCounting.PresetHas138 | mordred/_ring_count.py:71-79 | the battery has 138 instances |
| RingCounting.PresetAllShaped | mordred/_ring_count.py:71-79 | no instance has hetero False, `greater` only comes with order 12, and every order lies between 3 (4 if fused) and 12 |
| RingCounting.PresetRankIsIndex | mordred/_ring_count.py:71-79 | an instance's position in the battery is determined by its parameters (loop order fused, aromatic, hetero, then size) |
| RingCounting.PresetDistinct | mordred/_ring_count.py:71-79 | no two instances of the battery are equal |
| RingCounting.Name | mordred/_ring_count.py:81-103 | the name built by appending codes is `NameOf`: "n", then G, the order, F, a/A, H/C, then "Ring" |
| RingCounting.CodeListJoins | mordred/_ring_count.py:81-103 | joining the appended code list gives the code string in the fixed order G, order, F, a/A, H/C |
| RingCounting.NameRoundTrip | mordred/_ring_count.py:81-103 | parsing a display name gives back every parameter of the instance |
| RingCounting.NameInjective | mordred/_ring_count.py:81-103 | two instances with the same display name are equal |
| Common.NatToString | mordred/_ring_count.py:88 | `str()` of a natural number is a non-empty string of digits, one digit exactly below 10, with no leading zero except for 0 itself |
| Common.NatToStringRoundTrip | mordred/_ring_count.py:88 | reading the digits of `str(n)` gives n back |
| FusedRings.LinkEdges | mordred/_ring_count.py:34-37 | the link graph's edges are exactly the pairs i < j < len(Rings) whose rings share at least two atoms |
| FusedRings.LinkGraph | mordred/_ring_count.py:32-37 | the nested loop over pairs adds exactly the edges of `LinkEdges` |
| FusedRings.Component | mordred/_ring_count.py:39-42 | the breadth-first search from x collects exactly the nodes reachable from x |
| FusedRings.ConnectedComponents | mordred/_ring_count.py:39-42 | the groups are non-empty, pairwise disjoint, cover every node, and each is closed under reachability |
| FusedRings.RingUnion | mordred/_ring_count.py:39-42 | an atom is in a fused system iff it is in one of the system's rings |
| FusedRings.Calculate | mordred/_ring_count.py:28-42 | fewer than two rings give []; otherwise one fused system per connected component of the link graph, the union of its rings |
| FusedRings.FewRingsNoGroups | mordred/_ring_count.py:29-30 | with fewer than two rings there is no component at all |
| FusedRings.LinkedRingsGrouped | mordred/_ring_count.py:34-42 | two rings sharing at least two atoms lie in the same system |
| FusedRings.UnlinkedRingExcluded | mordred/_ring_count.py:34-42 | a ring sharing fewer than two atoms with every other ring lies in no system |
| FusedRings.GroupHasTwoRings | mordred/_ring_count.py:34-42 | every system is made of at least two rings |
| FusedRings.GroupIsConnected | mordred/_ring_count.py:34-42 | any two rings of a system are joined by a chain of fused rings |
| FusedRings.GroupsUnique | mordred/_ring_count.py:39-42 | any two component lists of the same graph hold the same groups, so only the order is left open |
| FusedRings.FusedSystemsInMolecule | mordred/_ring_count.py:39-42 | every fused system names atoms of the molecule and contains every ring of its group |
| DistanceEdge.Normalised | mordred/_molecular_distance_edge.py:52-53 | the stored pair is ordered and is the given pair as a multiset |
| DistanceEdge.New | mordred/_molecular_distance_edge.py:51-59 | construction succeeds iff the element is an int or a known symbol; an int is stored unchanged, a symbol as its atomic number, anything else raises ValueError; the valences are stored as (min, max) |
| DistanceEdge.NewDefault | mordred/_molecular_distance_edge.py:51-56 | with every argument at its default the descriptor is carbon (6) with valences (1, 1) |
| DistanceEdge.NewSymmetric | mordred/_molecular_distance_edge.py:51-53 | (a, b, e) and (b, a, e) build the same descriptor |
| DistanceEdge.ReduceRoundTrip | mordred/_molecular_distance_edge.py:48-53 | rebuilding from (`_valence1`, `_valence2`, `_atomic_num`) gives the same descriptor |
| DistanceEdge.PresetMembers | mordred/_molecular_distance_edge.py:31-37 | the preset holds exactly the descriptors with element 6, 8 or 7 and 1 <= a <= b <= 10 - e |
| DistanceEdge.PresetLength | mordred/_molecular_distance_edge.py:31-37 | 19 instances: 10 for carbon, 3 for oxygen, 6 for nitrogen |
| DistanceEdge.PresetSorted | mordred/_molecular_distance_edge.py:31-37 | the preset is ordered by element (6, 8, 7), then a, then b, and holds no instance twice |
| DistanceEdge.NameInjective | mordred/_molecular_distance_edge.py:39-44 | with single-digit valences and distinct symbols, equal names mean equal descriptors |
| DistanceEdge.NameAmbiguousBeyondOneDigit | mordred/_molecular_distance_edge.py:39-44 | the valences are written without a separator, so (1, 111) and (11, 11) share a name |
| DistanceEdge.PairsMembers | mordred/_molecular_distance_edge.py:69-78 | a pair is selected iff i < j < N, the valences match in either orientation and both atoms have the target atomic number |
| DistanceEdge.PairsSortedOnce | mordred/_molecular_distance_edge.py:69-72 | pairs come by i then j, each at most once |
| DistanceEdge.PairsLength | mordred/_molecular_distance_edge.py:69-72 | at most N(N-1)/2 pairs are selected |
| DistanceEdge.CalculateSelects | mordred/_molecular_distance_edge.py:67-81 | the distances returned are D[i][j] of exactly the qualifying pairs, in comprehension order, at most N(N-1)/2 of them, and the result is missing iff there are none |
| DistanceEdge.MissingIffNoPair | mordred/_molecular_distance_edge.py:69-81 | the result is NaN iff no pair of atoms qualifies |
| DistanceEdge.QualifiesBySets | mordred/_molecular_distance_edge.py:73-77 | for a stored (min, max) pair the either-orientation test is the set comparison {V[i], V[j]} == {valence1, valence2} |
| DistanceEdge.SinglePairIndex | mordred/_molecular_distance_edge.py:79-85 | over the reals, one qualifying pair at distance d gives the index 1/d |

## Left out

- `Rings.calculate` (`_ring_count.py:18-19`): the ring perception is done by RDKit's `GetSymmSSSR`, which is not part of this model. Ring lists are inputs.
- `dependencies` in both files: the descriptor framework injects the ring list, the distance matrix and the valences. Here they are parameters.
- The `__reduce_ex__` methods of the ring descriptors: pickling. A RingCount instance is its parameter tuple already.
- FusedRings.ConnectedComponents: returns the components in an order of its own choosing, not necessarily networkx's. `GroupsUnique` proves only the order can differ.
- FusedRings.Calculate: the component list behind the result is a ghost out-parameter. The result holds one fused system per component, in that order.
- DistanceEdge.Calculate: returns the selected distances, not the floating-point index computed from them. `IsIndex` states that index over the reals, so floating-point rounding and overflow of the product are not modelled.
- DistanceEdge.New: the periodic-table lookup from symbol to atomic number is a parameter, with `None` for an unknown symbol. What RDKit does with an unknown symbol is not part of this model.
- DistanceEdge.Name: the atomic-number-to-symbol lookup is a parameter.
- A Python `bool` element is an `int` to `isinstance`; the model's caller passes it as `AtomicNumber(0)` or `AtomicNumber(1)`.
- Distances are natural numbers. An infinite distance between atoms of disconnected fragments is not modelled.
- The `explicit_hydrogens` class attributes configure the framework's inputs and are not modelled.
- RingCounting.Preset: the generator's three nested loops are one method per loop level (`Preset`, `EmitAromaticLoop`, `EmitHeteroLoop`, `EmitBlock`). The lazy `yield` is a returned sequence.
- Python accepts arguments of any type. The model types them: `order` is an optional integer, the flags are booleans or optional booleans, and valences are integers.
