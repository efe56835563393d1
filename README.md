# Collective reduce, modelled from its test suite

This project models the collective reduce of the COOLFluiD `Comm::PE`
parallel environment: `Comm::PE::instance().reduce(op, send, count, [sndmap],
recv, [rcvmap], root, [stride])`. It follows the contract that the reduce test
suite `test/Common/utest-parallel-collective-reduce.hpp` pins down.

Every rank contributes `count` logical units of `stride` raw elements. Unit
`i` is read from send block `sndmap[i]`, or block `i` when there is no send
map. Element by element, the units are folded across ranks with the operator.
The root folds its own unit first, then the others in rank order. The result
is written to receive block `rcvmap[i]`, or block `i`, and only in the root's
receive storage. All ranks are simulated together: `sends[r]` is rank `r`'s
send argument, and `rcv[r]` is its receive storage.

Modules:

- `Wrappers` (wrappers.dfy): `Option` and `Result`.
- `Operators` (operators.dfy): `MPI::plus`, `multiplies`, `max` and `min` on
  integers, each proved associative and commutative.
- `Folds` (folds.dfy): the fold of a non-empty sequence. It proves that the
  root-first order, and any permutation, give the same result as rank order.
- `Layout` (layout.dfy): the mapped buffer layout, covering blocks, send and
  receive maps, the extent of the result, and how the reduced units are
  written into a buffer. It includes a `WriteUnits` method that does this in
  place on an array.
- `Reduce` (reduce.dfy): the reduced values and the root's buffer after the
  call. It has the container form (`ReduceContainers`) and the pointer form
  (`ReducePointers`, a method over one array per rank, where null means no buffer).
- `OpTests` (optest.dfy): the test's user-defined type `optest`, with `init`,
  `operator+` and `test`.
- `Fixture` (fixture.dfy): the fixture class `PEReduceFixture` of one rank. It
  covers its constructor, `setup_data_constant`, `setup_data_variable` and the
  buffer re-fill loops of the in-place test cases, as imperative code over
  arrays. The specification functions give the data they build.
- `Scenarios` (scenarios.dfy): each test case stated as lemmas about the
  model, for every choice of root. Each lemma states what the case checks,
  computed from the fixture's data.

Two points of the interface admit another reading. In both, the model takes
the reading the test code needs:

- A receive map is indexed by the local unit: reduced unit `i` goes to block
  `rcvmap[i]`. The other reading, that virtual slot j is written to
  position rcvmap[j], does not fit the test. The test builds `rcvmap` with `nproc` entries and
  `sndmap[i] = 2i`. It then checks unit `i` at `2(nproc-1-i)`, which only the
  local-unit reading gives.
- A result the engine sizes itself (a null receive pointer, or an empty or
  short container) has `stride * (1 + largest rcvmap entry)` elements. Sizing it by the number
  of distinct mapped slots does not fit the test. After an empty
  container is resized, the variable test reads `vec_tmprcv[2*(nproc-1)]`,
  and that needs at least `2*nproc - 1` elements, while there are only
  `nproc` distinct slots.

## Model

| member | source | states |
|---|---|---|
| Fixture.PEReduceFixture.constructor | test/Common/utest-parallel-collective-reduce.hpp:15-41 | the fixture of rank irank in a group of nproc: sndcnt 0, data arrays of 2*nproc and 4*nproc elements, map arrays of nproc, receive scratch arrays freshly allocated, all vectors sized and zero-filled; no two of the eight arrays are the same array (Valid and ScratchSeparate) |
| Fixture.SlotSum | test/Common/utest-parallel-collective-reduce.hpp:90 | the expected value of slot i: the sum over ranks k < n of (k+1)*10000+(i+1) |
| Fixture.SndConstant | test/Common/utest-parallel-collective-reduce.hpp:88 | the constant send data of a rank: 2*nproc slots, slot i holding (rank+1)*10000+(i+1) |
| Fixture.RcvConstant | test/Common/utest-parallel-collective-reduce.hpp:89-90 | the constant expected data: 2*nproc slots, slot i holding SlotSum(nproc, i) |
| Fixture.SndMapVariable | test/Common/utest-parallel-collective-reduce.hpp:112 | the variable send map: unit i is read from block 2i |
| Fixture.RcvMapVariable | test/Common/utest-parallel-collective-reduce.hpp:113 | the variable receive map: unit i is written to block 2(nproc-1-i), inverting the order |
| Fixture.SndVariable | test/Common/utest-parallel-collective-reduce.hpp:105-111 | the variable send data of a rank: 2*nproc slots, slot 2i holding (rank+1)*10000+(i+1) and every odd slot -1 |
| Fixture.RcvVariable | test/Common/utest-parallel-collective-reduce.hpp:107-114 | the variable expected data: 2*nproc slots, slot 2(nproc-1-i) holding SlotSum(nproc, i) and every odd slot 0 |
| Fixture.PEReduceFixture.FillConstant | test/Common/utest-parallel-collective-reduce.hpp:86-91 | after the first loop, slot i of the send data is (irank+1)*10000+(i+1) and slot i of the expected data is the sum of that value over all ranks |
| Fixture.PEReduceFixture.AccumulateSlot | test/Common/utest-parallel-collective-reduce.hpp:90 | the inner loop adds the sum over ranks k of (k+1)*10000+(i+1) to one slot of the expected data and changes no other slot |
| Fixture.PEReduceFixture.WidenData | test/Common/utest-parallel-collective-reduce.hpp:92-93 | the stride-2 arrays hold every element x of the stride-1 data as the pair x, x+1 (send) and x, x+nproc (expected) |
| Fixture.Widen | test/Common/utest-parallel-collective-reduce.hpp:92-93 | the stride-2 copy of s: each element x becomes the pair x, x+d, so the copy is twice as long |
| Fixture.WidenAt | test/Common/utest-parallel-collective-reduce.hpp:92-93 | in the stride-2 copy of s, element 2i equals s[i] and element 2i+1 equals s[i]+d |
| Fixture.SameWiden | test/Common/utest-parallel-collective-reduce.hpp:92-93 | any sequence that agrees with those pairs is the stride-2 copy |
| Fixture.PEReduceFixture.SetupDataConstant | test/Common/utest-parallel-collective-reduce.hpp:83-99 | setup_data_constant: send data, expected data and their stride-2 copies equal the constant-data functions, sndcnt is 2*nproc, every vector copies its array, the receive scratch buffers and maps are unchanged |
| Fixture.PEReduceFixture.ClearData | test/Common/utest-parallel-collective-reduce.hpp:105-108 | every send slot becomes -1 and every expected slot 0 |
| Fixture.PEReduceFixture.FillVariable | test/Common/utest-parallel-collective-reduce.hpp:105-115 | both loops leave send data, expected data and both maps equal to the variable-data functions |
| Fixture.SpreadAt | test/Common/utest-parallel-collective-reduce.hpp:105-115 | the data spread over the even slots has value i at slot 2i and the fill value at slot 2i+1 |
| Fixture.SndVariableAt | test/Common/utest-parallel-collective-reduce.hpp:105-111 | rank r's variable send data has (r+1)*10000+(i+1) at slot 2i and -1 at slot 2i+1 |
| Fixture.RcvVariableAt | test/Common/utest-parallel-collective-reduce.hpp:107-114 | the variable expected data holds the sum for unit nproc-1-j at slot 2j and 0 at slot 2j+1 |
| Fixture.RcvVariableUnit | test/Common/utest-parallel-collective-reduce.hpp:113-114 | the expected sum of unit i sits at slot 2(nproc-1-i), the inverted order the receive map asks for |
| Fixture.VariableFilled | test/Common/utest-parallel-collective-reduce.hpp:109-115 | a state that slot by slot matches what the second loop writes is exactly the variable data and its maps |
| Fixture.PEReduceFixture.SetupDataVariable | test/Common/utest-parallel-collective-reduce.hpp:102-125 | setup_data_variable: send data, expected data, both maps and the stride-2 copies equal the variable-data functions, sndcnt is nproc, every vector copies its array |
| Fixture.PEReduceFixture.RefillTmpRcv | test/Common/utest-parallel-collective-reduce.hpp:259 | before each in-place call the receive scratch array becomes a copy of the send data |
| Fixture.PEReduceFixture.RefillTmpRcv2 | test/Common/utest-parallel-collective-reduce.hpp:285 | the same for the stride-2 arrays |
| OpTests.Init | test/Common/utest-parallel-collective-reduce.hpp:134-137 | optest::init on rank r: ival is r+1 and dval is r+10 |
| OpTests.Add | test/Common/utest-parallel-collective-reduce.hpp:139 | optest::operator+: the member-wise sum of ival and of dval |
| OpTests.AddIsLawful | test/Common/utest-parallel-collective-reduce.hpp:139 | optest::operator+ is associative and commutative, so reduce may fold optest values in any order |
| OpTests.RankSum | test/Common/utest-parallel-collective-reduce.hpp:145-148 | the sum over i < n of i + offset, as the accumulation loops of optest::test compute it |
| OpTests.RankSumClosedForm | test/Common/utest-parallel-collective-reduce.hpp:145-148 | the sum over i < n of i + offset is n(n-1)/2 + offset*n |
| OpTests.RankSumTotals | test/Common/utest-parallel-collective-reduce.hpp:145-148 | the two totals optest::test accumulates are nproc(nproc+1)/2 and nproc(nproc-1)/2 + 10*nproc |
| OpTests.Test | test/Common/utest-parallel-collective-reduce.hpp:141-150 | optest::test is true exactly when ival = nproc(nproc+1)/2 and dval = nproc(nproc-1)/2 + 10*nproc |
| Operators.PlusIsLawful | test/Common/utest-parallel-collective-reduce.hpp:182 | MPI::plus is associative and commutative |
| Operators.MultipliesIsLawful | test/Common/utest-parallel-collective-reduce.hpp:193 | MPI::multiplies is associative and commutative |
| Operators.MaxIsLawful | test/Common/utest-parallel-collective-reduce.hpp:203 | MPI::max is associative and commutative |
| Operators.MinIsLawful | test/Common/utest-parallel-collective-reduce.hpp:213 | MPI::min is associative and commutative |
| Operators.Plus | test/Common/utest-parallel-collective-reduce.hpp:182 | MPI::plus on the test's values: the sum a + b (unbounded, see "Left out") |
| Operators.Multiplies | test/Common/utest-parallel-collective-reduce.hpp:193 | MPI::multiplies: the product a * b (unbounded, see "Left out") |
| Operators.Max | test/Common/utest-parallel-collective-reduce.hpp:203 | MPI::max: the result is at least each argument and is one of them |
| Operators.Min | test/Common/utest-parallel-collective-reduce.hpp:213 | MPI::min: the result is at most each argument and is one of them |
| Folds.FoldPermutation | test/Common/utest-parallel-collective-reduce.hpp:182 | for a lawful operator, folding any permutation of the ranks' contributions gives the same value |
| Folds.RootFoldIsFold | test/Common/utest-parallel-collective-reduce.hpp:182 | the root-first fold order gives the same value as rank order |
| Folds.Fold | test/Common/utest-parallel-collective-reduce.hpp:182 | combining the ranks' contributions with the reduction operator, left to right in sequence order |
| Folds.RootOrder | test/Common/utest-parallel-collective-reduce.hpp:182 | the order the root combines in: its own contribution first, then the other ranks in rank order; the same length and the same multiset of contributions as rank order |
| Reduce.ReducedRootIndependent | test/Common/utest-parallel-collective-reduce.hpp:182-183 | for a lawful operator the reduced values are the same whichever rank is root, as the loop over all roots expects |
| Reduce.LawfulReducedAt | test/Common/utest-parallel-collective-reduce.hpp:182-183 | element k of reduced unit i is the fold of every rank's element k of its unit i |
| Reduce.DeliveredReduction | test/Common/utest-parallel-collective-reduce.hpp:367-368 | in the root's buffer, each destination block holds the fold of its unit, and every position outside all destination blocks keeps its old value |
| Reduce.DenseResult | test/Common/utest-parallel-collective-reduce.hpp:255-256 | without a receive map, a buffer of exactly count*stride elements ends up equal to the reduced values |
| Reduce.ContainerCount | test/Common/utest-parallel-collective-reduce.hpp:323-327 | the number of units of a container call: the send map's length when there is one (line 423), otherwise the container's size over the stride, so 4*nproc elements at stride 2 are 2*nproc units |
| Reduce.Grown | test/Common/utest-parallel-collective-reduce.hpp:303-307 | the root container resized to the extent when it is shorter, an empty one included, with the new elements value-initialised; a long enough container keeps its size |
| Reduce.ReduceContainers | test/Common/utest-parallel-collective-reduce.hpp:303-320 | container form: non-root containers are unchanged (also when they alias the send data); the root's container is resized to the extent when shorter, and then afterwards each destination block holds its fold and every other position its old value, or the blank value where the resize added it |
| Reduce.FillRoot | test/Common/utest-parallel-collective-reduce.hpp:243-256 | the root's side of the pointer form: for null, a fresh array of exactly the extent holding the folds; a supplied array that is too short is rejected and unchanged; otherwise the supplied array is overwritten in place |
| Reduce.Reduced | test/Common/utest-parallel-collective-reduce.hpp:182-183 | the reduce itself: a buffer of count*stride elements whose raw element j folds element j of every rank's packed units, the root's first and then the others in rank order |
| Reduce.Contributions | test/Common/utest-parallel-collective-reduce.hpp:182-183 | what the ranks contribute to element k of unit i, one value per rank in rank order: rank r's element k of the send block its map gives for unit i |
| Reduce.RootResult | test/Common/utest-parallel-collective-reduce.hpp:255-256 | the root's receive buffer after the call: the buffer it supplied, of the same length, with the reduced units written into their destination blocks |
| Reduce.ReducePointers | test/Common/utest-parallel-collective-reduce.hpp:243-267 | pointer form: a null send buffer is a usage error; each non-root gets back the pointer it passed (null stays null) with contents unchanged, in place too; the root gets its own array, filled, or a fresh array of the extent |
| Layout.Pack | test/Common/utest-parallel-collective-reduce.hpp:356-367 | what a rank contributes: count*stride elements, unit i copied from send block sndmap[i], or from block i without a send map |
| Layout.Deliver | test/Common/utest-parallel-collective-reduce.hpp:367-368 | the buffer after reduced unit i is written to destination block dst[i], for each unit in turn; its length is unchanged |
| Layout.WriteUnits | test/Common/utest-parallel-collective-reduce.hpp:255-256 | writing the reduced units into the root's array in place leaves it equal to the delivered buffer |
| Layout.PackAt | test/Common/utest-parallel-collective-reduce.hpp:356-367 | element k of unit i of a rank's packed contribution is element k of its send block sndmap[i], or of block i without a send map |
| Layout.DeliverIdentity | test/Common/utest-parallel-collective-reduce.hpp:255-256 | with destinations 0 .. count-1 the reduced values replace the first count*stride elements of the buffer and the rest is unchanged |
| Layout.DeliverAt | test/Common/utest-parallel-collective-reduce.hpp:367-368 | with distinct destinations, element k of destination block i holds element k of reduced unit i |
| Layout.DeliverOutside | test/Common/utest-parallel-collective-reduce.hpp:367-368 | a position outside every destination block keeps its value |
| Layout.Extent | test/Common/utest-parallel-collective-reduce.hpp:352-362 | the engine-sized result is the smallest buffer that holds every destination block |
| Layout.Unit | test/Common/utest-parallel-collective-reduce.hpp:112-113 | the block a map gives for unit i (sndmap[i] read from, rcvmap[i] written to), or block i itself without a map |
| Layout.Dest | test/Common/utest-parallel-collective-reduce.hpp:367 | the destination blocks of a call: the receive map when one is passed, otherwise blocks 0 .. count-1 in order |
| Scenarios.ExpectedSumAndProduct | test/Common/utest-parallel-collective-reduce.hpp:177-190 | the test's accumulation loops give 1+...+nproc = nproc(nproc+1)/2 and nproc! |
| Scenarios.FoldPlusRamp | test/Common/utest-parallel-collective-reduce.hpp:177-179 | plus over the ranks' rank+1 gives the sum the test accumulates |
| Scenarios.Factorial | test/Common/utest-parallel-collective-reduce.hpp:188-190 | the product 1 * 2 * ... * n that the itest *= i+1 loop computes |
| Scenarios.FoldMultipliesRamp | test/Common/utest-parallel-collective-reduce.hpp:188-190 | multiplies over rank+1 gives nproc! |
| Scenarios.FoldMaxRamp | test/Common/utest-parallel-collective-reduce.hpp:199-200 | max over rank+1 gives nproc |
| Scenarios.FoldMinRamp | test/Common/utest-parallel-collective-reduce.hpp:209-210 | min over rank+1 gives 1 |
| Scenarios.Ramp | test/Common/utest-parallel-collective-reduce.hpp:173 | the scalars of reduce_most_common_ops: rank r contributes r+1 |
| Scenarios.ScalarSends | test/Common/utest-parallel-collective-reduce.hpp:182 | each rank sends its one value r+1 without a send map (the `&ival, 1` argument) |
| Scenarios.MostCommonOps | test/Common/utest-parallel-collective-reduce.hpp:168-216 | reduce_most_common_ops, for every root: the one-element result is nproc(nproc+1)/2 for plus, nproc! for multiplies, nproc for max and 1 for min |
| Scenarios.FoldAddInit | test/Common/utest-parallel-collective-reduce.hpp:134-139 | summing every rank's init with operator+ gives (sum of rank+1, sum of rank+10) |
| Scenarios.ClassSends | test/Common/utest-parallel-collective-reduce.hpp:224-228 | each rank sends three optest values, each its own init(), without a send map |
| Scenarios.OperatorOfClass | test/Common/utest-parallel-collective-reduce.hpp:221-232 | reduce_operator_of_class, for every root: each of the three results is the member-wise sum of all ranks' init, exactly the value optest::test accepts |
| Scenarios.FoldPlusSlot | test/Common/utest-parallel-collective-reduce.hpp:86-91 | summing slot i of every rank's send data gives the expected value the fixture computes |
| Scenarios.FoldPlusShifted | test/Common/utest-parallel-collective-reduce.hpp:92-93 | adding c to every rank's element adds c times the number of ranks to the sum; for c = 1 this is the x+nproc of the expected stride-2 data |
| Scenarios.FoldPlusWidened | test/Common/utest-parallel-collective-reduce.hpp:92-93 | the case the stride-2 data needs: element 0 of a pair (k = 0) sums to the plain sum, element 1 (k = 1) to the plain sum plus nproc |
| Scenarios.WidenSends | test/Common/utest-parallel-collective-reduce.hpp:92 | each rank's stride-2 send data: every element x of its data becomes the pair x, x+1 (lines 92 and 116), with the same send map |
| Scenarios.StrideTwoReduced | test/Common/utest-parallel-collective-reduce.hpp:272-278 | with the widened send data and stride 2, the reduced values are the widened stride-1 reduced values with offset nproc |
| Scenarios.ConstantSends | test/Common/utest-parallel-collective-reduce.hpp:246 | each rank's send argument after setup_data_constant: its constant data and no send map |
| Scenarios.ConstantReduced | test/Common/utest-parallel-collective-reduce.hpp:243-252 | constant data: the reduced values equal the fixture's expected data, and the engine-sized result has sndcnt elements |
| Scenarios.ConstantStrideTwo | test/Common/utest-parallel-collective-reduce.hpp:268-278 | constant data, stride 2: the reduced values equal the widened expected data, with 2*sndcnt elements |
| Scenarios.PointerConstant | test/Common/utest-parallel-collective-reduce.hpp:254-267 | reduce_ptr_constant with a supplied array of sndcnt elements (zeros or in place): the root's array ends up equal to the expected data |
| Scenarios.PointerConstantStrideTwo | test/Common/utest-parallel-collective-reduce.hpp:280-291 | the same for stride 2: the widened expected data |
| Scenarios.VectorConstant | test/Common/utest-parallel-collective-reduce.hpp:297-320 | reduce_vector_constant: a root container of at most sndcnt elements (empty, zero-filled or in place) becomes exactly the expected data, with sndcnt elements; other ranks' containers are unchanged |
| Scenarios.VectorConstantStrideTwo | test/Common/utest-parallel-collective-reduce.hpp:322-340 | the same for stride 2: the widened expected data, 2*sndcnt elements |
| Scenarios.VariableSends | test/Common/utest-parallel-collective-reduce.hpp:356 | each rank's send argument after setup_data_variable: its variable data and the send map 2i |
| Scenarios.VariableRcvMap | test/Common/utest-parallel-collective-reduce.hpp:356 | the receive map the variable test cases pass: unit i to block 2(nproc-1-i) |
| Scenarios.VariableExtent | test/Common/utest-parallel-collective-reduce.hpp:353-362 | the inverting receive map needs a result of stride*(2*nproc-1) elements |
| Scenarios.VariableUnitsNeeded | test/Common/utest-parallel-collective-reduce.hpp:113 | the largest unit index in the inverting receive map is 2*(nproc-1), so it needs 2*nproc-1 units |
| Scenarios.VariableFolds | test/Common/utest-parallel-collective-reduce.hpp:111-114 | unit i, read from send slot 2i, sums over the ranks to the expected value at slot 2(nproc-1-i) |
| Scenarios.VariableDelivered | test/Common/utest-parallel-collective-reduce.hpp:346-379 | reduce_ptr_variable, for a buffer of at least 2*nproc-1 elements: each even slot 2j holds the expected data, and odd slots and slots past the extent keep their old value |
| Scenarios.VariableStrideTwo | test/Common/utest-parallel-collective-reduce.hpp:381-411 | the stride-2 half: positions 4j and 4j+1 hold the widened expected data; positions 4j+2 and 4j+3, and those past the extent 4*nproc-2, keep their old value |
| Scenarios.VectorVariable | test/Common/utest-parallel-collective-reduce.hpp:415-440 | reduce_vector_variable: the root's container grows to 2*nproc-1 elements when shorter; the even slots 2j with j < nproc hold the expected data, and every other position keeps its old value, or 0 where the resize added it; other containers are unchanged |
| Scenarios.VectorVariableStrideTwo | test/Common/utest-parallel-collective-reduce.hpp:442-466 | the same for stride 2: the container grows to 4*nproc-2 elements, positions 4j and 4j+1 with j < nproc hold the widened expected data, and every other position keeps its old value, or 0 where the resize added it |

## Left out

- Transport: the messages between ranks, blocking, barriers and the
  tree-shaped combine are not modelled. The model computes on the root the
  fold that the messages would produce.
- Doubles: `double` values are modelled as `int`. Every value the test uses
  is an integer.
- `Operators.Multiplies`, `Operators.Plus`, `OpTests.Test`: do not model C++
  `int` overflow; the model's integers are unbounded. The test's `nproc!`
  (line 190) overflows a 32-bit `int` from 13 ranks on. The `int` sums
  overflow from 65536 ranks on, where nproc(nproc+1)/2 exceeds 2^31-1: the
  `itest` total of optest::test (line 146), which `OpTests.Test` and
  `OpTests.RankSum` model, and the `int` plus results of lines 182 and 228,
  which `Scenarios.MostCommonOps` and `Scenarios.OperatorOfClass` model.
- `PEReduceFixture` destructor: freeing the arrays is not modelled, because there is no memory release in the model.
- The `reduce` test case (line 161): it only writes a log line.
- Fixture.PEReduceFixture.constructor: `nproc` and `irank` come from `Comm::PE` in the source; here they are constructor parameters.
- Reduce.ReducePointers: when any rank passes a null send buffer, with or
  without a receive buffer, the whole call fails with UsageError and no
  receive buffer is touched. In the engine the check is local to each rank:
  only the offending rank fails, and the others may then block. The method
  also requires agreement on root, count and stride, and distinct memory
  across ranks, because disagreement is undefined behaviour in the engine.
- Send maps with different unit counts on different ranks (where the result
  would cover the union of their slots) are not modelled. Every rank sends the same
  number of units, as in every test case.
- An operator that is not associative and commutative: results are then
  undefined. The lemmas about results assume a lawful operator. `Reduced` itself is
  defined for any operator, in the root-first order.
- Reduce.FillRoot: the rejection of a supplied root array shorter than the
  extent, with SizeMismatch and the array unchanged, exists only in the
  model, where an array knows its length. Every pointer-form call of the test
  passes a receive pointer without a length: an `int*` or `double*` of one
  element (lines 182-215), an `optest*` (line 228), or an array (the four
  calls with array receive buffers are lines 255, 281, 367 and 396). So the
  engine cannot detect a short buffer, and a short one would be overrun.
  The test suite never makes such a call.
