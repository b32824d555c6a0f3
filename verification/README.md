# Verified model of nldtool

nldtool is a guess-and-determine solver for differential characteristics of hash functions and ciphers. This
project models its four layers in Dafny and proves what each of them promises to the one above:

1. **Linear conditions.** An incremental elimination over GF(2) (`LinearMatrix`, `BitMatrix`, `LinearConditions`,
   `LinearStep`). Equations are substituted into a matrix of fixed size, rows are reached through a row order that a
   merge pass keeps sorted by pivot, and every change goes to a log that can be taken back.
2. **Constraint propagation.** Each step bit is a finite relation between its slots (`Bitslice`). Propagation is the
   exact projection of the relation, memoised under a key that sorts exchangeable slots, and a worklist
   (`Characteristic`) drives all step bits to their greatest common fixpoint.
3. **Backtracking search.** A stack (`SearchStack`) that keeps a full state only every few guesses and replays the
   guesses in between, and the search (`Search`) that splits conditions into two choices.
4. **Arithmetic slices.** Carry-chained one-bit slices of modular additions (`ADD<N>`, `SADD`) and their use in one
   round of SHA-2.

`Condition` (restriction and projection of conditions on two and three bits) and `Bitmask` (sets of bit positions)
complete the picture. The classes of the program are classes with the same fields and methods here, and what their
methods do is stated with functions on values about which the theorems are proved.

## How to read the project

| layer | files, bottom up |
|---|---|
| GF(2) | `Gf2`, `RowOrder`, `MergePass`, `Replay`, `BitMatrix`, `LinearSystem`, `Substitution`, `Change`, `LinearMatrix` |
| linear steps | `LinearFunction`, `PairReading`, `RowReading`, `LinearConditions`, `Counting`, `LinearStep` |
| propagation | `WordContainer`, `BitsliceFunction`, `BitsliceData`, `SymmetricKey`, `Index`, `Propagate`, `Caches`, `Bitslice` |
| fixpoints | `Crypto`, `Worklist`, `Choices`, `Priority`, `Characteristic`, `Completion` |
| search | `PlainStack`, `SearchStack`, `Coverage`, `Search`, `ForcedBit` |
| arithmetic | `Adders`, `Sha2`, `Functions`, `StepRelation` |
| words | `Condition`, `Bitmask` |

The main results, and the idea behind each:

- **Adding an equation** (`LinearMatrix.AddEquation`). The answer is true exactly when the matrix and the equation
  have a common solution; then the matrix is again sorted and reduced, the first column of the equation is empty, and
  among the solutions of the equation nothing has changed. The hard part is that pivots are looked up by binary search
  while the row that took the equation in is out of order. `LookupRight` shows why this is right: until a column has
  been looked up that row still contains it if it is a pivot of another row, so its pivot is at most that column and it
  stands on the correct side of the search.
- **Elimination** (`LinearMatrix.EpsilonGauss`) ends because a row is queued again only when its pivot has risen
  (`SlackDrops`, `ClearStep`). It keeps the solutions and fails only on an unsolvable system.
- **Undo** (`LinearMatrix.Undo`, `UndoAndRestore`). The log is an invariant: replaying it from the state at the last
  `FixChanges` gives the present matrix, row order included, also after an elimination that stopped at a contradiction.
  The list of rows to be read again is an invariant, too: rows not listed are as they were when last read.
- **Merge pass** (`BitMatrix.SortByPivot`, `ApplyPermutation`). Rows that are written are tracked back to the rows of
  the old list, which shows that no unread row is overwritten. Recorded permutations round trip (`PermuteBack`).
- **Reading conditions** (`ReadingExact`). In a reduced matrix single rows and sums of two adjacent rows say all there
  is to say about a bit pair. The proof chooses the free columns so that the two pivots take any value that those
  rows do not rule out (`Steer`).
- **Reading changed rows only** (`LinearConditions.PropagateConditions`, `IncrementalExact`). If everything about the
  rows that are not listed was read off before, which the list of the matrix guarantees after an exact reading
  (`ReadSince`), the new conditions are exact if and only if for every sum that the loop skips, what the skipped row
  leaves of the old condition implies the sum.
- **Probability of a linear step** (`ProbabilityExact`, `LinearStep.GetProbability`), by counting solutions of
  triangular systems: each equation with a column of its own halves them. It is exact for what the equations of the
  added conditions say, whatever conditions these are.
- **Propagation** (`Propagation.Loop`, `Bitslice.Compute`). The odometer visits each combination of allowed input pairs
  once, the result is the exact projection, and neither the symmetric key nor any state of the caches changes it.
- **Fixpoint** (`Characteristic.Update`). On success the conditions are the greatest common fixpoint below the start,
  which does not mention the order of the worklist. Erasing the entry that was just processed, although it has queued
  itself again, is right because projection is idempotent and the slots of a step bit are distinct (`PendingErased`).
  With the default arguments no step has a priority above the default limit, so that after `UpdateAll` every step bit is
  fixed and the solutions are those of all steps, without a limit (`AllActive`, `DefaultLimit`, `NoneRelatedExactly`).
- **Completing** (`Characteristic.Complete`). A pass commits to a choice whose alternative fails, or has examined every
  selected bit; no solution is lost. Whether the loop ends is decided by one property of the filter, see below.
- **Search stack** (`SearchStack.Run`). For every run of operations the states, phases and sizes handed out are those
  of a stack of full states. This rests on `GfpReplay`: propagating between two restrictions or only after both leads
  to the same state.
- **No lost solutions** (`Search.GuessBit`, `BackTrack`, `CompleteCheck`, `Explore`). Every solution of the root is in the
  current state or in an alternative on the stack, also after complete checks, whose forced bits are not on the stack; a
  stack without guesses after a refutation means that the root has no solution.
- **Additions** (`AddWords`, `SaddWords`, `RoundUpdate`). Chained slices hold for some carry word exactly when the
  output word is the sum modulo 2^n.
- **Steps on words** (`AddRelation`, `SaddRelation`). The same for the relations that are propagated: codes at all bits,
  chained through the carry slots, are related for some carry codes exactly when the output is the sum in both messages.
  `BitsRelation` ties the codes of one to three bits to the bits of both messages.

Seven properties of the program hold only under a condition. Each is proved together with its exact condition, and with an
input at which the program does not have it:

- **Adding a condition** refutes it only through its equations. `AddLinearConditions` answers true exactly when some
  solution meets what the equations say, which for the conditions 7, B, D and E is nothing; `NonlinearNotRefuted` gives
  for each of them a matrix none of whose solutions meets it.
- **Reading changed rows.** The loop skips the sum of a row with an odd pivot when the row before it named it as its
  partner. `IncrementalExact` is the equivalence, on the matrix, the list and the conditions before the call;
  `ExactUnlessShadowed` a guard on the list alone: no listed row of odd pivot comes directly after the listed next row of
  the matrix, of odd pivot too, while the row of its even pivot is not listed. `SumLost` is a run after which a condition
  is `?` although all solutions have equal bits.
- **Completing** tries a bit again for ever when the filter still selects what is left of it after both choices.
  `SeparatesExactly`: the filters under which no bit of any state without a contradiction is tried again are those that
  never select a part of both choices of a condition they select, and `SeparatesPropagated` that the same filters are
  those for propagated states alone. `Complete` ends for these in a bounded number of
  steps, and in no number of steps when the first selected bit repeats (`Stuck`, `RepeatsForever`). The filter of the
  search for `-` and `x` separates (`EqualOrDifferentSeparates`).
- **Guesses with a probability** of 0 or 1 give up their other choice. `KeepsAllExactly`: a guess loses no solution from
  any covered state if and only if the probability lies strictly between them; `ChoiceLost` loses one on a single bit.
- **The frequency of the search stack** makes no difference exactly for runs in which each guess is added with the state
  that it leads to (`LedExactly`). `FrequencyMatters` is a run in which it does: completing a characteristic forces a bit
  that is not on the stack, and the next guess is added with the completed state (`CompletionForces`).
- **Equations with a repeated column** are accepted by the program's assertion. `BitMatrix.XorRow` keeps the pivot right
  exactly if it was not larger than the first column or that column occurs an odd number of times; `RepeatedColumn` is
  the shortest equation for which it is not.
- **Slices of `ADD<N>`** add in bytes. `AddsUpTo128` shows that they give the sum for every word size exactly when N is
  at most 128 (with at most three bits for the carry, the conditions of the program limit N to 8).

## Conventions

- A word or a row of a matrix is the set of the positions of its one bits. `Condition` is the exception: it uses
  bit-vectors, because its masks and shifts are the point there.
- The right-hand side of an equation is a column (`RHS`) that every assignment sets. `Solves(m, rhs, x)` says that `x`
  makes all rows zero.
- A condition on a slot or on a bit pair is the set of the codes of its allowed values; code v of a pair of bits is the
  first bit plus twice the second.
- `Gfp(crypto, limit, start)` is the greatest common fixpoint of all step bits up to the priority `limit`.

## Model

| member | source | states |
|---|---|---|
| Gf2.ValueFlip | src/linear_matrix.cpp:83-116 | Flipping one variable changes the value of exactly the equations that contain it |
| RowOrders.XorIntoTwice | src/change.cpp:20-44 | Adding the same columns to a row twice restores data and pivot |
| Gf2.ToggledOdd | src/bit_matrix.h:62 | Flipping the columns of an equation one after the other flips exactly those that occur an odd number of times |
| RowOrders.StoredPivotRight | src/bit_matrix.h:58-70 | The pivot stored after an equation was added is the true one if and only if the old pivot was not larger than the first column or that column occurs an odd number of times |
| RowOrders.RepeatedColumn | src/bit_matrix.h:58-70 | A column given twice leaves an empty row empty, with that column stored as its pivot |
| RowOrders.GrownFromSorted | src/bit_matrix.cpp:48-88 | When only pivots of changed rows have grown since the list was sorted, unchanged rows are in order with respect to all later rows: the precondition of the merge pass |
| RowOrders.InverseUnique | src/bit_matrix.h:26-30 | The inverse row map is determined by the row list |
| RowOrders.PermuteParts | src/bit_matrix.cpp:90-130 | After moving rows the moved ones stand at the target places and all others follow in their old order |
| RowOrders.PermuteBack | src/bit_matrix.cpp:90-130 | Moving rows and moving them back is the identity, and the way back is again a move |
| RowOrders.PermuteKeeps | src/bit_matrix.cpp:90-130 | Moving rows adds none and leaves all rows different |
| RowOrders.SortRows | src/bit_matrix.cpp:59 | The rows taken out are sorted by pivot and permuted; rows with equal pivots may come in any order |
| RowOrders.SortedTail | src/bit_matrix.cpp:59-86 | If all rows from the k-th on have at least a given pivot, so have the sorted rows from the k-th on: no row moves up |
| MergePasses.PutRow | src/bit_matrix.cpp:60-86 | Writing a row at a place that was read already overwrites no unread row and keeps the inverse map right for all written rows |
| MergePasses.AllWritten | src/bit_matrix.cpp:60-86 | When everything is written, the list is a reordering of the old one and the inverse map its inverse |
| MergePasses.Pass.Start | src/bit_matrix.cpp:54-66 | The merge invariant holds at the first changed row |
| MergePasses.Pass.Skip | src/bit_matrix.cpp:68-69 | The invariant is kept when the gap to the next changed row is skipped |
| MergePasses.Pass.TakeOut | src/bit_matrix.cpp:70-73 | The invariant is kept when a changed row is passed by the reader |
| MergePasses.Pass.PutBack | src/bit_matrix.cpp:74-79 | The invariant is kept when the next sorted row is written before a larger one, or at the end |
| MergePasses.Pass.MoveUp | src/bit_matrix.cpp:80-84 | The invariant is kept when an unchanged row moves towards the front |
| MergePasses.Pass.Result | src/bit_matrix.cpp:48-88 | The pass ends with a sorted permutation of the rows, its inverse, and a recorded permutation that produces it |
| Replays.MovesTo | src/bit_matrix.cpp:90-130 | Between the same number of places, the row at the reader belongs at the writer |
| Replays.UpDone | src/bit_matrix.cpp:97-129 | The forward replay ends in the permuted list with its inverse |
| Replays.DownDone | src/bit_matrix.cpp:104-129 | The backward replay ends in the list before the permutation, with its inverse |
| BitMatrices.BitMatrix.constructor | src/bit_matrix.cpp:16-27 | All rows are empty, without pivot, in their physical order |
| BitMatrices.BitMatrix.ComputePivot | src/bit_matrix.cpp:192-215 | The least set column, or the mark for none |
| BitMatrices.BitMatrix.XorBit | src/bit_matrix.h:43-56 | One bit is flipped, the pivot bookkeeping stays right, and the answer says whether the pivot moved |
| BitMatrices.BitMatrix.XorRow | src/bit_matrix.h:58-70 | For every non-descending equation: data and stored pivot afterwards, the answer, and that the bookkeeping stays right exactly under the condition of `StoredPivotRight`; for an ascending equation the pivot is the true one and the answer says whether it moved |
| BitMatrices.BitMatrix.XorRowtoRow | src/bit_matrix.h:72-86 | Row b is added to row a with the pivot kept right without recomputing it in two of three cases |
| BitMatrices.BitMatrix.SortByPivot | src/bit_matrix.cpp:48-88 | If only pivots of changed rows have grown, the list becomes a sorted permutation of itself with its inverse map, as recorded |
| BitMatrices.BitMatrix.Merge | src/bit_matrix.cpp:60-86 | The in-place merge computes the result of the merge invariant |
| BitMatrices.BitMatrix.ApplyPermutation | src/bit_matrix.cpp:90-130 | Replays a recorded permutation or takes it back, row order, pivots and inverse map together |
| BitMatrices.BitMatrix.ApplyForward | src/bit_matrix.cpp:97-129 | The forward loop equals the permutation function |
| BitMatrices.BitMatrix.ApplyBackward | src/bit_matrix.cpp:104-129 | The backward loop equals the inverse permutation |
| BitMatrices.BitMatrix.PutBack | src/bit_matrix.cpp:115-127 | One step of the backward loop keeps its invariant, whether a row is put back or an unread row moves |
| BitMatrices.BitMatrix.GetPivotRowCount | src/bit_matrix.cpp:152-158 | The number of rows with a pivot |
| BitMatrices.BitMatrix.GetPivotUpperBound | src/bit_matrix.h:117-121 | The search splits the rows at the column whenever rows with pivot up to it come first, whether or not the list is sorted elsewhere |
| LinearSystems.XorEquation | src/linear_matrix.cpp:91-110 | Adding an equation to a row keeps the solutions among those of the equation |
| LinearSystems.XorRows | src/linear_matrix.cpp:59-81 | Adding one row to another keeps the solution set and empty columns |
| LinearSystems.NoSolution | src/linear_matrix.h:67 | A row with its pivot at the right-hand side has no solution |
| LinearSystems.CleanSolvable | src/linear_matrix.cpp:130-142 | A reduced matrix without contradiction is solvable |
| LinearSystems.SlackDrops | src/linear_matrix.cpp:59-81 | Raising a pivot lowers the measure of the elimination |
| LinearSystems.StepPivot | src/linear_matrix.cpp:66-74 | Adding the row clears its pivot column and never lowers a pivot; a row with the same pivot gets a larger one |
| LinearSystems.ClearStep | src/linear_matrix.cpp:66-74 | One addition keeps the solutions, leaves unqueued rows clean, and queues only rows whose pivot rose |
| LinearSystems.ClearEnd | src/linear_matrix.cpp:59-81 | After its column is cleared everywhere the row is clean |
| LinearSystems.QueueDone | src/linear_matrix.cpp:60-76 | With an empty queue sorting yields a reduced matrix with the solutions at the start |
| LinearSystems.SortReduces | src/linear_matrix.cpp:130-142 | Sorting a clean matrix gives reduced row echelon form with the same solutions |
| Substitutions.SubstStart | src/linear_matrix.cpp:93-96 | Taking the equation into the row of its first column empties that column and keeps the solutions of the equation |
| Substitutions.LookupRight | src/linear_matrix.cpp:97-101 | The binary search finds the row of a later column although the changed row is out of order |
| Substitutions.SubstLookup | src/linear_matrix.cpp:97-101 | The test after the lookup is true exactly when the column is a pivot of another row |
| Substitutions.SubstStep | src/linear_matrix.cpp:97-101 | Adding the row found removes the column and brings in no other pivot |
| Substitutions.SubstDone | src/linear_matrix.cpp:93-101 | Then only the changed row is left to eliminate with |
| Substitutions.LookupFirst | src/linear_matrix.cpp:91-92 | The first lookup decides whether the first column is a pivot, and later rows have larger pivots |
| Substitutions.AddDone | src/linear_matrix.cpp:104-105 | Rows beyond the upper bound cannot have the first column, so it is empty after the loop |
| Substitutions.AddQueue | src/linear_matrix.cpp:106-109 | All rows that may have lost their pivot column are queued |
| Substitutions.Completed | src/linear_matrix.cpp:83-116 | A reduced matrix with the first column substituted away has a solution that meets the equation |
| Substitutions.Refuted | src/linear_matrix.cpp:83-116 | If the matrix has become unsolvable no solution meets the equation |
| Changes.UndoneApplied | src/change.cpp:11-45 | Every kind of change is taken back exactly by its inverse |
| Changes.UndoneSort | src/change.cpp:11-17 | The same for the row order |
| Changes.RunsMore | src/change.cpp:47-49 | Appending an applicable change to a log keeps the log replayable |
| Changes.RunsPrefix | src/change.cpp:51-57 | Every prefix of a log leads to the state in which the next change was made |
| Changes.UnlistedXor | src/linear_matrix.h:108-119 | Changing a listed row keeps that all rows not listed are as they were when last read, which is what `LinearConditions.ReadSince` concludes from |
| LinearMatrices.LinearMatrix.constructor | src/linear_matrix.cpp:7-16 | A zero matrix with its rows in order, all of them listed to be read, and a log that leads to it |
| LinearMatrices.LinearMatrix.Extract | src/linear_matrix.h:110 | Lists a physical row to be read and loses no other entry |
| LinearMatrices.LinearMatrix.ListAll | src/linear_matrix.h:91-98 | Lists all rows |
| LinearMatrices.LinearMatrix.InitBit | src/linear_matrix.h:32-37 | Flips a bit of the matrix, pivots kept right |
| LinearMatrices.LinearMatrix.FixChanges | src/linear_matrix.cpp:55 | The present matrix becomes the one to which the log returns |
| LinearMatrices.LinearMatrix.ApplyChange | src/change.cpp:11-45 | Applies any change in place as the change function says |
| LinearMatrices.LinearMatrix.UndoChange | src/change.cpp:15-45 | Takes any change back in place |
| LinearMatrices.LinearMatrix.UndoChanges | src/change.cpp:55-57 | Takes the whole log back: the matrix is the one at the last `FixChanges` |
| LinearMatrices.LinearMatrix.Undo | src/linear_matrix.cpp:38-44 | Restores data, row order and pivots, empties the queues, and stashes a log that leads back to the state left |
| LinearMatrices.LinearMatrix.UndoAndRestore | src/linear_matrix.cpp:46-53 | Takes the log back and brings back the state the last `Undo` had left |
| LinearMatrices.LinearMatrix.XorRow | src/linear_matrix.h:108-112 | Adds an equation to a row and keeps the log and the list of rows to be read right |
| LinearMatrices.LinearMatrix.XorRowtoRow | src/linear_matrix.h:115-119 | Adds a row to another and keeps the log and the list of rows to be read right |
| LinearMatrices.LinearMatrix.SortByPivot | src/linear_matrix.h:122-126 | Sorts the row order, empties the set of changed pivots, keeps the log right |
| LinearMatrices.LinearMatrix.Touch | src/linear_matrix.h:84-87 | Queues a row, and marks its pivot as changed if it is |
| LinearMatrices.LinearMatrix.ClearColumn | src/linear_matrix.cpp:66-74 | Clears a pivot column in all other rows; the measure drops or the queue does not grow; failure means no solution |
| LinearMatrices.LinearMatrix.EpsilonGauss | src/linear_matrix.cpp:59-81 | From any queued state the elimination ends, keeps the solutions and empty columns, ends reduced on true and only fails on an unsolvable system |
| LinearMatrices.LinearMatrix.Lookup | src/linear_matrix.cpp:91 | The row before the upper bound of a column |
| LinearMatrices.LinearMatrix.ClearRow | src/linear_matrix.cpp:97-101 | Removes all other pivots among the columns of the equation from the changed row |
| LinearMatrices.LinearMatrix.SubstituteFree | src/linear_matrix.cpp:104-105 | Adds the equation to every row with its first column |
| LinearMatrices.LinearMatrix.QueuePivots | src/linear_matrix.cpp:106-109 | Every row whose pivot is a later column of the equation is queued |
| LinearMatrices.LinearMatrix.Substitute | src/linear_matrix.cpp:91-110 | Empties the first column, keeps the solutions of the equation, and queues all rows to eliminate with |
| LinearMatrices.LinearMatrix.AddEquation | src/linear_matrix.cpp:83-116 | True exactly when matrix and equation are solvable together; then reduced again with the first column empty; the solutions of the equation unchanged; log and list of rows to be read right even on failure |
| LinearFunctions.LinearSum | src/linear_conditions.h:66-81 | A linear function is the sum of its values on unit vectors |
| LinearFunctions.GraphMatrix | src/linear_conditions.h:56-82 | The finished matrix is solved by exactly the pairs of function graphs of both messages |
| LinearFunctions.FunctionReduced | src/linear_conditions.h:56-82 | The finished matrix is sorted and reduced, with the output columns as pivots |
| LinearFunctions.FunctionColumns | src/linear_conditions.h:56-82 | No column beyond the inputs is used |
| LinearFunctions.ParamPositions | src/linear_step.h:40-54 | The position in the matrix of each bit of each parameter is the one that the step gives to it, and parameter and bit can be read off a position |
| PairReadings.TableMeans | src/linear_conditions.cpp:16-36 | The table maps an equation on a pair to exactly the values that solve it |
| PairReadings.ReadMeans | src/linear_conditions.cpp:38-50 | A row without other columns is equivalent to the condition read from it |
| PairReadings.ReadSound | src/linear_conditions.cpp:38-50 | No row rules out a value that some solution takes |
| PairReadings.ExtendSolves | src/linear_matrix.cpp:130-142 | In a reduced matrix every choice of the free columns extends to a solution |
| PairReadings.Steer | src/linear_conditions.cpp:52-73 | Free columns can be chosen so that two rows take wanted values unless their columns or their sum tie them |
| PairReadings.ReadingExact | src/linear_conditions.cpp:38-110 | The values allowed by the rows of a pair and their sums are exactly the values of the pair over all solutions |
| PairReadings.Adjacent | src/linear_conditions.cpp:75-110 | Two rows with pivots in one pair are neighbours, so reading the next row is enough |
| RowReadings.ReadToHears | src/linear_conditions.cpp:83-107 | Reading the listed rows meets what each of them says, and each of their sums that is not skipped, and only removes values |
| RowReadings.ReadOffLater | src/linear_conditions.cpp:75-110 | What was read off the rows stays read off the rows that are not listed while conditions only shrink |
| RowReadings.ExactReadOff | src/linear_conditions.cpp:75-110 | Exact conditions have everything read off all rows and their sums |
| RowReadings.IncrementalExact | src/linear_conditions.cpp:75-110 | With everything read off the rows that are not listed and no row listed twice, the conditions after reading are exact if and only if, for each skipped row, the old condition met with what the row says is below what the skipped sum says |
| RowReadings.ExactBySums | src/linear_conditions.cpp:75-110 | The same in terms of the conditions after reading: exact if and only if they are below every skipped sum |
| RowReadings.OnlyOfPair | src/linear_conditions.cpp:75-110 | No other listed row has its pivot in the pair of a skipped row |
| RowReadings.ReadToSkipped | src/linear_conditions.cpp:83-107 | Of all listed rows only the skipped one itself changes the condition of its pair |
| RowReadings.AllListedExact | src/linear_conditions.cpp:75-110 | With all rows listed no sum is skipped, and the conditions are exact |
| RowReadings.SkippedAfter | src/linear_conditions.cpp:97-98 | A sum is skipped only after the next row of the matrix, with an odd pivot, was listed before it with nothing but empty rows between them |
| RowReadings.ExactUnlessShadowed | src/linear_conditions.cpp:75-110 | The conditions are exact when no listed row of odd pivot follows the listed next row of odd pivot while its even mate is not listed |
| RowReadings.LostChanges | src/linear_conditions.cpp:160-190 | The matrix of the witness arises from one in which everything was read by adding equations to two rows |
| RowReadings.SumLost | src/linear_conditions.cpp:97 | Two reduced matrices of a run, the second with the list that the program keeps, after whose reading a value stays that no solution takes: its sum is skipped |
| LinearConditionsModule.EquationMeans | src/linear_conditions.cpp:160-190 | An equation on a pair holds exactly for the values of its table entry |
| LinearConditionsModule.EquationsMean | src/linear_conditions.cpp:160-190 | The equations of a linear condition say exactly that condition |
| LinearConditionsModule.EquationsImplied | src/linear_conditions.cpp:160-190 | Every condition implies the equations added for it |
| LinearConditionsModule.CanBeMet | src/linear_conditions.cpp:160-190 | Once its equations are substituted away, a linear condition can be met |
| LinearConditionsModule.LinearConditions.constructor | src/linear_conditions.cpp:16-36 | An empty matrix with two columns for each bit |
| LinearConditionsModule.LinearConditions.InitOutputs | src/linear_conditions.h:60-65 | Enters the identity for the outputs |
| LinearConditionsModule.LinearConditions.InitInput | src/linear_conditions.h:66-81 | Enters the value of the function on one unit vector for both messages |
| LinearConditionsModule.LinearConditions.InitLinearFunction | src/linear_conditions.h:56-82 | For every linear function the matrix is reduced and its solutions are exactly the pairs of graphs |
| LinearConditionsModule.LinearConditions.ShallowCopy | src/linear_conditions.h:47-50 | Both objects share the matrix, whose present state is the one to return to |
| LinearConditionsModule.LinearConditions.AddLinearConditions | src/linear_conditions.cpp:160-190 | True exactly when some solution meets what the equations of the condition say: the condition itself for a linear one, nothing for the others; false only when no solution meets the condition; solutions that meet it are kept and its columns substituted away |
| LinearConditionsModule.NonlinearNotRefuted | src/linear_conditions.cpp:160-190 | For each of the conditions 7, B, D and E a reduced matrix none of whose solutions meets it, although the answer is true |
| LinearConditionsModule.LinearConditions.GetBitConditionFromRow | src/linear_conditions.cpp:38-50 | The condition read from one row keeps every value that some solution takes, and for a row without other columns is the condition that the row states |
| LinearConditionsModule.LinearConditions.GetBitConditionFromRows | src/linear_conditions.cpp:52-73 | The same for the sum of two rows of one pair |
| LinearConditionsModule.LinearConditions.ReadListedRow | src/linear_conditions.cpp:84-107 | One pass of the loop loses no value that some solution takes, meets what row and sum say unless the sum is skipped, and fails only on a newly emptied condition |
| LinearConditionsModule.LinearConditions.ReadSince | src/linear_matrix.h:108-119 | After an exact reading the matrix keeps on its list every row about which something may be left to read |
| LinearConditionsModule.LinearConditions.PropagateConditions | src/linear_conditions.cpp:75-110 | Conditions shrink and lose no value that some solution takes; if everything about unlisted rows was read off before, the result is exact if and only if for each skipped row the old condition met with what the row says implies the skipped sum; with all rows listed it is exact; an exact result leaves everything read off; false only with an emptied condition |
| Counting.Halved | src/linear_step.h:155-188 | An equation with a column of its own halves the number of solutions |
| Counting.TriangularCount | src/linear_step.h:155-188 | A triangular system of k equations on n columns has 2^(n-k) solutions |
| LinearSteps.CondZero | src/linear_step.h:127-153 | Linear conditions are met exactly when all their equations hold |
| LinearSteps.TwoValues | src/linear_conditions.cpp:160-190 | A condition has no equation exactly if it leaves out at most one of the four values |
| LinearSteps.StatedNarrow | src/linear_step.h:74-97 | When a condition shrinks, what its equations say shrinks with it |
| LinearSteps.SumStated | src/linear_step.h:127-153 | The equations counted for the conditions are as many as those of what they say |
| LinearSteps.NoGraphMeets | src/linear_step.h:89-91 | When the condition added last cannot be met, no pair of graphs meets what all conditions say |
| LinearSteps.InputCount | src/linear_step.h:166-175 | Each equation of an input condition halves the number of input pairs |
| LinearSteps.GraphCount | src/linear_step.h:155-188 | Pivot rows and equations together count the graph pairs that meet all conditions |
| LinearSteps.GoodCount | src/linear_step.h:155-188 | Good input pairs correspond one to one to graph pairs that meet all conditions |
| LinearSteps.ProbabilityExact | src/linear_step.h:155-188 | The fraction of good input pairs is two to the power that is computed from pivots and equations |
| LinearSteps.NarrowRepresents | src/linear_step.h:74-97 | Narrowing a condition and adding its equations keeps what matrix and conditions mean together |
| LinearSteps.CountWords | src/linear_step.h:166-184 | The loops add up the equations of all conditions, and find an empty one if there is one |
| LinearSteps.LinearStep.constructor | src/linear_step.h:60-67 | The step starts with the matrix of its function and no conditions |
| LinearSteps.LinearStep.Update | src/linear_step.h:74-97 | Keeps what matrix and conditions mean together for any new condition, linear or not; or no pair of graphs meets what the equations of the conditions say |
| LinearSteps.LinearStep.GetProbability | src/linear_step.h:155-188 | Minus infinity exactly for an empty input condition; otherwise, once all conditions are added and none is empty, the logarithm of the fraction of input pairs good for what the equations of the conditions say, which for linear conditions are the conditions themselves and for 7, B, D and E is nothing |
| WordContainers.InWindow | src/utils.h:51-57 | Writing a window of a word changes exactly the bits of the window |
| WordContainers.WordContainer.GetBits | src/word_container.h:64-78 | A window reads exactly the bits at its positions, also over a word boundary |
| WordContainers.WordContainer.SetBits | src/word_container.h:80-97 | Writing a window changes exactly the bits at its positions |
| BitsliceFunctions.ProjectedAt | src/propagate.h:24-34 | A value stays exactly when some allowed solution takes it |
| BitsliceFunctions.ProjectionShrinks | src/bitslice.h:172-223 | Propagation never widens a condition |
| BitsliceFunctions.ProjectionSound | src/bitslice.h:172-223 | Propagation loses no solution |
| BitsliceFunctions.ProjectionMonotone | src/bitslice.h:172-223 | Smaller conditions propagate to smaller conditions |
| BitsliceFunctions.ProjectionIdempotent | src/bitslice.h:172-223 | Propagating twice changes nothing more |
| BitsliceFunctions.CodeBits | src/bitslice_data.h:143-157 | Bit j of the first message of a slot of k bits has weight 2^j in the code, bit j of the second message weight 2^(k + j) |
| BitsliceFunctions.SwapProjects | src/bitslice_data.h:124-132 | Swapping exchangeable slots before or after propagation is the same |
| BitsliceDatas.CIndexOrder | src/bitslice_data.h:32-35 | The windows of different slots do not overlap |
| BitsliceDatas.BitsliceData.ConditionsFit | src/bitslice_data.h:109-111 | A condition that is read has no bits beyond its slot |
| BitsliceDatas.BitsliceData.SetConditions | src/bitslice_data.h:109-115 | Writing a slot and reading all slots gives the new condition there and the old ones elsewhere |
| SymmetricKeys.SortingSwap | src/bitslice_data.h:124-132 | A swap keeps that the projection of the present record is the permuted projection of the input |
| SymmetricKeys.CanonicalKey | src/bitslice_data.h:124-132 | Inputs that differ only in the order of exchangeable slots have the same key |
| SymmetricKeys.SwapCondition | src/bitslice_data.h:117-122 | Exchanges the conditions of two slots |
| SymmetricKeys.SortInput | src/bitslice_data.h:124-132 | The key is sorted within each symmetry class, is the input permuted as recorded, and so is its projection |
| SymmetricKeys.ResortOutput | src/bitslice_data.h:134-139 | Undoes the recorded permutation |
| Indices.RankBound | src/index.h:25-35 | The number read off the wheels is below the number of combinations |
| Indices.RankInjective | src/index.h:25-35 | Different combinations have different numbers |
| Indices.CarryKeepsRank | src/index.h:27-33 | Carrying from a full wheel to the next keeps the number |
| Indices.Index.Increment | src/index.h:25-35 | The number grows by one, and the end is reported exactly after the last combination |
| Propagation.FillColumn | src/bitslice_data.h:143-157 | Lists the allowed pairs of a slot, each once, and leaves other columns alone |
| Propagation.SetupPairs | src/bitslice_data.h:141-160 | Lists the pairs of all inputs, or fails because an input allows nothing |
| Propagation.WholeRelated | src/bitslice.h:189-191 | Every combination of input pairs and its outputs is in the relation |
| Propagation.RelatedWhole | src/bitslice.h:189-191 | Every element of the relation is the combination of its input pairs |
| Propagation.GetPair | src/bitslice_data.h:162-171 | The pairs chosen by the indices |
| Propagation.IsPair | src/bitslice_data.h:173-182 | True exactly when all outputs are allowed |
| Propagation.Collect | src/propagate.h:26-32 | Adds the values of a solution to all slots |
| Propagation.Visit | src/bitslice.h:188-210 | One pass extends what has been collected by exactly the current combination |
| Propagation.CollectedAll | src/bitslice.h:172-223 | After all combinations the collected conditions are the exact projection |
| Propagation.CombinationsSize | src/bitslice.h:187-216 | The number of combinations is the product of the sizes of the input conditions |
| Propagation.EmptyInput | src/bitslice.h:185 | With an empty input condition the blank record is the exact projection |
| Propagation.Loop | src/bitslice.h:172-223 | Visits each combination of allowed input pairs once and returns exactly the values that each slot takes over all solutions |
| Caches.DynamicCache.Evict | src/dynamic_cache.h:121-127 | Drops the key at the end of the list from list and map |
| Caches.DynamicCache.Insert | src/dynamic_cache.h:33-39 | List and map stay in agreement and within the capacity; a present key keeps its value and place |
| Caches.DynamicCache.Find | src/dynamic_cache.h:41-54 | Answers what the map holds and moves the key to the front |
| Caches.StaticCache.SetSize | src/static_cache.h:33 | Resizes the table and keeps the entries that are left |
| Caches.StaticCache.Insert | src/static_cache.h:39 | Writes one entry of the table |
| Bitslices.SmallIndex | src/bitslice.h:51-57 | In a function small enough for a table every slot starts at a multiple of four |
| Bitslices.KeyConditions | src/bitslice_data.h:80-85 | The index of a key spells the conditions of the key |
| Bitslices.IndexKey | src/bitslice.h:51-57 | The entry for index x is stored at index x |
| Bitslices.StaticMatch | src/static_cache.h:41-47 | The entry of a complete table is the propagation of the key |
| Bitslices.KeyResult | src/bitslice.h:109-123 | Undoing the permutation of the propagated key gives the propagated input |
| Bitslices.IndexInput | src/bitslice.h:52-54 | The record whose conditions are the bits of a table index |
| Bitslices.Bitslice.constructor | src/bitslice.h:31-60 | The caches start right; the table of a small function is complete |
| Bitslices.Bitslice.InitStaticCachePropagate | src/bitslice.h:37-60 | Every entry of the table is the exact propagation of the conditions it stands for |
| Bitslices.Bitslice.Find | src/bitslice.h:114-120 | The propagation of a key, from a cache or computed and stored, with all entries still right |
| Bitslices.Bitslice.Compute | src/bitslice.h:109-123 | For every input and every state of the caches the result is the exact projection, and the caches stay right |
| Cryptos.HasLeast | src/step_update.h:11-17 | A worklist that is not empty has a least entry |
| Cryptos.SteppedShrinks | src/bitslice_step.h:108-125 | Propagating a step bit only removes values |
| Cryptos.SteppedFixed | src/bitslice_step.h:108-125 | A step bit with distinct slots is fixed after its own propagation |
| Cryptos.UntouchedFixed | src/characteristic.cpp:336-342 | A step bit none of whose slots changed stays fixed |
| Cryptos.SteppedAbove | src/characteristic.cpp:313-334 | A fixpoint below the conditions stays below them |
| Cryptos.GfpFixed | src/characteristic.cpp:313-334 | The union of all fixpoints below a start is a fixpoint |
| Cryptos.GfpGreatest | src/characteristic.cpp:313-334 | It is above every fixpoint below the start |
| Cryptos.GfpReached | src/characteristic.cpp:313-334 | A fixpoint between it and the start is equal to it |
| Cryptos.GfpMonotone | src/characteristic.cpp:313-334 | Smaller starts lead to smaller fixpoints |
| Cryptos.GfpIdempotent | src/characteristic.cpp:313-334 | Propagating a fixpoint changes nothing |
| Cryptos.GfpReplay | src/search_stack.cpp:54-100 | Restrictions propagated one by one or all at once lead to the same fixpoint |
| Cryptos.GfpKeepsSolutions | src/characteristic.cpp:313-334 | Exactly the same concrete solutions are allowed before and after |
| Worklists.InStepsToUpdate | src/container_condition_proxy.cpp:18-24 | The entries queued for a condition are the step bits that read it |
| Worklists.PendingTouched | src/container_condition_proxy.cpp:86-102 | Changing conditions and queueing their step bits leaves every unqueued step bit fixed |
| Worklists.PendingErased | src/characteristic.cpp:313-334 | Erasing the current entry after its own step leaves every unqueued step bit fixed |
| Worklists.PendingDropped | src/characteristic.cpp:316-319 | Dropping an entry above the limit loses nothing up to the limit |
| Worklists.InsideStep | src/characteristic.cpp:313-334 | Each step stays between the greatest fixpoint and the start |
| Worklists.TotalShrinks | src/characteristic.cpp:313-334 | A step that changes conditions lowers the number of allowed values |
| Worklists.EmptiedNoSolution | src/characteristic.cpp:320-323 | Where the greatest fixpoint has an empty condition no solution starts |
| Worklists.Reached | src/characteristic.cpp:313-334 | With an empty worklist the conditions are the greatest fixpoint |
| Worklists.WritingNext | src/bitslice_step.h:116-118 | Storing one slot after the other keeps queue and answer right |
| Choices.SymbolNumber | src/condition.cpp:5-13 | Symbols and numbers of conditions are inverse to each other |
| Choices.ChoicesCover | src/search.h:120-138 | The two choices together are the condition; with several values they are disjoint and not empty, otherwise both are the condition itself |
| Choices.ChoiceOrder | src/search.h:120-138 | For every condition with several values: if it allows equal and different bits, the first choice is its equal part and the second one its different part; otherwise the first choice is the smaller of the two values |
| Priorities.AddStepDefault | src/crypto.cpp:80-96 | Adding a step with the default arguments gives it the number of its input conditions as priority and keeps the system valid |
| Priorities.CIndexBound | src/bitslice_data.h:58 | A slot takes between 4 and 64 bits of the conditions of a step |
| Priorities.AllActive | src/bitslice_step.h:45-47 | With default priorities no step is above a limit of 64 for each slot |
| Priorities.EveryStep | src/characteristic.cpp:313-334 | Then fixpoints and solutions up to the limit are those of all steps |
| Characteristics.DefaultLimit | src/characteristic.h:96 | The default limit of an update is above all steps with default priorities |
| Characteristics.DefaultPropagated | src/characteristic.cpp:344-349 | So what an update of everything promises holds of all steps |
| Characteristics.Characteristic.ShallowCopy | src/characteristic.cpp:106-121 | Copies conditions and worklist |
| Characteristics.Characteristic.Touch | src/characteristic.cpp:336-342 | Queues exactly the step bits that read the condition |
| Characteristics.Characteristic.SetCondition | src/container_condition_proxy.cpp:86-102 | Stores a condition, queues its step bits exactly when it changed, and fails exactly when it became empty |
| Characteristics.Characteristic.ReadSlots | src/bitslice_step.h:112-114 | Packs the conditions of the slots of a step bit |
| Characteristics.Characteristic.WriteSlots | src/bitslice_step.h:116-118 | Stores all slots even after one became empty |
| Characteristics.Characteristic.UpdateStep | src/bitslice_step.h:108-125 | The slots become their exact projection, changed conditions queue their step bits, and the answer tells whether a condition became empty |
| Characteristics.Characteristic.Update | src/characteristic.cpp:313-334 | Ends; stays between the greatest fixpoint and the start; loses no solution; false exactly when a condition became empty, and only if the start has no solution; on true reaches the greatest fixpoint with an empty worklist |
| Characteristics.Characteristic.UpdateAll | src/characteristic.cpp:344-349 | Reaches the greatest fixpoint from any state of the worklist; loses no solution, and fails only if there is none; with default priorities every step bit is fixed on success and solutions are values related in all steps, without a limit |
| Characteristics.Characteristic.Try | src/characteristic.cpp:293-297 | Success of a trial tells whether the choice can be propagated, and the bits still to try shrink to those selected after it |
| Characteristics.Characteristic.TryBoth | src/characteristic.cpp:292-298 | The same for both choices in turn, for every filter: what is left of the list is what the filter selects after both, and under a separating filter the bit itself is not left |
| Characteristics.Characteristic.Commit | src/characteristic.cpp:304-306 | Storing the choice whose alternative failed loses no solution, strictly shrinks, and its propagation succeeds from a propagated state without a contradiction |
| Characteristics.Characteristic.CompletePass | src/characteristic.cpp:287-308 | For every filter: a pass commits to something, refutes the start, has examined every selected bit, or is still open after the given number of trials; it stays open when the first selected bit repeats, and never under a separating filter |
| Characteristics.Characteristic.Complete | src/characteristic.cpp:281-311 | For every filter: discards no solution; false only when there is none; when it ends with true every selected bit is possible both ways or decided by a choice of a bit that is; ends within a bound under a separating filter, and within none when the first selected bit repeats |
| Characteristics.BothFail | src/characteristic.cpp:301-303 | When both choices fail there is no solution |
| Characteristics.CommitFacts | src/characteristic.cpp:304-307 | Replacing a condition by the choice left loses no solution and removes a value |
| Characteristics.ExaminedNext | src/characteristic.cpp:288-300 | Bits that leave the list are tried or decided by the bit just tried |
| Characteristics.EqualOrDifferentSeparates | src/search.cpp:140-146 | The filter that the search completes with, for `-` and `x`, separates the choices, so `Complete` ends for it |
| Characteristics.EqualOrDifferentBits | src/search.cpp:140-146 | That filter selects exactly the condition of equal bits and the one of different bits |
| Characteristics.LeftAgain | src/characteristic.cpp:288-298 | After both choices were tried the bit is on the list again exactly if the filter selects what both leave of it |
| Characteristics.InsideSolutions | src/characteristic.cpp:313-334 | Between the greatest fixpoint and the start no solution is lost, and an emptied condition means that there was none |
| Characteristics.SeparatedNeverRepeats | src/characteristic.cpp:287-300 | Under a separating filter no bit repeats, in any system and state |
| Completions.UnseparatedRepeats | src/characteristic.cpp:287-300 | Any three conditions that refute separation make a bit repeat: in a system of two bits that are to be equal the second condition leaves just the selected parts of both choices |
| Completions.SeparatesExactly | src/characteristic.cpp:281-311 | A filter separates if and only if no system and no state without a contradiction repeats a bit |
| Completions.PropagatedRepeats | src/characteristic.cpp:287-300 | Any three conditions that refute separation make a bit repeat in a propagated state of a system with one further bit |
| Completions.SeparatesPropagated | src/search.cpp:137-153 | A filter separates if and only if no system repeats a bit in any propagated state without a contradiction |
| Completions.RepeatsForever | src/characteristic.cpp:287-300 | A repeating bit that is the first on the list is the first in every later trial |
| PlainStacks.ReplayedChoice | src/search_stack.cpp:54-72 | A further choice on stored guesses or on their propagated state leads to the same state |
| PlainStacks.ReplayedOk | src/search_stack.cpp:93-98 | Replaying possible guesses ends in a propagated state without a contradiction |
| PlainStacks.DroppedCount | src/search_stack.cpp:74-100 | Dropping n guesses drops min(n, all) of them |
| PlainStacks.LedOutcome | src/search_stack.cpp:30-52 | Adding a guess leaves the same top, phase and size whether its state is stored or not if and only if that state is the one the guess leads to |
| PlainStacks.LedOutcomes | src/search_stack.cpp:15-139 | In a run with every guess added with the state it leads to it makes no difference which states are stored |
| PlainStacks.LedExactly | src/search_stack.cpp:15-139 | Storing all states and storing none have the same outcomes if and only if every guess of the run is added with the state it leads to |
| PlainStacks.AfterOpCount | src/search_stack.cpp:15-139 | An operation adds at most one guess |
| SearchStacks.PlainTop | src/search_stack.cpp:74-100 | The top of the plain stack is the replayed top element |
| SearchStacks.DroppedElement | src/search_stack.cpp:74-87 | Dropping more guesses than the top element has drops the element |
| SearchStacks.BackTake | src/search_stack.cpp:15-24 | Removing the last guess of the top element removes the top frame |
| SearchStacks.AddGuessFrames | src/search_stack.cpp:30-52 | A guess adds a frame; a stored state above it adds nothing if it is the state that the guess leads to, and stands for a pushed state otherwise |
| SearchStacks.RedoneChoice | src/search_stack.cpp:102-139 | Replaying the guesses with the other choice succeeds exactly when that choice can be propagated from the state below |
| SearchStacks.Propagate | src/search.cpp:266-288 | Storing a choice and updating succeeds exactly when its fixpoint has no empty condition, and reaches it |
| SearchStacks.SearchStack.constructor | src/search_stack.cpp:5 | An empty stack |
| SearchStacks.SearchStack.Clear | src/search_stack.cpp:5 | Empties the stack |
| SearchStacks.SearchStack.Size | src/search_stack.cpp:9-13 | The number of guesses on the plain stack |
| SearchStacks.SearchStack.Empty | src/search_stack.cpp:7 | True exactly without guesses, whatever states are pushed |
| SearchStacks.SearchStack.PushBack | src/search_stack.cpp:26-28 | Pushes a full state with its phase |
| SearchStacks.SearchStack.AddGuess | src/search_stack.cpp:30-52 | For every frequency and every propagated state: one guess is added, and its state is stored exactly when the top element has as many guesses as the frequency; always for frequency 1, never for one above the number of guesses |
| SearchStacks.SearchStack.BackGuess | src/search_stack.cpp:15-24 | Removes the latest guess, and the pushed states above it |
| SearchStacks.SearchStack.Redo | src/search_stack.cpp:93-98 | The state of an element with all its guesses stored |
| SearchStacks.SearchStack.Backtrack | src/search_stack.cpp:74-100 | Drops exactly min(steps, size) guesses and returns state and phase of the new top |
| SearchStacks.SearchStack.BacktrackToOtherChoice | src/search_stack.cpp:102-139 | Goes to the latest guess whose other choice can be propagated and takes it, or to the bottom |
| SearchStacks.SearchStack.TakeOther | src/search_stack.cpp:123-137 | Replays the guesses with the other choice and says whether that is possible |
| SearchStacks.SearchStack.Retake | src/search_stack.cpp:123-137 | The other choice of a removed guess takes its place when it is possible; otherwise the stack stays as it is |
| SearchStacks.SearchStack.BackState | src/search_stack.cpp:108-121 | The stored state of an element without guesses |
| SearchStacks.SearchStack.Perform | src/search_stack.cpp:15-139 | Each operation acts on the plain stack as its definition says, given whether a state was stored |
| SearchStacks.SearchStack.Run | src/search_stack.cpp:15-139 | For every run of operations the states, phases and sizes are those of the stack of full states on which states are stored after some guesses, all for frequency 1 and none for a large one; independent of which when every guess is added with the state it leads to |
| Coverage.GuessCovers | src/search.cpp:274-280 | A guess that keeps its other choice loses no solution, also from a completed state |
| Coverage.SecondCovers | src/search.cpp:285-295 | When the first choice fails in the state of the search the other choice alone loses no solution |
| Coverage.BothRefute | src/search.cpp:290 | When both choices fail the current state has no solution |
| Coverage.SharpensGuess | src/search.cpp:266-288 | The same choice made in a completed state and on the stack leads to two states with the same solutions |
| Coverage.SharpenedCovers | src/search_stack.cpp:30-52 | Pushing a completed state covers exactly the same solutions |
| Coverage.UnsolvableRefutes | src/search.cpp:140-148 | A completed state without a solution refutes the stack |
| Coverage.AfterGuessCovers | src/search.cpp:260-296 | A guess with its other choice kept loses no solution, whether the state it led to is stored or not, and adds nothing only in a refuted state |
| Coverage.ChoiceGivenUp | src/search.cpp:262-280 | Without its other choice a guess loses no solution exactly when those of the other choice are in alternatives already |
| Coverage.KeepsAllExactly | src/search.cpp:260-296 | Guesses lose no solution from any covered stack and any state that lacks only values no solution takes, whatever the draw, if and only if the probability lies strictly between 0 and 1 |
| Coverage.ChoiceLost | src/search.cpp:262-280 | With probability 0 or 1 a single bit with condition `-` loses a solution, whatever the draw |
| Coverage.DroppedCovers | src/search_stack.cpp:74-100 | Dropping guesses loses no solution |
| Coverage.OtherChoiceCovers | src/search_stack.cpp:102-139 | Going to another choice from a refuted state loses no solution; without guesses left the root has none |
| Coverage.PushCovers | src/search.cpp:421-423 | Pushing the current state loses no solution |
| Coverage.NoAlternative | src/search_stack.cpp:7-13 | A stack without guesses has no alternative |
| ForcedBits.ForcedBit | src/characteristic.cpp:292-307 | In the system y = x, z = x and not y, propagation with `-` everywhere does not decide z, but one for z is contradictory |
| ForcedBits.CompletionForces | src/search.cpp:137-153 | Completing from the propagated state with `-` everywhere forces z to zero and decides nothing else |
| ForcedBits.FrequencyMatters | src/search_stack.cpp:30-52 | A run with a guess added with the completed state: a stack that stores it hands it out again, one that replays the guess hands out a state in which z is undecided |
| Searches.Search.constructor | src/search.cpp:96-127 | The search starts with the start state pushed in phase 0 and its credits |
| Searches.Search.AddGuess | src/search.cpp:275-278 | The stack is the plain stack with the guess and, if it is stored and differs, the state of the search |
| Searches.Search.GuessBit | src/search.cpp:260-296 | Which guess is added for every probability and draw, the choice of equal bits being the first one; with a probability strictly between 0 and 1 no solution is lost, and failure refutes the state |
| Searches.Search.Guess | src/search.cpp:298-310 | Ends with a condition that is not to be guessed, or with a refuted state; loses no solution |
| Searches.Search.BackTrackStrategy | src/search.cpp:548-563 | State, stack and phase after each strategy |
| Searches.Search.TenthDropped | src/search.cpp:556-558 | Going back by a tenth drops as many guesses as there are whole tens of them |
| Searches.NoneRelatedExactly | src/search.cpp:319-427 | With default priorities the root has no solution exactly if no values that it allows are related in all steps |
| Searches.Search.BackTrack | src/search.cpp:535-546 | Loses no solution from a refuted state; a stack without guesses after a search for another choice means that the root has no solution; counts credits and reports another phase or an empty stack |
| Searches.Search.WentBackCovers | src/search.cpp:548-563 | The same for the stack alone |
| Searches.Search.CompleteCheck | src/search.cpp:137-153 | Ends within the credits and loses no solution; true only if it did not go back; unless a switch or missing credits stopped it every selected bit has been examined; with an emptied stack the root has no solution |
| Searches.Search.NextPhase | src/search.cpp:421-423 | Pushes the state for the next phase and loses no solution |
| Searches.Search.Explore | src/search.cpp:319-427 | For every order of bits and complete checks every solution of the root stays covered, and exhaustion means that there is none |
| Adders.ChainModular | src/functions.h:178-197 | A word closes a carry chain exactly when it is the sum of the columns modulo 2^n |
| Adders.ColumnsWords | src/functions.h:178-197 | Adding columns and weighting is adding words |
| Adders.Add | src/functions.h:192-196 | The slice computes sum bit and carry of its inputs, in bytes |
| Adders.AddSlice | src/functions.h:192-196 | With a carry below N the bytes do not wrap and the outgoing carry is below N |
| Adders.AddCarries | src/functions.h:178-197 | Every carry is at most N - 1 and the slices form a carry chain |
| Adders.AddSound | src/crypto.cpp:80-96 | If all chained slices hold the output is the sum modulo 2^n |
| Adders.AddComplete | src/condition_word.cpp:210-221 | For the sum there is a carry word with which all slices hold |
| Adders.AddWords | src/functions.h:178-197 | For 2 to 128 words of any size, the slices hold for some carry word exactly when the output is the sum modulo 2^n |
| Adders.AddCarryFits | src/functions.h:188-190 | Every carry fits Log2(N - 1) + 1 bits |
| Adders.AddsUpTo128 | src/functions.h:178-197 | N words of every size are added exactly if and only if N is at most 128 |
| Sha2.Sadd | examples/sha2/sha2.cpp:106-116 | The slice computes its outputs in bytes, with code 3 as carry -1 |
| Sha2.SaddSlice | examples/sha2/sha2.cpp:106-116 | Byte arithmetic on carry codes is exact arithmetic with carries from -1 to 2 |
| Sha2.SaddSound | examples/sha2/sha2.cpp:96-117 | If all slices hold the output is x0 + x1 + x2 - x3 modulo 2^n and all carries are codes |
| Sha2.SaddComplete | examples/sha2/sha2.cpp:96-117 | For that output there is a carry word with which all slices hold |
| Sha2.SaddWords | examples/sha2/sha2.cpp:96-117 | The slices hold for some carry word exactly for x0 + x1 + x2 - x3 modulo 2^n |
| Sha2.RoundUpdate | examples/sha2/sha2.cpp:219-254 | The two additions of a round give the words e and a of section 6.2.2 of FIPS 180-4 |
| Functions.SwapSafeSymmetric | src/functions.h:187 | A function unchanged by swapping inputs of one symmetry has a symmetric relation |
| Functions.AddFuncValid | src/functions.h:178-197 | Outputs of the addition fit their slots |
| Functions.AddSymmetric | src/functions.h:187 | The addition may be cached under its symmetry |
| Functions.SaddSymmetric | examples/sha2/sha2.cpp:104 | So may the signed-carry addition |
| Functions.XorSymmetric | src/functions.h:127-141 | So may the exclusive or |
| StepRelations.AddRelatedHolds | src/functions.h:192-196 | The codes at one bit are related by the step of an addition exactly if the carry codes fit their slots and the slice holds in both messages |
| StepRelations.AddRelation | src/functions.h:178-197 | For 2 to 8 words of any size, the codes at all bits, chained through the carry slots, are related for some carry codes exactly when in both messages the output is the sum modulo 2^n |
| StepRelations.AddLoopSize | src/bitslice_step.h:47 | The priority of an addition of n words is 4 n plus the number of pairs of carries |
| StepRelations.SaddRelation | examples/sha2/sha2.cpp:96-117 | The same for the signed addition and x0 + x1 + x2 - x3 modulo 2^n |
| StepRelations.ParityExclusive | src/functions.h:134-136 | The function of the step is the exclusive or of its bits |
| StepRelations.XorRelation | src/functions.h:127-141 | The codes of a step bit are related exactly when in both messages the output is the exclusive or of the inputs |
| StepRelations.BitsRelation | src/bitslice_data.h:143-157 | The function that splits a slot of one to three bits into its bits is related exactly to the codes that have bit j of the first message from weight 2^j and bit j of the second one from weight 2^(k + j) |
| Conditions.MaskKeeps | src/condition.cpp:55-135 | Each mask excludes exactly the pairs with one value of the part |
| Conditions.GetUnion | src/condition.cpp:70-193 | Projecting a union is the union of the projections |
| Conditions.GetSingle | src/condition.cpp:70-193 | Projecting one pair gives its part |
| Conditions.GetBelow | src/condition.cpp:70-193 | A projection has no bits beyond its part, whatever the word of the condition |
| Conditions.MergeExact | src/condition.cpp:55-135 | Merging keeps exactly the pairs whose part is allowed |
| Conditions.GetExact | src/condition.cpp:70-193 | Projecting gives exactly the values of allowed pairs, for all bits of the result word |
| Conditions.GetMerged | src/condition.cpp:55-193 | Projecting after merging is the old projection met with the argument, for all bits of the result word |
| Conditions.MergedGet | src/condition.cpp:55-193 | Merging a condition's own projection changes nothing |
| Conditions.Condition.Merge | src/condition.cpp:55-135 | The loop over the excluded values restricts the stored condition |
| Bitmasks.WordBitsDenote | src/bitmask.cpp:141-150 | The bits found for a word are those of the set |
| Bitmasks.WithBitsDenote | src/bitmask.cpp:95-106 | Inserting or extending an entry adds exactly the given positions |
| Bitmasks.WithOwnBits | src/bitmask.cpp:95-106 | Inserting the bits of an entry again changes nothing |
| Bitmasks.WithoutBitsDenote | src/bitmask.cpp:68-93 | Clearing an entry, and erasing it when it becomes empty, removes exactly the given positions |
| Bitmasks.ListHas | src/bitmask.cpp:186-193 | The list has exactly the positions of the set in ascending order |
| Bitmasks.Bitmask.GetWordMask | src/bitmask.cpp:141-150 | The bits of one word |
| Bitmasks.Bitmask.SetBits | src/bitmask.cpp:95-106 | Adds the bits of the word size; the list stays sorted without empty entries |
| Bitmasks.Bitmask.ClearBits | src/bitmask.cpp:87-93 | Removes bits of one word; the list stays sorted without empty entries |
| Bitmasks.Bitmask.SetAll | src/bitmask.cpp:134-137 | On an empty mask, all positions of the first words |
| Bitmasks.Bitmask.And | src/bitmask.cpp:27-36 | Intersection, also of a mask with itself |
| Bitmasks.Bitmask.Or | src/bitmask.cpp:38-45 | Union, also of a mask with itself |
| Bitmasks.Bitmask.GetBitposList | src/bitmask.cpp:186-193 | All positions, each once, ascending |
| Bitmasks.Bitmask.GetNumBitsSet | src/bitmask.cpp:54-60 | The length of that list |
| Bitmasks.Bitmask.GetBitpos | src/bitmask.cpp:158-175 | For index k the k-th position of that list |
| Bitmasks.Bitmask.First | src/bitmask.cpp:177-184 | The first position of that list |

## Left out

- Words: except in `Condition`, 64-bit words are sets of bit positions, so shifts by the full word width are not part
  of this model; the matrix has no blocks of 64 columns, and the cell index of a row is its number.
- AddEquation: requires the columns of an equation in strictly ascending order, as every caller passes them; what a
  repeated column does to a row is `XorRow` and `StoredPivotRight`.
- Standard library: `std::sort` is modelled as any sort (rows with equal pivots in any order), iterators into the
  change log, the recency list and `masks_` as positions, hashing of keys as equality.
- Copies: `BitsliceData` and the elements of the search stack are values; deep copies of matrices (`operator=`) and
  destructors are not part of this model.
- PropagateConditions: the matrix is reduced, as every addition that succeeds leaves it, and every bit pair of a row has
  a condition.
- GetProbability: the value is an integer logarithm instead of a `float`.
- Update: exact for steps up to the priority limit; entries above it are dropped by the program, so that a step added
  with an explicit priority above the default limit is left out by `UpdateAll`, too. Step and bit numbers
  fit 16 bits, so the packed comparison of entries is the lexicographic one. Linear steps are modelled on their own and
  do not take part in the worklist, nor do two-bit conditions.
- Slots: the slots of a step bit are distinct stored conditions, at most 16 of them, of one to three bits, and
  slots with the same symmetry have the same size. Virtual, horizontal and constant proxies and aliasing are not part of
  this model.
- Complete: the number of trials in a pass and the number of passes are bounded by a parameter, and the answer says
  whether the loop ended within it. The variants without a mask start from an empty mask and do nothing.
- AddGuess: a state passed to it is propagated and free of contradictions, as a state of the search is.
- Run: takes operations that are possible whichever states are stored; `Perform` asks this of the state on top alone.
- Backtrack: the replaying `Update` calls stand in assertions of the program and are modelled as always executed, as
  is the one in backtrack_to_other_choice. `get_pop_back` has no caller and is left out.
- BackTrack: the program asserts a stack with guesses; the model covers the stack without guesses, too.
- GuessBit: the random draw is a parameter. A state to guess in is propagated and free of contradictions, and the
  conditions to guess have several values.
- Explore: the choice of bits to guess and of complete checks is a parameter. Restarts, critical bits, look-ahead scores,
  callbacks, two-bit masks and time limits of the search loop are not part of this model.
- CompleteCheck: the strategy that leaves backtracking to a callback is excluded.
- AddWords: beyond 128 words the bytes of a slice wrap; see `AddsUpTo128`.
- RoundUpdate: the Boolean functions, the sigma functions and the message expansion of SHA-2 are taken as given words.
- SetAll: on a mask with entries is excluded.
- Condition: `Filter0`, `Filter1` and `Filter2` use another bit layout and are left out.
- Caches: dump files, `CacheManager`, `Clear` and `LoadDump`, which clear the map but not the recency list; the caches
  for probabilities and two-bit conditions, which would only repeat the one for propagation.
- `TransferLinearConditions` and `Overlap`, floating-point probability matrices, two-bit conditions and their degrees.
- Input and output: XML configuration, command line, log files, printing, the text reader, the other examples.
