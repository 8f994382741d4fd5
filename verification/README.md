# Impression tracking engine of compose-impression

This project models `DefaultImpressionState`, the engine behind the
`Modifier.impression` API. Layout callbacks report each keyed element's size,
its window bounds and the viewport rectangle. An element that covers at least
`visibleRatio` of its own area starts a visible-since timer. A polling loop
promotes every key whose timer is at least `impressionDurationMs` old and that
is not yet impressed: it records the key with the current loop count and emits
it on the impression flow.

The model is pure. The state is an immutable `State` value with three parts:
- the visible table, as the sequence of its entries in insertion order;
- the sent table, as a map;
- the loop counter, which starts at -1.

Each public operation is a function from state to state. The clock is an
explicit `now` argument. One iteration of the `while (true)` loop is `Step`,
which returns the new state and the keys it emits, in order. `Trace.Run`
applies any sequence of reports, disposals, iterations, timer restarts and
clears.

Modules:
- `Wrappers`: `Option`.
- `Sequences`: duplicate-freedom and order-preserving selection on plain
  sequences.
- `Geometry`: the visibility test of `onLayoutCoordinatesChange`, with the
  `Int` area product wrapping modulo 2^32.
- `VisibleTable`: the insertion-ordered visible map and its `getOrPut` and
  `remove`.
- `ImpressionState`: the engine state, its operations and the loop
  iteration.
- `Trace`: runs of events, and the fire-once property between clears.
- `Scenarios`: the library's unit-test scenarios replayed on the model.

Behaviour of the code that the model keeps as written:

- **Promoted keys stay visible.** The loop never removes a promoted key from
  the visible table. A key can therefore be in both tables at once, and no
  invariant excludes that.
- **`clearSentItems` clears only the sent table.** The visible table is kept,
  so a key whose old timer is still due is impressed again by the very next
  iteration (`ClearMakesKeysEligibleAgain`).
- **Zero element area.** The ratio divides a `Float` by an `Int`. An element
  with zero pixel area therefore passes when its overlap area is positive
  (x / 0 is +Infinity) and fails when the overlap is empty (0 / 0 is NaN).
- **The unit tests use another revision of the class.** They call
  `impressingItem`, `impressedItem`, `clear()` and `clearLifecycleState`, which
  this code does not have. The scenarios restate each test for the code as
  written. For example, an impressed key is still in the visible table
  afterwards.
- **Test clock.** The tests' `advanceTimeBy(t)` sets the time producer to `t`
  rather than adding `t`. The scenarios use the clock readings the code
  would see.

## Model

| member | source | states |
|---|---|---|
| Geometry.WrapInt32 | compose-impression/src/main/java/tv/abema/compose/impression/impression.kt:166 | the result is the 32-bit `Int` congruent to the input modulo 2^32, and equals the input whenever the input fits in an `Int` |
| Geometry.ComponentArea | compose-impression/src/main/java/tv/abema/compose/impression/impression.kt:166 | the area is the `Int` congruent to `size.width * size.height` modulo 2^32, which is exactly Kotlin's wrapped product, and equals the true product whenever that fits in an `Int` |
| Geometry.HugeElementAreaWrapsToZero | compose-impression/src/main/java/tv/abema/compose/impression/impression.kt:166 | a 65536 x 65536 element's area overflows to 0 |
| Geometry.VisibleIffOverlapCoversRatio | compose-impression/src/main/java/tv/abema/compose/impression/impression.kt:166-179 | for a positive element area, the element passes exactly when both overlap extents are non-negative and the overlap area is at least `visibleRatio` times the element area (division-free form) |
| Geometry.NoOverlapNotVisible | compose-impression/src/main/java/tv/abema/compose/impression/impression.kt:167-175 | an element that misses the viewport on either axis (negative overlap height or width) never passes, whatever its size or the threshold |
| Geometry.RatioBoundaryInclusive | compose-impression/src/main/java/tv/abema/compose/impression/impression.kt:177-179 | an overlap covering exactly `visibleRatio` of the element passes, and any strictly smaller overlap fails |
| Geometry.VisibleMonotoneInRatio | compose-impression/src/main/java/tv/abema/compose/impression/impression.kt:179 | lowering the threshold never turns a passing element into a failing one |
| Geometry.VisibleSymmetric | compose-impression/src/main/java/tv/abema/compose/impression/impression.kt:167-174 | the verdict depends only on the intersection, so swapping element bounds and viewport changes nothing |
| Geometry.FullOverlapVisible | compose-impression/src/main/java/tv/abema/compose/impression/impression.kt:166-179 | an element whose bounds coincide with the viewport, with a pixel area equal to the rectangle's area, passes at every threshold up to 1 |
| Geometry.ZeroAreaVisibleIffOverlapPositive | compose-impression/src/main/java/tv/abema/compose/impression/impression.kt:177-179 | with a zero pixel area the element passes exactly when the overlap has non-negative extents and a positive area (Float +Infinity versus NaN) |
| VisibleTable.Get | compose-impression/src/main/java/tv/abema/compose/impression/impression.kt:127 | the lookup is absent exactly when the key has no entry; a present result is the start time of the key's entry |
| VisibleTable.Remove | compose-impression/src/main/java/tv/abema/compose/impression/impression.kt:199-201 | removes exactly the key: the key set loses it, every other key keeps its start time, the remaining entries keep their order (the result is a subsequence of the table), a missing key leaves the table unchanged, and keys stay distinct |
| VisibleTable.GetOrPut | compose-impression/src/main/java/tv/abema/compose/impression/impression.kt:180-182 | the key set gains the key; an existing entry and its start time are kept unchanged; a new key is appended last with start time `now`, as in an insertion-ordered map; other keys are untouched and keys stay distinct |
| VisibleTable.Restamp | compose-impression/src/main/java/tv/abema/compose/impression/impression.kt:194-196 | the same keys in the same order, each now started at `now`, keys still distinct |
| ImpressionState.OnDispose | compose-impression/src/main/java/tv/abema/compose/impression/impression.kt:199-201 | forgets the key's timer and nothing else: other timers and their order, the sent table and the counter are unchanged, validity is kept |
| ImpressionState.ClearSentItems | compose-impression/src/main/java/tv/abema/compose/impression/impression.kt:188-190 | the sent table becomes empty; the visible table and the counter are kept; validity is kept |
| ImpressionState.SetCurrentTimeToVisibleItemStartTime | compose-impression/src/main/java/tv/abema/compose/impression/impression.kt:192-197 | every visible key restarts at the clock reading; keys and their order, the sent table and the counter are kept |
| ImpressionState.OnLayoutCoordinatesChange | compose-impression/src/main/java/tv/abema/compose/impression/impression.kt:156-186 | an impressed key is ignored; otherwise a passing key without a timer is appended last with a timer started `now`, a passing key with a timer changes nothing, and a failing key loses its timer exactly as `onDispose`; other keys, the sent table and the counter never change; validity is kept |
| ImpressionState.Due | compose-impression/src/main/java/tv/abema/compose/impression/impression.kt:144-146 | an entry is selected exactly when it is in the table, started at or before `now - impressionDurationMs` and its key is not sent |
| ImpressionState.DueDistinct | compose-impression/src/main/java/tv/abema/compose/impression/impression.kt:144-146 | selecting from a table with distinct keys yields distinct keys |
| ImpressionState.DueInTableOrder | compose-impression/src/main/java/tv/abema/compose/impression/impression.kt:144-149 | the selected keys are a subsequence of the table's keys; since new keys are appended (`GetOrPut`) and removals keep the order of the rest (`Remove`), keys are emitted in the order they became visible |
| ImpressionState.Record | compose-impression/src/main/java/tv/abema/compose/impression/impression.kt:147-148 | the sent table gains exactly the selected keys, each filed under itself with the given loop count; other entries are unchanged |
| ImpressionState.Step | compose-impression/src/main/java/tv/abema/compose/impression/impression.kt:141-150 | the counter goes up by one; the visible table is unchanged; old sent entries are kept; emitted keys were unsent and visible, and are recorded under the new count; nothing else is recorded; keys are emitted in the visible table's order; on a valid state the emitted keys are exactly the due ones, each once, and validity is kept |
| ImpressionState.RepeatedVisibleReportKeepsTimer | compose-impression/src/main/java/tv/abema/compose/impression/impression.kt:180-182 | a second passing report, at any time, leaves the state as the first report left it: the timer is armed once |
| ImpressionState.LossRemovesTimer | compose-impression/src/main/java/tv/abema/compose/impression/impression.kt:162-184 | a report that fails the geometry test leaves an unsent key without a timer, whatever it had before |
| ImpressionState.ReArmAfterLoss | compose-impression/src/main/java/tv/abema/compose/impression/impression.kt:178-181 | a passing report of an unsent key with no timer, or one just disposed, starts its timer at the report's own time |
| ImpressionState.NotImpressedBeforeDuration | compose-impression/src/main/java/tv/abema/compose/impression/impression.kt:144-146 | a key visible for less than `impressionDurationMs` is neither emitted nor recorded |
| ImpressionState.ZeroDurationImpressesStartedKeys | compose-impression/src/main/java/tv/abema/compose/impression/impression.kt:144-149 | with a zero duration every unsent key whose timer started by `now` is emitted and recorded under the new loop count |
| ImpressionState.ClearMakesKeysEligibleAgain | compose-impression/src/main/java/tv/abema/compose/impression/impression.kt:188-190 | after clearing, a sent key whose timer is still due is emitted again, under a strictly larger loop count than before |
| Trace.Apply | compose-impression/src/main/java/tv/abema/compose/impression/impression.kt:139-201 | only loop iterations emit; nothing but a clear drops a sent entry or changes its count; emitted keys were unsent and are recorded; validity is kept and a single event emits no key twice |
| ImpressionState.InitValid | compose-impression/src/main/java/tv/abema/compose/impression/impression.kt:127-134 | a freshly constructed engine (empty tables, counter -1) is valid |
| Trace.RunKeepsValid | compose-impression/src/main/java/tv/abema/compose/impression/impression.kt:139-201 | any sequence of events, clears included, keeps a valid state valid |
| Trace.ReachableValid | compose-impression/src/main/java/tv/abema/compose/impression/impression.kt:127-201 | every state reachable from a freshly constructed engine is valid |
| Trace.LoopCountGrows | compose-impression/src/main/java/tv/abema/compose/impression/impression.kt:142-148 | no event lowers the counter, and every key an event emits is stamped above the previous counter |
| Trace.FireOnce | compose-impression/src/main/java/tv/abema/compose/impression/impression.kt:141-164 | over any run without a clear: no key is emitted twice; no key impressed before the run is emitted; old impressions keep their counts; each emitted key is recorded under a count from within the run; nothing else is recorded; validity is kept |
| Scenarios.TestElementVisible | compose-impression/src/test/java/tv/abema/compose/impression/DefaultImpressionStateTest.kt:39-40 | the tests' 10 x 10 element at `Rect(0, 0, 10, 10)` passes at every threshold up to 1 |
| Scenarios.SmallOverlapNotVisible | compose-impression/src/test/java/tv/abema/compose/impression/DefaultImpressionStateTest.kt:85-86 | the same element with a 3 x 3 overlap (ratio 0.09) fails at the default threshold 0.5 |
| Scenarios.FirstReport | compose-impression/src/main/java/tv/abema/compose/impression/impression.kt:180-182 | the first passing report on a fresh engine yields one timer, started at the report time, with nothing sent and the counter at -1 |
| Scenarios.ImpressingScenario | compose-impression/src/test/java/tv/abema/compose/impression/DefaultImpressionStateTest.kt:39-46 | reported at 0 and polled at 500: nothing is emitted or recorded, and the timer from 0 is still running |
| Scenarios.ImpressedScenario | compose-impression/src/test/java/tv/abema/compose/impression/DefaultImpressionStateTest.kt:60-67 | reported at 0 and polled at 1000: the key is emitted and recorded under loop 0, and it keeps its visible entry |
| Scenarios.CaptureNextImpressionScenario | compose-impression/src/test/java/tv/abema/compose/impression/DefaultImpressionStateTest.kt:155-162 | the impression carries the counter read right after the report, plus one |
| Scenarios.NotImpressedWhenOutScenario | compose-impression/src/test/java/tv/abema/compose/impression/DefaultImpressionStateTest.kt:81-90 | a failing report at 500 empties the visible table, and the next iteration (whose clock again reads 500) emits and records nothing |
| Scenarios.NotImpressedWhenDisposedScenario | compose-impression/src/test/java/tv/abema/compose/impression/DefaultImpressionStateTest.kt:104-112 | a disposal at 500 empties the visible table, and the next iteration (whose clock again reads 500) emits and records nothing |
| Scenarios.MultipleImpressScenario | compose-impression/src/test/java/tv/abema/compose/impression/DefaultImpressionStateTest.kt:127-141 | two keys reported at 0 are emitted by the same iteration in report order, both under loop 0 |
| Scenarios.NotImpressedTwiceScenario | compose-impression/src/test/java/tv/abema/compose/impression/DefaultImpressionStateTest.kt:177-191 | after the impression, hiding and re-showing the key changes nothing, later iterations emit nothing, and the record stays at loop 0 |
| Scenarios.ClearSentItemsScenario | compose-impression/src/test/java/tv/abema/compose/impression/DefaultImpressionStateTest.kt:205-219 | after a clear and a re-report at 1000, the key keeps its old timer from 0, and iteration 2 (clock 2000) emits it again and records it under loop 2 |
| Scenarios.ZeroDurationScenario | compose-impression/src/test/java/tv/abema/compose/impression/DefaultImpressionStateTest.kt:238-245 | with a zero duration the key is emitted and recorded under loop 0 by the first iteration |
| Scenarios.CompleteVisibleScenario | compose-impression/src/test/java/tv/abema/compose/impression/DefaultImpressionStateTest.kt:250-272 | with threshold 1 the tests' 10 x 10 element, whose bounds coincide with the viewport, passes the geometry test because the comparison is `>=`, and is impressed under loop 0 |

## Left out

- The coroutine launcher, `repeatOnLifecycle` and the secondary `Lifecycle` constructor are left out. The loop is modelled one iteration at a time (`Step`), and the caller decides when iterations happen.
- `delay(checkIntervalMs)` only paces the loop. `checkIntervalMs` is kept in `Config` but has no effect on any single iteration.
- The `MutableSharedFlow` is replaced by the list of emitted keys. Suspension in `emit`, buffering and subscribers are out of scope.
- `currentTimeProducer` and `System.currentTimeMillis()` are replaced by the explicit `now` argument.
- Concurrency is left out. Callbacks and loop iterations are modelled as one sequential interleaving of events (`Trace.Run`), with no locking.
- `Float` rounding is left out. Coordinates, the ratio and the `Int`-to-`Float` conversion of the area are exact reals. NaN or infinite coordinates are not modelled.
- The `Long` wrap-around of `time - impressionDurationMs` and of the loop counter is not modelled. Both are unbounded integers.
- The `visibleItems` and `alreadySentItems` getters are not modelled separately. They are copies of the two tables, which are the `State` fields.
- The Compose glue is left out because it is UI wiring: `Modifier.impression`, `LocalImpressionState`, `ProvideImpressionState`, `rememberImpressionState` and `rememberDefaultImpressionState` (lines 30-95). The `ImpressionState` interface (lines 210-221) only declares the modelled operations.
- The sample app's `MainActivity` and the test harness (`impressionTest`, virtual-time dispatching) are not part of this model.
- ImpressionState.Step: the statement that the emitted keys are exactly the due keys, each once, is made only for valid states. A valid state has distinct visible keys, as a map guarantees, and every reachable state is valid (`Trace.ReachableValid`).
- Trace.FireOnce: holds only for runs without `clearSentItems`. After a clear, keys are deliberately re-impressed (`ClearMakesKeysEligibleAgain`).
