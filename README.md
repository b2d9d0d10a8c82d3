# RSP4JS window operator and RSP-QL parser in Dafny

This project models two parts of RSP4JS, an RDF stream processor.

**The C-SPARQL window operator (`CSPARQLWindow`).** It cuts a stream of timestamped quads into sliding windows of a fixed width and slide. Each window instance is held with its `QuadContainer` in `active_windows`. The operator then:
- drops or buffers late events;
- moves a watermark, evicting windows with `close <= watermark - max_delay`;
- emits window contents on the `RStream` output according to a report strategy.

**The RSP-QL header parser (`RSPQLParser`).** It turns a query into:
- the SPARQL text, with the RSP-QL lines removed and `WINDOW` rewritten to `GRAPH`;
- the output operator from the `REGISTER` line;
- one window definition per match of a `FROM NAMED WINDOW … [RANGE w STEP s]` line, with its names resolved through the `PREFIX` lines that precede it.

The repository carries two materially different snapshots of the window operator. Each is modelled as its own class over shared data types.

- `src/operators/s2r.ts` (modules `SrcEngine`, `SrcModel`, `SrcProps`):
  - `add` raises the time cursor before the lateness test;
  - `scope` is a do-while;
  - late events are replayed in the insertion order of the buffer's keys;
  - every processed event adds a new pending-trigger object;
  - `emit_on_trigger` looks content up by object identity.

  A pending trigger is always a fresh `WindowInstance`, never a key of `active_windows`. So in every reachable state emission finds no content and changes nothing (`SrcProps.EmitNothing`), and watermark processing only evicts (`SrcProps.CheckWatermarkEvicts`). The model keeps the general emission rules (time-driven cursor moves, `has_triggered`) for states where a pending object is a key, and proves this snapshot's behaviour as a consequence.
- `dist/operators/s2r.js` (modules `DistEngine`, `DistModel`, `DistProps`):
  - `add` tests lateness before the cursor moves, and files a late event under `this.time`;
  - pending triggers are de-duplicated by span;
  - content is looked up by bounds and `has_triggered`, and must be non-empty to be emitted;
  - `process_late_elements` replays buckets in ascending timestamp order and is a no-op on an empty buffer.

## Modelling

Each snapshot is modelled in three layers:
- **The class.** `CSPARQLWindow` holds `WindowInstance` and `QuadContainer` objects in a map from references to references. Its methods mutate that map, the pending-trigger sequence, the late buffer and the cursor fields in place.
- **A value view of the state** (`State()`): windows keyed by `Span(open, close)`, pending instances, the late buffer and the emitted contents.
- **Pure transition functions** in `SrcModel` / `DistModel`. Each method is proved to move `State()` exactly as its transition function says (`ensures State() == M.F(old(State()))`). The properties the source promises are then lemmas about those functions.

How the source's data is represented:
- JavaScript `Set`s and `Map`s whose iteration order is observable are duplicate-free sequences: the pending triggers, the late-buffer buckets and the source snapshot's late-buffer key order.
- Quads are a type parameter with equality.
- Emitter output is a ghost sequence of content snapshots, appended on each `emit('RStream', …)`.
- Timestamps, width, slide and max_delay are integers, with `width > 0` and `slide > 0`.

Loops with their invariants:
- the window-insertion loop of `process_event`;
- the eviction loops;
- the `getContent` search;
- the structural searches of `computeWindowIfAbsent`, `get_quads_from_active_windows` and `hasWindowInstance`;
- the emission `forEach` that deletes while iterating;
- the scoping loop;
- the replay of the late buffer and the sorting of its keys.

The parser's two files (`src/rspql.ts` and its compiled twin `dist/rspql.js`) have the same logic and share one module, `RspQL`, supported by:
- `JsText`: `trim`, `startsWith`, `replace`, `split(/\r?\n/)`, `join` and `Number`;
- `JsRegex`: the three global regular expressions as sequences of atoms, with a matcher proved sound and complete against a declarative acceptance relation, and the `matchAll` loop.

`ParseLines` is the value meaning of the parser's line loop. `RspQL.Parse` is the imperative parser, proved to build exactly that value.

## Model

| member | source | states |
|---|---|---|
| WindowCore.CeilDiv | src/operators/s2r.ts:255 | `Math.ceil(n / d)` for n >= 0: the least q with n <= q * d |
| WindowCore.CSup | dist/operators/s2r.js:295 | c_sup = ceil(\|t - t0\| / slide) · slide is a multiple of slide in [\|t - t0\|, \|t - t0\| + slide) |
| WindowCore.CSupIs | dist/operators/s2r.js:295 | c is c_sup exactly when c is a multiple of slide in [\|t - t0\|, \|t - t0\| + slide), so these properties determine it uniquely |
| WindowCore.Config.InstanceSpan | dist/operators/s2r.js:294-298 | the window instance for t is as wide as the operator, and its close is a multiple of slide within one slide above \|t - t0\| |
| WindowCore.Config.InstanceSpanIs | dist/operators/s2r.js:294-298 | a span is the instance for t exactly when it has the operator's width and closes at c_sup: a multiple of slide within one slide above \|t - t0\| |
| WindowCore.ComputeReport | src/operators/s2r.ts:361-369 | `compute_report` implies the emission policy; it differs from `emit_on_trigger`'s test only under OnWindowClose for a window closing exactly at the timestamp (strict versus non-strict) |
| WindowCore.SetAdd | src/operators/s2r.ts:208-211 | `Set.add` on an insertion-ordered set keeps the old elements in order as a prefix, adds at most one position, afterwards holds the element and nothing else new, and keeps the set duplicate-free |
| WindowCore.SetDeleteSplit | src/operators/s2r.ts:332 | `Set.delete` removes exactly the element and keeps the order of the rest |
| WindowCore.WindowInstance.constructor | src/operators/s2r.ts:29-33 | a new instance has the given bounds and has not triggered |
| WindowCore.WindowInstance.IsSame | src/operators/s2r.ts:52-54 | `is_same` holds exactly when the two instances have equal bounds; the `has_triggered` flag and the object identity are ignored |
| WindowCore.WindowInstance.SetTriggered | dist/operators/s2r.js:86-88 | `set_triggered` sets the flag |
| WindowCore.QuadContainer.constructor | src/operators/s2r.ts:69-72 | a container holds the given elements and change timestamp |
| WindowCore.QuadContainer.Add | src/operators/s2r.ts:77-88 | `add` makes the elements old ∪ {quad}, sets the change timestamp by plain assignment, and `len` grows by 1, or by 0 for a duplicate |
| WindowMaps.EnsureWindowSpec | src/operators/s2r.ts:425-441 | on the span view, `computeWindowIfAbsent` adds at most one span, never replaces a window, and gives a new span an empty container |
| WindowMaps.ScopeFromSpec | dist/operators/s2r.js:413-420 | the scoping loop from o adds exactly the absent spans [o + k·slide, … + width) with open <= t, and keeps every window it finds |
| WindowMaps.AlignedExample | src/operators/s2r.ts:375-382 | from -6 with width 10 and slide 2 up to 4, the loop visits exactly [-6,4), [-4,6), [-2,8), [0,10), [2,12) and [4,14) |
| WindowMaps.InsertGrows | src/operators/s2r.ts:236-243 | inserting an event into windows that extend `W'` loses and shrinks no window of `W'`, leaves its windows not covering t as they were, and puts the event into every covering window |
| WindowMaps.ContentSpanUnique | src/operators/s2r.ts:147-163 | when all windows have one width, the `getContent` candidate with the smallest close is unique |
| WindowLoops.InsertLoop | src/operators/s2r.ts:232-243 | the event joins exactly the windows with open <= t < close (their change timestamp becomes t), the other containers are untouched, and `toEvict` is exactly the windows with close <= t |
| WindowLoops.CollectEvictable | src/operators/s2r.ts:276-285 | the eviction set is exactly the windows with close <= watermark - max_delay |
| WindowLoops.RemoveAll | src/operators/s2r.ts:219-224 | `evict_windows` deletes exactly the given keys |
| WindowLoops.SmallestCover | src/operators/s2r.ts:148-157 | the search finds a window with open <= t <= close and the smallest close, or none exactly when no window covers t |
| WindowLoops.ContentOfCover | dist/operators/s2r.js:168-185 | the found key is the content window of the value view, and none is found exactly when no span covers t |
| Sorting.SortedKeys | dist/operators/s2r.js:443 | the late-buffer timestamps in strictly ascending order, each once |
| Sorting.SortedUnique | dist/operators/s2r.js:443 | two strictly ascending sequences with the same elements are equal, so the replay order is determined |
| Sorting.InsertSorted | dist/operators/s2r.js:443 | inserting a new timestamp keeps the sequence strictly ascending and adds exactly it |
| Sorting.SortTimestamps | dist/operators/s2r.js:443 | sorting the buffer's entries by timestamp yields `SortedKeys` of its key set |
| DistEngine.ComputeWindowIfAbsent | dist/operators/s2r.js:534-545 | the map is unchanged if some key has the same bounds, otherwise exactly one entry with a fresh empty container is added |
| DistEngine.GetQuadsFromActiveWindows | dist/operators/s2r.js:482-489 | returns a container whose key has the target's bounds and flag, or nothing exactly when no key matches |
| DistEngine.LookupCoupled | dist/operators/s2r.js:482-489 | the structural lookup agrees with `DistModel.Lookup` on the span view |
| DistEngine.HasWindowInstance | dist/operators/s2r.js:496-503 | true exactly when some pending instance has the same bounds |
| DistEngine.CSPARQLWindow.constructor | dist/operators/s2r.js:146-162 | the operator starts with cursor and watermark at start_time, no windows, no pending triggers, an empty late buffer and no output |
| DistEngine.CSPARQLWindow.GetContent | dist/operators/s2r.js:168-185 | the container of the covering window with the smallest close (close inclusive), or none exactly when no window covers t |
| DistEngine.CSPARQLWindow.Scope | dist/operators/s2r.js:413-420 | the windows become `ScopeFrom` from c_sup - width (while loop); containers already there stay |
| DistEngine.CSPARQLWindow.EvictWindows | dist/operators/s2r.js:243-248 | the keys given are deleted and the span view loses exactly the windows with close <= bound |
| DistEngine.CSPARQLWindow.EmitOnTrigger | dist/operators/s2r.js:343-384 | pending becomes `Kept` and the output grows by `Fired`, in the order the pending set is visited |
| DistEngine.CSPARQLWindow.EvictAndTriggerOnWatermark | dist/operators/s2r.js:317-337 | emission at the watermark, then deletion of the windows selected before it (`EvictAndTrigger`) |
| DistEngine.CSPARQLWindow.UpdateWatermark | dist/operators/s2r.js:304-313 | the watermark rises only to a strictly greater value, which then triggers and evicts |
| DistEngine.CSPARQLWindow.GetWindowInstance | dist/operators/s2r.js:294-298 | a fresh, untriggered instance with span [c_sup - width, c_sup) |
| DistEngine.CSPARQLWindow.AddWindowInstanceToPendingTriggers | dist/operators/s2r.js:254-264 | the instance for t is appended unless one with its span is pending (`AddPending`) |
| DistEngine.CSPARQLWindow.ProcessEvent | dist/operators/s2r.js:271-288 | scoping, insertion, watermark update and pending registration as `DistModel.ProcessEvent`; the returned set is the windows with close <= t |
| DistEngine.CSPARQLWindow.IfEventLate | dist/operators/s2r.js:212-214 | late exactly when the cursor is past t |
| DistEngine.CSPARQLWindow.BufferLateEvent | dist/operators/s2r.js:221-237 | drops the event when time - ts > max_delay, otherwise adds it to the bucket of ts (`BufferLate`) |
| DistEngine.CSPARQLWindow.Add | dist/operators/s2r.js:192-206 | `add` moves the state exactly as `DistModel.Add` |
| DistEngine.CSPARQLWindow.ProcessLateElements | dist/operators/s2r.js:437-456 | replay of the buckets in ascending timestamp order via `process_event`, then an empty buffer (`ProcessLate`) |
| DistEngine.CSPARQLWindow.GetCurrentWatermark | dist/operators/s2r.js:389-391 | returns the watermark |
| DistEngine.CSPARQLWindow.SetCurrentTime | dist/operators/s2r.js:462-464 | only the cursor changes |
| DistEngine.CSPARQLWindow.SetMaxDelay | dist/operators/s2r.js:465-467 | only max_delay changes |
| DistEngine.CSPARQLWindow.SetCurrentWatermark | dist/operators/s2r.js:473-475 | only the watermark changes, with no eviction or emission |
| DistModel.KeptIn | dist/operators/s2r.js:377 | emission only removes pending instances |
| DistModel.KeptUnique | dist/operators/s2r.js:377 | removing released instances keeps pending spans unique |
| DistModel.UniqueIff | dist/operators/s2r.js:258-263 | the recursive uniqueness of pending spans means no two pending instances share a span |
| DistModel.ProcessEventEvict | dist/operators/s2r.js:281-284 | evicting the returned set removes exactly the windows with close <= t from the state after processing |
| DistProps.ScopeSpec | dist/operators/s2r.js:413-420 | `scope` keeps every window, gives new spans an empty container, adds exactly the aligned spans with open <= t, does nothing when c_sup - width > t, and changes nothing but the windows |
| DistProps.ScopeSixWindows | dist/operators/s2r.js:413-420 | width 10, slide 2, t0 0: `scope(4)` on an empty operator opens exactly [-6,4) through [4,14) |
| DistProps.ScopeWidth | dist/operators/s2r.js:417 | every window scoping creates has the operator's width |
| DistProps.AppendUnique | dist/operators/s2r.js:262 | appending an instance with a new span keeps pending spans unique |
| DistProps.AddPendingInv | dist/operators/s2r.js:254-264 | registering a pending instance preserves the reachable-state invariant |
| DistProps.AddPendingIdempotent | dist/operators/s2r.js:254-264 | after registration the span for t is pending; registration is a no-op if it already was, and registering twice equals registering once |
| DistProps.EvictAndTriggerInv | dist/operators/s2r.js:317-337 | watermark eviction and emission preserve the invariant and leave the late buffer alone |
| DistProps.EvictAndTriggerWindows | dist/operators/s2r.js:321-336 | exactly the windows with close > watermark - max_delay survive, unchanged; cursor, watermark and late buffer stay |
| DistProps.WatermarkExample | dist/operators/s2r.js:304-337 | with max_delay 5, raising the watermark to 25 evicts [0,10) and [5,15), and raising it to 10 evicts neither |
| DistProps.UpdateWatermarkInv | dist/operators/s2r.js:304-313 | the watermark update preserves the invariant and the late buffer |
| DistProps.UpdateWatermarkMonotone | dist/operators/s2r.js:304-313 | the watermark becomes max(watermark, t), never decreases, and nothing changes unless t exceeds it |
| DistProps.ProcessEventInv | dist/operators/s2r.js:271-288 | `process_event` preserves the invariant and the late buffer |
| DistProps.ProcessEventWindows | dist/operators/s2r.js:271-285 | after processing, every window is one the scope-and-insert step produced, with the same content |
| DistProps.AddInv | dist/operators/s2r.js:192-206 | `add` preserves the invariant |
| DistProps.AddLate | dist/operators/s2r.js:196-199 | a late event changes only the late buffer; it is filed under the current time, so it is never dropped when max_delay >= 0, and always dropped when max_delay < 0 |
| DistProps.AddInOrder | dist/operators/s2r.js:201-205 | an in-order event sets the cursor to t, leaves the late buffer alone, leaves only windows closing after t, is in every surviving window opened by t, and leaves windows opening after t as they were |
| DistProps.ReplayBucketInv | dist/operators/s2r.js:445-452 | replaying a bucket preserves the invariant and the late buffer |
| DistProps.ReplayInv | dist/operators/s2r.js:444-453 | replaying buckets preserves the invariant and the late buffer |
| DistProps.ProcessLateInv | dist/operators/s2r.js:437-456 | `process_late_elements` preserves the invariant and empties the late buffer |
| DistProps.InitialBelow | dist/operators/s2r.js:146-162 | the constructor's cursor and (empty) late buffer are at or below its watermark |
| DistProps.AddBelow | dist/operators/s2r.js:192-206 | `add` keeps the cursor and every late-buffer key at or below the watermark |
| DistProps.ProcessEventBelow | dist/operators/s2r.js:271-288 | an event at or below the watermark only scopes and inserts (and registers its pending instance); everything else stays |
| DistProps.ReplayBucketKeeps | dist/operators/s2r.js:445-452 | a bucket replayed at a key at or below the watermark changes only windows and pending instances |
| DistProps.ReplayBucketLands | dist/operators/s2r.js:445-452 | replaying a bucket at such a key loses and shrinks no window, leaves windows not covering the key as they were, and leaves every window covering the key holding every event of the bucket |
| DistProps.ReplayKeepsWatermark | dist/operators/s2r.js:443-453 | replaying buckets at keys at or below the watermark keeps watermark and cursor |
| DistProps.ReplayGrows | dist/operators/s2r.js:443-453 | later buckets never remove or shrink a window an earlier bucket left |
| DistProps.ProcessLateGrows | dist/operators/s2r.js:437-456 | the late sweep in a reachable state loses and shrinks no window and keeps watermark and cursor |
| DistProps.PrefixLands | dist/operators/s2r.js:444-452 | once a bucket is replayed, every window covering its key holds each of its events |
| DistProps.ReplayLands | dist/operators/s2r.js:443-453 | after all buckets, each event of a bucket is in every window that covered its key once that bucket was replayed; after the last bucket these are all windows covering its key |
| DistProps.ProcessLateLands | dist/operators/s2r.js:437-456 | `process_late_elements` leaves each buffered event in every such window, with the buckets in ascending key order |
| DistProps.LateReplayedAtCursor | dist/operators/s2r.js:198 | a late event buffered on an empty buffer lands, after the sweep, in every window covering the cursor at buffering time; a window of the old state not covering that cursor is untouched even if it covers the event's own timestamp |
| DistProps.ScenarioScope | dist/operators/s2r.js:413-420 | with width 10, slide 5 and t0 0, scoping 1 on an empty operator opens exactly [-5, 5) and [0, 10), both empty |
| DistProps.ScenarioInsert | dist/operators/s2r.js:274-283 | inserting q at 1 puts q into both windows with last change 1, and neither has expired at 1 |
| DistProps.ScenarioMark | dist/operators/s2r.js:304-310 | raising the watermark from 0 to 1 with max_delay 2 evicts and emits nothing |
| DistProps.ScenarioPending | dist/operators/s2r.js:254-264 | the instance for 1 is [-5, 5), and with nothing pending it is recorded |
| DistProps.ScenarioAdd | dist/operators/s2r.js:192-206 | on that operator, `add(q, 1)` opens [-5, 5) and [0, 10) holding q, makes [-5, 5) pending, and moves cursor and watermark to 1 |
| DistProps.ScenarioEmit | dist/operators/s2r.js:343-384 | emission at 23 over those windows fires [-5, 5) with {q} and keeps nothing pending; watermark 23 evicts both windows |
| DistProps.ScenarioWatermark | dist/operators/s2r.js:304-337 | after that `add`, `set_current_time(11)` and `update_watermark(23)` emit {q} once and leave no window and no pending instance |
| DistProps.TriggerScenarioEmits | src/operators/s2r.test.ts:179-198 | the same three calls on this snapshot emit exactly one content, {q}, and leave no window and no pending instance |
| DistProps.InitialInv | dist/operators/s2r.js:146-162 | the initial state satisfies the invariant |
| DistProps.FiredEmpty | dist/operators/s2r.js:357-359 | under NonEmptyContent and Periodic nothing fires and nothing leaves pending |
| DistProps.NeverEmits | dist/operators/s2r.js:343-384 | under NonEmptyContent and Periodic emission is the identity |
| DistProps.FiredNonEmpty | dist/operators/s2r.js:347-371 | every emitted content is non-empty and is the content of a pending instance that fires; at most one emission per pending instance |
| DistProps.KeptExactly | dist/operators/s2r.js:343-384 | an instance stays pending exactly when it was pending and is not released |
| DistProps.FiredLeaves | dist/operators/s2r.js:369-377 | an emitted instance leaves pending |
| DistProps.TriggeredNeverFires | dist/operators/s2r.js:362-371 | an instance whose flag is set is never emitted, under every policy |
| DistProps.OnCloseFiresClosed | dist/operators/s2r.js:349-353 | under OnWindowClose only windows with close <= t are emitted |
| SrcEngine.ComputeWindowIfAbsent | src/operators/s2r.ts:425-441 | returns the existing container of a key with the same bounds and leaves the map alone, or inserts exactly one fresh empty container under the given key |
| SrcEngine.CSPARQLWindow.constructor | src/operators/s2r.ts:127-142 | the operator starts with cursor and watermark at start_time and empty windows, pending triggers, late buffer and output |
| SrcEngine.CSPARQLWindow.GetContent | src/operators/s2r.ts:147-163 | the container of the covering window with the smallest close, or none exactly when no window covers t |
| SrcEngine.CSPARQLWindow.Scope | src/operators/s2r.ts:375-382 | the windows become those of `SrcModel.Scope` (do-while from c_sup - width); containers already there stay |
| SrcEngine.CSPARQLWindow.EvictWindows | src/operators/s2r.ts:219-224 | the keys given are deleted, the span view loses exactly the windows with close <= bound, and pending objects that were those keys stop being keys |
| SrcEngine.CSPARQLWindow.EmitOnTrigger | src/operators/s2r.ts:302-339 | windows, cursor, pending and output move as `SrcModel.EmitAll` over the pending objects in order |
| SrcEngine.CSPARQLWindow.CheckWatermark | src/operators/s2r.ts:274-296 | emission at the watermark, then deletion of the windows with close <= watermark - max_delay chosen before it (`CheckWatermark`) |
| SrcEngine.CSPARQLWindow.UpdateWatermark | src/operators/s2r.ts:264-269 | the watermark rises only to a strictly greater value, which then runs `check_watermark` |
| SrcEngine.CSPARQLWindow.GetWindowInstance | src/operators/s2r.ts:254-258 | a fresh, untriggered instance with span [c_sup - width, c_sup) |
| SrcEngine.CSPARQLWindow.AddPendingInstance | src/operators/s2r.ts:246 | a new pending object with the instance span for t is appended, whether or not one with that span is pending |
| SrcEngine.CSPARQLWindow.ProcessEvent | src/operators/s2r.ts:231-248 | scoping, insertion, watermark update and a new pending object as `SrcModel.ProcessEvent`; the returned set is the windows with close <= t |
| SrcEngine.CSPARQLWindow.IfEventLate | src/operators/s2r.ts:193-195 | late exactly when the cursor is past t |
| SrcEngine.CSPARQLWindow.BufferLateEvent | src/operators/s2r.ts:202-213 | drops the event when time - ts > max_delay, otherwise adds it to the bucket of ts, recording a new key at the end of the key order |
| SrcEngine.CSPARQLWindow.Add | src/operators/s2r.ts:170-187 | `add` moves the state exactly as `SrcModel.Add` |
| SrcEngine.CSPARQLWindow.ProcessLateElements | src/operators/s2r.ts:397-409 | replay of the buckets in key-insertion order via `process_event`, then an empty buffer (`ProcessLate`) |
| SrcEngine.CSPARQLWindow.GetCurrentWatermark | src/operators/s2r.ts:351-353 | returns the watermark |
| SrcEngine.CSPARQLWindow.SetCurrentTime | src/operators/s2r.ts:415-417 | only the cursor changes |
| SrcModel.EmitAllKeys | src/operators/s2r.ts:302-339 | emission never adds or removes windows |
| SrcModel.ProcessEventEvict | src/operators/s2r.ts:240-242 | evicting the returned set removes exactly the windows with close <= t from the state after processing |
| SrcModel.AddCases | src/operators/s2r.ts:172-182 | the cursor is raised first, so an event is late exactly when t is below the previous cursor; otherwise the cursor becomes t |
| SrcProps.ScopeSpec | src/operators/s2r.ts:375-382 | `scope` always leaves the window at c_sup - width, even when it opens after t. It adds exactly the other aligned spans with open <= t, keeps every window, gives new spans empty containers, and changes only the windows |
| SrcProps.ScopeSixWindows | src/operators/s2r.ts:375-382 | width 10, slide 2, t0 0: `scope(4)` on an empty operator opens exactly [-6,4) through [4,14) |
| SrcProps.ScopeWidth | src/operators/s2r.ts:379 | every window scoping creates has the operator's width |
| SrcProps.UnkeyIs | src/operators/s2r.ts:292-295 | deleting the keys with close <= bound makes exactly those pending objects stop being keys and changes nothing else about them |
| SrcProps.UnkeyUnkeyed | src/operators/s2r.ts:292-295 | when no pending object is a key, deleting keys leaves pending as it is |
| SrcProps.EmitAllQuiet | src/operators/s2r.ts:303-338 | when no pending object is released, emission keeps them all and changes nothing else |
| SrcProps.EmitNothing | src/operators/s2r.ts:305 | when no pending object is a key (every reachable state), `emit_on_trigger` changes nothing |
| SrcProps.NeverEmits | src/operators/s2r.ts:312-319 | under NonEmptyContent and Periodic `emit_on_trigger` changes nothing |
| SrcProps.KeptExactly | src/operators/s2r.ts:321-333 | an object stays pending exactly when it was pending and is not released |
| SrcProps.ReleasedLeaves | src/operators/s2r.ts:332 | a released object leaves pending |
| SrcProps.CheckWatermarkEvicts | src/operators/s2r.ts:274-296 | in a reachable state exactly the windows with close > watermark - max_delay survive, unchanged, and nothing else changes |
| SrcProps.WatermarkExample | src/operators/s2r.ts:264-296 | with max_delay 5, raising the watermark to 25 evicts [0,10) and [5,15), and raising it to 10 evicts neither |
| SrcProps.UpdateWatermarkMonotone | src/operators/s2r.ts:264-269 | the watermark becomes max(watermark, t), and nothing changes unless t exceeds it |
| SrcProps.UpdateWatermarkInv | src/operators/s2r.ts:264-296 | the watermark update preserves the invariant, changes only windows and watermark, and only removes windows |
| SrcProps.ProcessEventInv | src/operators/s2r.ts:231-248 | `process_event` preserves the invariant, keeps cursor, late buffer and output, and never lowers the watermark |
| SrcProps.ProcessEventWindows | src/operators/s2r.ts:233-244 | after processing, every window is one the scope-and-insert step produced, with the same content |
| SrcProps.BufferLateInv | src/operators/s2r.ts:202-213 | buffering preserves the invariant |
| SrcProps.AddInv | src/operators/s2r.ts:170-187 | `add` preserves the invariant |
| SrcProps.AddLate | src/operators/s2r.ts:178-181 | a late event is dropped (nothing changes) when time - t > max_delay, otherwise it joins the bucket of t, a new t goes to the end of the key order, and nothing else changes |
| SrcProps.AddInOrder | src/operators/s2r.ts:173-186 | an in-order event sets the cursor to t, leaves late buffer and output alone, leaves only windows closing after t, is in every surviving window opened by t, and leaves windows opening after t as they were |
| SrcProps.ReplayBucketInv | src/operators/s2r.ts:399-406 | replaying a bucket preserves the invariant and keeps cursor, late buffer and output |
| SrcProps.ReplayInv | src/operators/s2r.ts:398-407 | replaying buckets preserves the invariant and keeps cursor, late buffer and output |
| SrcProps.ProcessLateInv | src/operators/s2r.ts:397-409 | `process_late_elements` preserves the invariant, empties the late buffer, and keeps cursor and output |
| SrcProps.InitialBelow | src/operators/s2r.ts:127-142 | the constructor's cursor and (empty) late buffer are at or below its watermark |
| SrcProps.AddBelow | src/operators/s2r.ts:170-187 | `add` keeps the cursor and every late-buffer timestamp at or below the watermark |
| SrcProps.ProcessEventBelow | src/operators/s2r.ts:231-248 | an event at or below the watermark only scopes and inserts (and adds its pending object); everything else stays |
| SrcProps.ReplayBucketKeeps | src/operators/s2r.ts:399-406 | a bucket replayed at a timestamp at or below the watermark changes only windows and pending objects |
| SrcProps.ReplayBucketLands | src/operators/s2r.ts:399-406 | replaying a bucket at such a timestamp loses and shrinks no window, leaves windows not covering it as they were, and leaves every window covering it holding every event of the bucket |
| SrcProps.ReplayKeepsWatermark | src/operators/s2r.ts:398-407 | replaying buckets at timestamps at or below the watermark keeps the watermark |
| SrcProps.ReplayGrows | src/operators/s2r.ts:398-407 | later buckets never remove or shrink a window an earlier bucket left |
| SrcProps.ProcessLateGrows | src/operators/s2r.ts:397-409 | the late sweep in a reachable state loses and shrinks no window and keeps the watermark |
| SrcProps.PrefixLands | src/operators/s2r.ts:398-406 | once a bucket is replayed, every window covering its timestamp holds each of its events |
| SrcProps.ReplayLands | src/operators/s2r.ts:398-407 | after all buckets, each event of a bucket is in every window that covered its timestamp once that bucket was replayed; after the last bucket these are all windows covering it |
| SrcProps.ProcessLateLands | src/operators/s2r.ts:397-409 | `process_late_elements` leaves each buffered event in every such window, with the buckets in key-insertion order |
| SrcProps.LateReplayedAtOwnTime | src/operators/s2r.ts:178-181 | a kept late event buffered on an empty buffer lands, after the sweep, in every active window covering its own timestamp, and windows of the old state not covering it are untouched |
| SrcProps.NoOutput | src/operators/s2r.ts:302-339 | in every reachable state `add`, `update_watermark` and `process_late_elements` leave the output unchanged: this snapshot never emits |
| SrcProps.TriggerScenarioSilent | src/operators/s2r.test.ts:179-198 | width 10, slide 5, max_delay 2, OnWindowClose: after `add(q, 1)`, `set_current_time(11)` and `update_watermark(23)` nothing has been emitted |
| SrcProps.InitialInv | src/operators/s2r.ts:127-142 | the initial state satisfies the invariant |
| RspQL.ParsedQuery.constructor | src/rspql.ts:11-17 | defaults: SPARQL `Select * WHERE{?s ?p ?o}`, r2s {RStream, "undefined"}, no windows |
| RspQL.ParsedQuery.SetSparql | src/rspql.ts:22-24 | sets the SPARQL text |
| RspQL.ParsedQuery.SetR2S | src/rspql.ts:29-31 | sets the output operator |
| RspQL.ParsedQuery.AddS2R | src/rspql.ts:36-38 | appends one window definition |
| RspQL.RegisterGroups | src/rspql.ts:67 | the REGISTER pattern has two groups |
| RspQL.WindowGroups | src/rspql.ts:76 | the FROM NAMED WINDOW pattern has four groups |
| RspQL.PrefixGroups | src/rspql.ts:92 | the PREFIX pattern has two groups |
| RspQL.Matches | src/rspql.ts:68 | every match has one capture per group of its pattern |
| RspQL.AnalyzeAllAt | dist/rspql.js:54-55 | each line is trimmed and classified on its own |
| RspQL.ParseLinesSnoc | dist/rspql.js:54-92 | the parse of the lines so far grows one line at a time |
| RspQL.ApplyRegister | src/rspql.ts:69-73 | the matches' `set_r2s` calls leave the operator `Registered` |
| RspQL.AddWindows | src/rspql.ts:78-85 | one definition per match is appended, with unwrapped names and Number-converted width and slide |
| RspQL.BindPrefixes | src/rspql.ts:94-96 | every PREFIX match is bound in the mapper, in order |
| RspQL.VisitLine | dist/rspql.js:54-92 | one iteration of the line loop performs `Step` of the line's analysis |
| RspQL.Parse | dist/rspql.js:49-95 | the parsed query is exactly `ParseQuery(query)` |
| RspQLProps.LastOperator | src/rspql.ts:69-73 | the index of the last REGISTER match naming RStream, DStream or IStream, or -1 |
| RspQLProps.RegisteredLast | src/rspql.ts:69-73 | the last match naming one of the three operators sets r2s; with none, r2s is unchanged |
| RspQLProps.LastBinding | src/rspql.ts:94-96 | the index of the last PREFIX match for a prefix, or -1 |
| RspQLProps.BindLookup | src/rspql.ts:94-96 | a prefix maps to the IRI of its last match on the line, otherwise to what it mapped to before |
| RspQLProps.Classified | src/rspql.ts:63-99 | a trimmed line is a REGISTER line, a FROM NAMED WINDOW line or a query line exactly by how it starts, and carries its matches and rewritten text |
| RspQLProps.RegisterLineEffect | src/rspql.ts:66-74 | a REGISTER line changes only r2s, to the last valid operator match, and is not kept for the SPARQL text |
| RspQLProps.WindowLineEffect | src/rspql.ts:75-85 | a FROM NAMED WINDOW line appends one definition per match and changes nothing else |
| RspQLProps.QueryLineEffect | src/rspql.ts:86-99 | any other line is kept (rewritten); a PREFIX line also updates the mapper per `BindLookup`, and no other line touches it |
| RspQLProps.WindowBecomesGraph | src/rspql.ts:88-90 | a line starting with WINDOW has that word replaced by GRAPH |
| RspQLProps.PrefixSurvives | src/rspql.ts:87-91 | the rewrite never changes whether a line starts with PREFIX |
| RspQLProps.KeptLines | dist/rspql.js:78-91 | the SPARQL lines are exactly the rewritten non-REGISTER, non-FROM lines, in input order |
| RspQLProps.SparqlText | src/rspql.ts:60-101 | the SPARQL text is those lines joined with a line feed |
| RspQLProps.S2RGrows | dist/rspql.js:66-77 | window definitions are only ever appended |
| RspQLProps.WindowLineResolvesEarlier | src/rspql.ts:75-85 | a FROM line's definitions are resolved with the prefixes of the lines before it |
| RspQLProps.DefaultOperator | src/rspql.ts:11-17 | without a valid REGISTER line r2s stays {RStream, "undefined"} |
| RspQLProps.NoWindows | dist/rspql.js:11-16 | without a FROM NAMED WINDOW line s2r stays empty |
| RspQLProps.UnwrapBracketed | src/rspql.ts:110-112 | `unwrap("<iri>")` is the trimmed text without its first and last character |
| RspQLProps.UnwrapPrefixed | src/rspql.ts:113-119 | `unwrap("p:local…")` is mapper[p] + the segment after the first colon, or "" for an unknown p |
| RspQLProps.UnwrapWithoutColon | dist/rspql.js:106-113 | with no colon, a known prefix yields its IRI followed by "undefined", an unknown one "" |
| RspQLProps.StreamNameExample | dist/rspql.js:102-114 | `:stream1` under the empty prefix https://rsp.js/ resolves to https://rsp.js/stream1 |
| JsRegex.MatchSound | src/rspql.ts:76-77 | a match found by the matcher is accepted by the pattern with those captures |
| JsRegex.MatchComplete | src/rspql.ts:76-77 | the matcher finds a match wherever the pattern accepts some prefix |
| JsRegex.MatchIff | src/rspql.ts:67-68 | a match at a position exists exactly when the pattern accepts some text there |
| JsRegex.AllMatches | src/rspql.ts:68 | `matchAll` yields match arrays with one capture per group |
| JsRegex.GroupCountAppend | src/rspql.ts:76 | the groups of a concatenated pattern add up |
| JsText.LeadingWhiteIs | src/rspql.ts:64 | the leading white run is all white and is followed by a non-white character or the end |
| JsText.TrimEndIs | src/rspql.ts:64 | trimming the end drops only white characters and leaves a non-white last character |
| JsText.TrimIs | dist/rspql.js:55 | `trim` is a contiguous slice starting after the leading white run |
| JsText.TrimDropsWhite | dist/rspql.js:55 | everything `trim` drops is white |
| JsText.TrimEnds | src/rspql.ts:110 | a trimmed text starts and ends with a non-white character |
| JsText.TrimmedAlready | src/rspql.ts:113 | trimming a text already trimmed changes nothing |
| JsText.IndexOf | src/rspql.ts:113 | the first occurrence at or after a position, or -1 when there is none |
| JsText.ReplaceLeading | src/rspql.ts:89 | `replace` of a leading occurrence replaces exactly that prefix |
| JsText.SplitLinesNoLineFeed | src/rspql.ts:60 | no piece of `split(/\r?\n/)` holds a line feed |
| JsText.JoinSplitLines | dist/rspql.js:51 | on text without carriage returns, joining the split lines with a line feed gives the text back |
| JsText.Number | src/rspql.ts:82-83 | `Number` converts exactly the non-empty decimal digit strings, to their decimal value, which is below 10^length; any other text is kept |
| JsText.DigitsAppend | src/rspql.ts:82-83 | the value of a digit string split in two is the first part's value shifted by the second part's length, plus the second part's value |
| JsText.DigitsBound | src/rspql.ts:82-83 | n digits stand for a value below 10^n |
| JsText.NumberExamples | src/rspql.ts:82-83 | "10", "2" and "007" become 10, 2 and 7; "1.5", " 10" and "" are not converted |

Unfolding lemmas that serve only as proof steps, and carry no row of their own, since each restates one definition: `DistModel.EmitStep`, `EvictAndTriggerIs`, `ProcessEventIs`, `AddIs`, `ReplayBucketStep`, `ReplayStep` and `ProcessLateIs`; `SrcModel.EmitOneIs`, `EmitAllStep`, `CheckWatermarkIs`, `ScopeIs`, `ProcessEventIs`, `AddIs`, `ReplayBucketStep` and `ReplayStep`.

## Left out

Timers and I/O:
- The `setInterval` timer in the src constructor, and `stop`. `process_late_elements` is a method that is called explicitly; timers are outside a sequential model.
- `subscribe` and the EventEmitter. Each `emit('RStream', content)` appends a value snapshot of the content to a ghost output sequence.
- Console output, the `Logger`, and the `Date.now()` / `fs.appendFileSync` time log in dist `add`. These are I/O with no effect on the state.

Not modelled:
- `getDefinition`, `hasCode` and `getCSPARQLWindowDefinition`: string rendering with no effect on the state.
- `gammaOperator`: a floating-point call into the simple-statistics library.
- The `name` field is kept but drives nothing. `interval_id` is not modelled, because the timer it holds is not. Of the ticks, only `TimeDriven` is distinguished, as in `emit_on_trigger`.
- `last_time_changed` and `len` are modelled without contracts of their own; `QuadContainer.Add` states them.
- Aliasing of emitted containers: a subscriber sees the live container, which later events may still change.

Number semantics:
- JavaScript numbers are doubles; the model uses unbounded integers.
- `Math.ceil` and `Math.abs` are computed on integers, through `CeilDiv` of a non-negative numerator.
- `Number.MAX_SAFE_INTEGER` is kept as the search bound of `getContent`.

Late-buffer replay:
- The comparator of the dist replay's `sort` is modelled as ascending order over distinct integer keys.
- Each late bucket is a `Set`, modelled as a duplicate-free sequence in insertion order.
- DistProps.ProcessLateLands: promises the landing of each buffered event only for windows covering its bucket's key, not its own timestamp. The dist `add` files a late event under `this.time`, the cursor at buffering time (dist/operators/s2r.js:198), and the sweep replays it at that key (dist/operators/s2r.js:445-447). `DistProps.LateReplayedAtCursor` shows the consequence: a window that covers the event's timestamp but not the cursor never receives it. The src snapshot files the event under its own timestamp (src/operators/s2r.ts:180).
- SrcProps.ProcessLateLands and DistProps.ProcessLateLands: an event is promised to be in the windows present once its own bucket was replayed. A window that a later bucket's scoping creates, and that also covers the earlier timestamp, does not receive the earlier events, because each event passes through `process_event` only once.

Parser:
- JsText.Number: converts only non-empty strings of decimal digits (`Decimal`). Any other text, such as signs, fractions, exponents, hex or surrounding spaces, is kept as `Unconverted` rather than turned into its double value or NaN.
- Text is modelled as sequences of Unicode scalar values, not UTF-16 code units. The positions that `indexOf`, `slice` and `substring` compute in `unwrap` therefore differ from JavaScript's on text with characters outside the Basic Multilingual Plane, and lone surrogates cannot be represented.
- JsText.Trim: uses the ECMAScript white-space and line-terminator characters and performs no Unicode normalisation.
- JsRegex.MatchAt: implements only the regular-expression features the three patterns use. These are literal text, runs of spaces (` +`), and greedy capture groups of a negated character class (`[^ ]+`, `[^>]+`, `[^:]*`), with backtracking.
- JsText.SplitLines and JsText.JoinSplitLines: the round trip is proved only for text without `\r`. A `\r` before a line feed belongs to the separator, and the lost `\r` makes the round trip fail. `parse` trims every line anyway.

Test scenarios of src/operators/s2r.test.ts that need many `add` calls are not restated as lemmas. For these, the general lemmas above prove the rules they rely on:
- five windows left after events 0..9;
- `getContent(10)` holding 10 elements;
- two windows left after events at 1 and 12, then none after `update_watermark(22)`.

The tests' emission expectations are different:
- `test_stream_consumer` (src/operators/s2r.test.ts:84-99) expects four emissions of 2+4+6+8 elements;
- `should trigger on window change` (src/operators/s2r.test.ts:179-198) expects exactly one emission.

The tests import the src snapshot, whose operator provably never emits (`SrcProps.EmitNothing`, `SrcProps.NoOutput`). So these expectations hold only under the dist snapshot's lookup by bounds and flag. `DistProps.TriggerScenarioEmits` proves the second scenario for dist, and `SrcProps.TriggerScenarioSilent` proves it fails for src. See "## Findings".

## Findings

| source | as written | input that shows it | evidently intended | confidence | as-written member | corrected member |
|---|---|---|---|---|---|---|
| src/operators/s2r.ts:305 | `emit_on_trigger` fetches content with `active_windows.get(window)`, by object identity. Every pending trigger is a fresh instance from `get_window_instance` (src/operators/s2r.ts:246, 254-258) and never a key, so nothing is ever found or emitted | width 10, slide 5, max_delay 2, OnWindowClose: `add(q, 1)`, `set_current_time(11)`, `update_watermark(23)` emits nothing, while `should trigger on window change` (src/operators/s2r.test.ts:179-198) and `test_stream_consumer` (src/operators/s2r.test.ts:84-99) expect emissions | look the content up by bounds and flag, as `get_quads_from_active_windows` does in the later snapshot (dist/operators/s2r.js:482-489) | high; not executed | SrcProps.EmitNothing, SrcProps.TriggerScenarioSilent | DistProps.TriggerScenarioEmits, DistProps.FiredNonEmpty, DistProps.KeptExactly, DistProps.OnCloseFiresClosed |

The src modules model that snapshot as written, because it is the snapshot they describe. The corrected lookup is the one the dist modules model throughout (`DistModel.Lookup`).
