# VLE multi-component engine, modelled in Dafny

VLE's `MultiComponent` presents N DEVS sub-components as one atomic DEVS
model. It keeps a private scheduler of `(time, id)` entries and the list of
*imminent* indices. It drives a *ModelList* registry addressed by index.
The registry in the test package holds two typed arenas, forrests then
walls, and two port influence maps. Of its capabilities only `init`
forwards to the sub-component at the index; `output`, `timeAdvance` and the
three transitions take an index but have empty bodies, and `finish`
walks the arenas itself. The model records each engine call into the
registry in a trace.

This project models:

- the scheduler: `make_heap` under the "later time compares greater"
  comparator, `make_imminent`, and `remove` with its swap-with-last
  deletion;
- the seven engine operations `init`, `output`, `timeAdvance`,
  `internalTransition`, `externalTransition`, `confluentTransitions` and
  `finish`;
- the forrest/wall registry: `range`, `init` dispatch, `influenced`,
  `finish`, and `Forrest::init` / `Wall::init`.

Everything is a value. Each operation returns the new scheduler and the
trace of registry calls it made, as a `seq<Call>`. What the sub-components
answer to `init` and `timeAdvance` is supplied as a parameter: a
`seq<Time>` indexed by component, or a function from index to `Time`. A
`Time` is a finite integer or `Inf`, the "never" sentinel.

Files and modules:

| file | module | contents |
|---|---|---|
| `Time.dfy` | `DevsTime` | `Time`, its order, `std::min`, the largest finite double |
| `Seqs.dfy` | `Seqs` | distinctness, swap-with-last deletion, append-if-absent |
| `Heap.dfy` | `Heaps` | the binary min-heap (`make_heap`, `pop_heap`) |
| `Scheduler.dfy` | `Scheduling` | the scheduler, `make_imminent`, `remove` |
| `Capabilities.dfy` | `Capabilities` | events, capability calls, traces, counting |
| `ModelList.dfy` | `ModelLists` | the forrest/wall registry |
| `MultiComponent.dfy` | `Engine` | the engine operations |
| `Forest.dfy` | `ForestModel` | the engine on the forrest/wall registry, and small scenarios |

Where the code and its documented intent disagree (see "## Findings"),
the engine operations are built over the corrected scheduler steps and
the corrected registry `finish`: `Engine.Output`, both external
transitions and both confluent transitions extract with
`Scheduling.MakeImminent` and delete with `Scheduling.Remove`, and
`ForestModel.Finish` uses `ModelLists.FinishAll`. Each "as written" member
keeps exactly one step of the source as written, with everything else
corrected:

- `Scheduling.MakeImminentAsWritten`: the extraction from `data.back()`;
- `Scheduling.RemoveIterAsWritten`: the `size_t` swap-slot loop of `remove`;
- `ModelLists.FinishAsWritten`: the `return` inside the registry's loops;
- `Engine.Init` and `Engine.TimeAdvance`: the returned running minimum
  (`Engine.InitNext` and `Engine.TimeAdvanceNext` return the next time);
- `Engine.ExternalTransitionAsWritten`: the per-event append to the
  imminent list;
- `Engine.ConfluentTransitionsAsWritten`: the second `make_imminent`.

Three further places need a note:

- `ModelList::influenced` looks the port up in `influencers`, the
  input-port map, not in `influenced`. The model does the same.
- `ModelList` declares no `getInfluencees`, which `confluentTransitions`
  calls. It is modelled as the duplicate-free union of `influenced(port)`
  over the events' ports, in event order (`Engine.Influencees`).
- `influenced` returns an optional that the engine uses as a vector. An
  unknown port is modelled as an empty list (`InfluencedIds`).

Structural invariant: `Engine.Consistent` holds of a scheduler when

- its data is a heap;
- no index has two entries;
- the imminent list has no duplicates;
- no index is both scheduled and imminent.

`init` on an empty scheduler establishes it. `output`, `timeAdvance`, the
corrected `externalTransition` and the corrected `confluentTransitions`
preserve it.

## Model

| member | source | states |
|---|---|---|
| DevsTime.Min | src/vle/devs/MultiComponent.hpp:153 | `std::min(tn, ret)` is one of its two arguments and is not after either |
| Heaps.RootIsMin | src/vle/devs/MultiComponent.hpp:43-59 | in a heap built with the later-than comparator, the root is not later than any slot |
| Heaps.RootIsLeast | src/vle/devs/MultiComponent.hpp:43-59 | the root's time is a lower bound of every entry of the heap |
| Heaps.SiftDown | src/vle/devs/MultiComponent.hpp:56-59 | sifting slot k orders the subtree from k, given the slots below it are ordered; the entries are a permutation |
| Heaps.SiftFrom | src/vle/devs/MultiComponent.hpp:56-59 | each swap-with-smaller-child step keeps the entries and ends in an ordered subtree |
| Heaps.MakeHeap | src/vle/devs/MultiComponent.hpp:56-59 | `make_heap` yields a min-heap holding exactly the given entries (same multiset) |
| Heaps.PopMin | src/vle/devs/MultiComponent.hpp:61-76 | popping the heap returns an entry of least time, leaves a heap of the other entries, one fewer |
| Scheduling.NextTime | src/vle/devs/MultiComponent.hpp:37-59 | the scheduler's next time is Inf exactly when it is empty, otherwise the least scheduled time, which some entry has |
| Scheduling.MakeImminent | src/vle/devs/MultiComponent.hpp:61-76 | corrected `make_imminent`: the imminent list is the ids of the entries tied at the least time; every remaining entry is strictly later; popped plus remaining is the old multiset; empty exactly when the scheduler is empty |
| Scheduling.BackIsNotTheMinimum | src/vle/devs/MultiComponent.hpp:61-76 | on the valid heap [(1,0),(5,1),(3,2)] the as-written extraction from `back()` makes 2 imminent while 0 is due at 1 |
| Scheduling.Remove | src/vle/devs/MultiComponent.hpp:78-98 | corrected `remove`: no entry of a listed index survives; entries of other indices keep their counts; the data is a heap again; imminent is untouched |
| Scheduling.RemoveTwice | src/vle/devs/MultiComponent.hpp:78-98 | `remove([])` keeps every entry, and a second `remove` of the same list removes nothing more |
| Scheduling.RemoveOnEmptyReadsPastEnd | src/vle/devs/MultiComponent.hpp:80-86 | on an empty scheduler `data.size() - 1` wraps to 2^64 - 1, the loop runs, and its first step reads `data[0]` out of bounds |
| Scheduling.RemoveLastEntryReadsPastEnd | src/vle/devs/MultiComponent.hpp:80-94 | deleting the only entry wraps `element_to_swap` to 2^64 - 1, so the loop continues and reads `data[0]` of an empty vector |
| Seqs.SwapPopMultiset | src/vle/devs/MultiComponent.hpp:86-88 | overwriting slot i with the last slot and popping removes exactly one copy of the old slot i |
| Seqs.AppendNew | src/vle/devs/MultiComponent.hpp:217-218 | append-if-absent keeps the old list as a prefix, holds the union of both, and keeps a duplicate-free list duplicate-free |
| Seqs.AppendNewConcat | src/vle/devs/MultiComponent.hpp:212-218 | appending the lists of several events one by one equals appending their concatenation at once |
| Seqs.DropFound | src/vle/devs/MultiComponent.hpp:256-257 | `*it = models.back(); models.pop_back()` on a duplicate-free list removes exactly the found index and keeps the list duplicate-free |
| Capabilities.SweepCount | src/vle/devs/MultiComponent.hpp:139-140 | the loop over `range()` calls the capability once on each index below n and on nothing else |
| Capabilities.HitsCalls | src/vle/devs/MultiComponent.hpp:166-167 | calling a capability on each element of a list addresses index x as many times as x occurs in it |
| ModelLists.RangeCoversAll | src/vle/devs/test/component.cpp:177-181 | below 2^32 sub-components, `range()` is [0, forrests + walls); the cast truncates modulo 2^32 |
| ModelLists.Locate | src/vle/devs/test/component.cpp:183-187 | dispatch sends an index below the forrest count to that forrest, any other in-range index to wall `id - forrests.size()`; the slot maps back to the index |
| ModelLists.LocateIndexOf | src/vle/devs/test/component.cpp:183-187 | every forrest and wall slot has an in-range index, and dispatch on it returns that slot (dispatch is a bijection) |
| ModelLists.InitIndex | src/vle/devs/test/component.cpp:183-187 | `init(id)` is the forrest's `init` below the forrest count, otherwise the wall's at `id - forrests.size()` |
| ModelLists.InitResults | src/vle/devs/test/component.cpp:177-187 | the engine's init loop receives one result per index of `range()`, which is the component count truncated to 32 bits (every component below 2^32 of them), and each result is 0 |
| ModelLists.InitIsZero | src/vle/devs/test/component.cpp:77-123 | every forrest and wall returns time 0 from `init` |
| ModelLists.Influenced | src/vle/devs/test/component.cpp:167-175 | a port known to `influencers` yields its stored list, an unknown port yields none, which the engine sees as an empty list |
| ModelLists.FinishAsWrittenSkips | src/vle/devs/test/component.cpp:210-217 | with two forrests the as-written `finish` never finishes index 1 |
| ModelLists.FinishAll | src/vle/devs/test/component.cpp:210-217 | corrected `finish`: every index of `range()` receives exactly one `finish` call, in index order |
| Engine.CappedMin | src/vle/devs/MultiComponent.hpp:136-153 | the running `std::min` from the largest double is not after that double or after any result, and is one of them |
| Engine.Init | src/vle/devs/MultiComponent.hpp:134-159 | fails iff some result is negative, naming the first such index after calling `init` on indices 0..i; otherwise calls every index once in order, schedules exactly the finite results, rebuilds the heap and returns the capped minimum |
| Engine.InitFresh | src/vle/devs/MultiComponent.hpp:134-159 | `init` on a freshly constructed engine fails exactly when some result is negative and otherwise leaves a consistent scheduler |
| Engine.FreshConsistent | src/vle/devs/MultiComponent.hpp:134-159 | a heap holding one entry per finitely scheduled index and nothing imminent is consistent |
| Engine.InitLoop | src/vle/devs/MultiComponent.hpp:139-154 | the loop stops at the first negative result and has scheduled exactly the finite results before it |
| Engine.Output | src/vle/devs/MultiComponent.hpp:161-168 | with the corrected extraction, recomputes the imminent batch (all of `MakeImminent`'s facts) and calls `output` once per imminent index, in list order, on no other index; consistency is preserved |
| Engine.TimeAdvance | src/vle/devs/MultiComponent.hpp:170-196 | clears the imminent list; fails iff some previously imminent index answers a negative time, naming the first; otherwise each previously imminent index gains an entry per finite answer, other entries stay, the heap is rebuilt and the capped minimum of these answers alone is returned |
| Engine.TimeAdvanceConsistent | src/vle/devs/MultiComponent.hpp:170-196 | from a consistent scheduler, `timeAdvance` fails exactly when a previously imminent index answers a negative time, and otherwise leaves a consistent scheduler |
| Engine.TimeAdvanceLoop | src/vle/devs/MultiComponent.hpp:176-191 | the loop stops at the first negative answer and has scheduled exactly the finite answers before it |
| Engine.InternalTransition | src/vle/devs/MultiComponent.hpp:198-207 | exactly one internal transition per cached imminent index (as often as it occurs), and no other kind of call |
| Engine.AllPassiveIsNotInfinity | src/vle/devs/MultiComponent.hpp:134-159 | when every component answers Inf, `init` returns the largest double, not Inf |
| Engine.PartialMinimumMissesScheduled | src/vle/devs/MultiComponent.hpp:170-196 | with component 0 still scheduled at 5 and component 1 answering Inf, `timeAdvance` returns the largest double although the next time is 5 |
| Engine.InitNext | src/vle/devs/MultiComponent.hpp:134-159 | corrected `init`: same failure and scheduling; returns the scheduler's next time, which on a fresh scheduler is not after any result and is Inf iff every result is Inf |
| Engine.TimeAdvanceNext | src/vle/devs/MultiComponent.hpp:170-196 | corrected `timeAdvance`: returns the scheduler's next time, not after any untouched entry nor any new answer |
| Engine.Reached | src/vle/devs/MultiComponent.hpp:212-214 | an index is reached iff it is influenced by the port of some event |
| Engine.ExternalCalls | src/vle/devs/MultiComponent.hpp:212-221 | an index is called as often as events reach it; every call carries one event that reaches it; and for every event and every index its port reaches, that single-event external transition is in the trace |
| Engine.RemoveReached | src/vle/devs/MultiComponent.hpp:212-222 | the per-event loop deletes the entries of every reached index, keeps all other entries, and makes exactly the external calls |
| Engine.ExternalTransitionAsWritten | src/vle/devs/MultiComponent.hpp:209-223 | the imminent list grows by every reached index, once per reaching event; entries of reached indices are gone, others kept |
| Engine.ExternalDuplicatesImminent | src/vle/devs/MultiComponent.hpp:212-218 | two events on a port wired to 3 put 3 twice on the imminent list |
| Engine.ExternalTransition | src/vle/devs/MultiComponent.hpp:209-223 | corrected: the imminent list grows by the reached indices not already in it; same removal and calls; consistency is preserved |
| Engine.Influencees | src/vle/devs/MultiComponent.hpp:229 | the influencee list has no duplicates and holds exactly the indices some event's port influences |
| Engine.Find | src/vle/devs/MultiComponent.hpp:243-245 | `find_if` returns the first position holding x, or the length when x is absent |
| Engine.ResolveImminent | src/vle/devs/MultiComponent.hpp:240-263 | scanning the imminent copy from the back, an influenced index gets a confluent call and leaves the influencee list, any other gets an internal call; the leftover list is exactly the influencees not imminent |
| Engine.Resolve | src/vle/devs/MultiComponent.hpp:240-271 | every imminent index is called once per occurrence and every influenced non-imminent index exactly once, with the kind of call its membership dictates |
| Engine.ConfluentTransitions | src/vle/devs/MultiComponent.hpp:225-280 | corrected (on the cached imminent list): influencees lose their entries; an index in both sets gets one confluent call, imminent-only one internal, influenced-only one external; with a duplicate-free imminent list no index gets two calls; the imminent list becomes the old one plus the influenced-only indices once each; consistency is preserved |
| Engine.ConfluentTransitionsAsWritten | src/vle/devs/MultiComponent.hpp:225-280 | as written at line 237: it re-extracts the whole tied batch at the least remaining time (every remaining entry is later), removes the influencees, and resolves against that batch, not the one `output` cached: a batch index also influenced gets a confluent call, a batch-only index an internal call, an influenced-only index an external call, and the influenced-only indices are queued |
| ForestModel.InitRegistry | src/vle/devs/MultiComponent.hpp:134-159 | on the forrest/wall registry `init` never fails, calls and schedules at 0 every index of the 32-bit `range()` once (every component below 2^32), and returns 0, or the largest double when that range is empty |
| ForestModel.InitRegistryWraps | src/vle/devs/test/component.cpp:177-181 | with exactly 2^32 forrests `range()` is empty, so `init` calls no component, schedules nothing and returns the largest double |
| ForestModel.Finish | src/vle/devs/MultiComponent.hpp:282-285 | the engine's `finish`, delegating to the corrected registry `finish`, reaches every index of the registry exactly once |
| ForestModel.ScenarioTiedMinimum | src/vle/devs/MultiComponent.hpp:161-168 | init results 5, 3, 3: the first `output`, with the corrected extraction, makes {1, 2} imminent, calls `output` on each once, and leaves 0 scheduled at 5 |
| ForestModel.ScenarioConfluent | src/vle/devs/MultiComponent.hpp:252-260 | a component due at 10 and hit by an event at 10 gets exactly one confluent call and no internal or external call |
| ForestModel.ScenarioExternal | src/vle/devs/MultiComponent.hpp:209-223 | an event wired to 2 and 4 (due at 7 and 9) removes both entries regardless of time, calls each once, queues both, and keeps component 1 at 8 |
| ForestModel.OutputThenConfluentAsWritten | src/vle/devs/MultiComponent.hpp:237-263 | on the heap [(1,0),(2,1),(3,2)] with an event wired to 1: after `output` extracts 0, the second extraction takes (2,1), so 1 gets the only call, a confluent one, 0 gets none and is neither scheduled nor imminent, and (3,2) stays |
| ForestModel.OutputThenConfluent | src/vle/devs/MultiComponent.hpp:225-280 | on the same input the corrected step gives 0 its internal call and 1 its external call, queues both and keeps (3,2) |

## Left out

- Event payloads, `CommonState`, `ChangeState` and the `react` record: events carry only their port name, because the engine never reads anything else.
- Output event lists and `observation`: `output` is modelled as the trace of calls it makes.
- Floating point: times are unbounded integers plus `Inf`. The largest finite double appears only as the start value of the running minimum, written out exactly.
- Component indices are `unsigned` in the source and `nat` here. The only place the width shows, the cast in `range()`, is modelled modulo 2^32 (`ModelLists.Range`), and the engine over the registry iterates that truncated range.
- The sub-components' `init` and `timeAdvance` results are parameters. `ModelList::timeAdvance` and the leaf `timeAdvance` have empty bodies (no return value), so nothing in this registry pins them down.
- The text of the modelling error: only the component index and its negative time are kept; the engine's name and the formatting are not.
- `std::make_heap` is modelled by a bottom-up heap construction. Its exact slot layout is unspecified by the standard. Only "is a heap and a permutation" is relied on; the as-written `make_imminent` counterexample uses a concrete valid heap.
- The sub-component bodies: `Forrest`/`Wall` `output`, transitions and `finish` are empty, so only the call is recorded.
- Construction: the `ModelList` constructor only reserves capacity, so a registry is a plain value built by the caller.
- Protocol-order violations (calling `timeAdvance` before `output`, and so on) are not detected by the source and are not modelled as errors. The operations take whatever imminent list the scheduler holds.
- Engine.RemoveReached and both external transitions: the source appends to the imminent list inside the per-event loop; the model appends the whole reached list after the loop. The two give the same list (`Seqs.AppendNewConcat` for the corrected variant; plain concatenation for the as-written one).
- The `time` argument the engine passes to `output` and to every transition is not recorded in a `Call`: the trace keeps the capability, the index and the events only. A statement such as "confluent transition of A at time 10" is therefore stated without its time.
- A failed `init` or `timeAdvance` (`Engine.Failed`) does not return the scheduler the throw leaves behind: the entries pushed before the negative result, and for `timeAdvance` the imminent list already cleared at line 173.
- The as-written back-slot extraction is not composed into `output` or the transitions; only `Scheduling.BackIsNotTheMinimum` exhibits it, because its choice depends on the unspecified slot layout of `std::make_heap`.
- Engine.Influencees: `getInfluencees` is not declared by `ModelList`; its order (event order, first occurrence kept) is a modelling choice.

## Findings

| source | as written | input that shows it | evidently intended | confidence | as-written member | corrected member |
|---|---|---|---|---|---|---|
| src/vle/devs/MultiComponent.hpp:68-74 | `make_imminent` takes `data.back()` as the minimum and pops from the back | heap [(1,0),(5,1),(3,2)]: index 2 (time 3) becomes imminent while 0 is due at 1 | pop every entry tied with the heap's least time | not executed | Scheduling.BackIsNotTheMinimum | Scheduling.MakeImminent |
| src/vle/devs/MultiComponent.hpp:80-94 | `element_to_swap = data.size() - 1` and `element_to_swap--` wrap around in `size_t` | `remove` on an empty scheduler, or deleting its only entry | stop scanning once no live slot is left | not executed | Scheduling.RemoveOnEmptyReadsPastEnd | Scheduling.Remove |
| src/vle/devs/MultiComponent.hpp:136-158 | `init` starts its minimum from the numeric maximum, so all-passive components yield the largest double | every `init` result is Inf | return Inf when nothing is scheduled | not executed | Engine.AllPassiveIsNotInfinity | Engine.InitNext |
| src/vle/devs/MultiComponent.hpp:175-195 | `timeAdvance` returns the minimum over the re-evaluated components only | component 0 scheduled at 5; imminent component 1 answers Inf: returns the largest double, not 5 | return the scheduler's next time | not executed | Engine.PartialMinimumMissesScheduled | Engine.TimeAdvanceNext |
| src/vle/devs/MultiComponent.hpp:217-218 | `externalTransition` appends the influenced list once per event | two events on a port wired to 3: imminent becomes [3, 3] and `timeAdvance` asks 3 twice | append each influenced index once | not executed | Engine.ExternalDuplicatesImminent | Engine.ExternalTransition |
| src/vle/devs/test/component.cpp:212-216 | `finish` returns from inside each loop | two forrests: index 1 is never finished | finish every forrest and every wall | not executed | ModelLists.FinishAsWrittenSkips | ModelLists.FinishAll |
| src/vle/devs/MultiComponent.hpp:237 | `confluentTransitions` calls `make_imminent` again, discarding the list `output` cached | heap [(1,0),(2,1),(3,2)], event on a port wired to 1: after `output` extracts 0, the second extraction takes (2,1); 1, due only at 2, gets the confluent transition, 0 gets none and vanishes | resolve against the imminent list `output` cached | not executed | ForestModel.OutputThenConfluentAsWritten | Engine.ConfluentTransitions |
