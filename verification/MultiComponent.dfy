/** The multi-component engine: drives every sub-component of a registry
    through the DEVS protocol, using the scheduler to decide who is due.
    Registry answers (the results of `init` and `timeAdvance`) are supplied
    as parameters, and each call into the registry is recorded in the
    returned trace. */
module Engine {
  import opened DevsTime
  import opened Heaps
  import opened Scheduling
  import opened Capabilities
  import opened Seqs

  /** The modelling error the engine raises, naming the component and its
      negative result. */
  datatype ModellingError = NegativeTime(id: nat, tn: int)

  /** The outcome of an engine call that may raise a modelling error; the
      trace of a failed call ends with the call that returned the
      negative time. */
  datatype Step<T> =
    | Done(sched: Scheduler, calls: seq<Call>, value: T)
    | Failed(error: ModellingError, calls: seq<Call>)

  /** The running minimum of `init` and `timeAdvance`: it starts from the
      largest finite double and folds `std::min(tn, ret)` over the results. */
  function CappedMin(ts: seq<Time>): (r: Time)
    ensures NotAfter(r, Fin(MaxDouble))
    ensures forall k :: 0 <= k < |ts| ==> NotAfter(r, ts[k])
    ensures r == Fin(MaxDouble) || exists k :: 0 <= k < |ts| && r == ts[k]
    decreases |ts|
  {
    if |ts| == 0 then Fin(MaxDouble)
    else Min(ts[|ts| - 1], CappedMin(ts[..|ts| - 1]))
  }

  /** `init`: calls `init` on every index in range, in order; a negative
      result raises a modelling error naming the index; every finite
      result is scheduled; the returned time is the capped minimum. */
  method Init(s: Scheduler, tns: seq<Time>) returns (r: Step<Time>)
    ensures r.Failed? <==> exists i :: 0 <= i < |tns| && IsNegative(tns[i])
    ensures r.Done? ==> r.calls == Sweep(InitCall, |tns|)
    ensures r.Done? ==> r.sched.imminent == s.imminent && IsHeap(r.sched.data)
    ensures r.Done? ==> forall e :: (multiset(r.sched.data)[e] ==
      multiset(s.data)[e] + (if e.id < |tns| && tns[e.id] == Fin(e.time) then 1 else 0))
    ensures r.Done? ==> r.value == CappedMin(tns)
    ensures r.Failed? ==> r.error.id < |tns| && tns[r.error.id] == Fin(r.error.tn) && r.error.tn < 0
    ensures r.Failed? ==> forall j :: 0 <= j < r.error.id ==> !IsNegative(tns[j])
    ensures r.Failed? ==> r.calls == Sweep(InitCall, r.error.id + 1)
  {
    var i, data, calls, ret := InitLoop(s.data, tns);
    if i < |tns| {
      return Failed(NegativeTime(i, tns[i].v), calls);
    }
    data := MakeHeap(data);
    r := Done(Scheduler(data, s.imminent), calls, ret);
  }

  /** `init` on a freshly constructed engine establishes the scheduler
      invariant: one entry per scheduled index, nothing imminent. */
  method InitFresh(tns: seq<Time>) returns (r: Step<Time>)
    ensures r.Failed? <==> exists i :: 0 <= i < |tns| && IsNegative(tns[i])
    ensures r.Done? ==> Consistent(r.sched)
  {
    r := Init(Scheduler([], []), tns);
    if r.Done? {
      FreshConsistent(tns, r.sched);
    }
  }

  /** A heap holding at most the one entry `init` gives each index, with
      nothing imminent, satisfies the scheduler invariant. */
  lemma FreshConsistent(tns: seq<Time>, sched: Scheduler)
    requires sched.imminent == [] && IsHeap(sched.data)
    requires forall e :: (multiset(sched.data)[e] ==
      if e.id < |tns| && tns[e.id] == Fin(e.time) then 1 else 0)
    ensures Consistent(sched)
  {
    var data := sched.data;
    forall e, f | e in data && f in data && e.id == f.id
      ensures e == f
    {
      assert multiset(data)[e] > 0 && multiset(data)[f] > 0;
    }
  }

  /** The loop of `init`: asks each index in turn until one returns a
      negative time, appending an entry for every finite result. */
  method InitLoop(data0: seq<Entry>, tns: seq<Time>)
    returns (i: nat, data: seq<Entry>, calls: seq<Call>, ret: Time)
    ensures i <= |tns|
    ensures forall j :: 0 <= j < i ==> !IsNegative(tns[j])
    ensures i < |tns| ==> IsNegative(tns[i]) && calls == Sweep(InitCall, i + 1)
    ensures i == |tns| ==> calls == Sweep(InitCall, i) && ret == CappedMin(tns)
    ensures forall e :: (multiset(data)[e] ==
      multiset(data0)[e] + (if e.id < i && tns[e.id] == Fin(e.time) then 1 else 0))
  {
    data, ret, calls, i := data0, Fin(MaxDouble), [], 0;
    while i < |tns| && !IsNegative(tns[i])
      invariant i <= |tns|
      invariant calls == Sweep(InitCall, i)
      invariant forall j :: 0 <= j < i ==> !IsNegative(tns[j])
      invariant forall e :: (multiset(data)[e] ==
        multiset(data0)[e] + (if e.id < i && tns[e.id] == Fin(e.time) then 1 else 0))
      invariant ret == CappedMin(tns[..i])
    {
      var tn := tns[i];
      calls := calls + [Call(InitCall, i)];
      if tn.Fin? {
        data := data + [Entry(tn.v, i)];
      }
      assert tns[..i + 1][..i] == tns[..i];
      ret := Min(tn, ret);
      i := i + 1;
    }
    if i < |tns| {
      calls := calls + [Call(InitCall, i)];
    } else {
      assert tns[..i] == tns;
    }
  }

  /** What the registry's `timeAdvance` returns for each index of `ids`. */
  function Results(ids: seq<nat>, ta: nat -> Time): seq<Time> {
    seq(|ids|, k requires 0 <= k < |ids| => ta(ids[k]))
  }

  /** `timeAdvance`: clears the imminent list, asks each previously
      imminent index for its next time, rejects a negative one, reschedules
      the finite ones and returns the capped minimum of those results
      only. Entries of other components are left as they were. */
  method TimeAdvance(s: Scheduler, ta: nat -> Time) returns (r: Step<Time>)
    ensures r.Failed? <==> exists k :: 0 <= k < |s.imminent| && IsNegative(ta(s.imminent[k]))
    ensures r.Failed? ==> exists k :: (0 <= k < |s.imminent|
      && s.imminent[k] == r.error.id && ta(r.error.id) == Fin(r.error.tn) && r.error.tn < 0
      && (forall j :: 0 <= j < k ==> !IsNegative(ta(s.imminent[j])))
      && r.calls == Calls(TimeAdvanceCall, s.imminent[..k + 1]))
    ensures r.Done? ==> r.calls == Calls(TimeAdvanceCall, s.imminent)
    ensures r.Done? ==> r.sched.imminent == [] && IsHeap(r.sched.data)
    ensures r.Done? ==> forall e :: (multiset(r.sched.data)[e] ==
      multiset(s.data)[e] + (if ta(e.id) == Fin(e.time) then multiset(s.imminent)[e.id] else 0))
    ensures r.Done? ==> r.value == CappedMin(Results(s.imminent, ta))
  {
    var k, data, calls, ret := TimeAdvanceLoop(s.data, s.imminent, ta);
    if k < |s.imminent| {
      r := Failed(NegativeTime(s.imminent[k], ta(s.imminent[k]).v), calls);
      return;
    }
    assert s.imminent[..k] == s.imminent;
    data := MakeHeap(data);
    r := Done(Scheduler(data, []), calls, ret);
  }

  /** `timeAdvance` preserves the scheduler invariant: an imminent index
      had no entry, so rescheduling it gives it exactly one. */
  method TimeAdvanceConsistent(s: Scheduler, ta: nat -> Time) returns (r: Step<Time>)
    requires Consistent(s)
    ensures r.Failed? <==> exists k :: 0 <= k < |s.imminent| && IsNegative(ta(s.imminent[k]))
    ensures r.Done? ==> Consistent(r.sched)
  {
    r := TimeAdvance(s, ta);
    if r.Done? {
      RescheduleConsistent(s, r.sched.data, ta);
    }
  }

  /** The loop of `timeAdvance`: asks each index of `copy` in turn until
      one returns a negative time, appending an entry for every finite
      result. */
  method TimeAdvanceLoop(data0: seq<Entry>, copy: seq<nat>, ta: nat -> Time)
    returns (k: nat, data: seq<Entry>, calls: seq<Call>, ret: Time)
    ensures k <= |copy|
    ensures forall j :: 0 <= j < k ==> !IsNegative(ta(copy[j]))
    ensures k < |copy| ==> IsNegative(ta(copy[k])) && calls == Calls(TimeAdvanceCall, copy[..k + 1])
    ensures k == |copy| ==> calls == Calls(TimeAdvanceCall, copy) && ret == CappedMin(Results(copy, ta))
    ensures forall e :: (multiset(data)[e] ==
      multiset(data0)[e] + (if ta(e.id) == Fin(e.time) then multiset(copy[..k])[e.id] else 0))
  {
    data, ret, calls, k := data0, Fin(MaxDouble), [], 0;
    while k < |copy| && !IsNegative(ta(copy[k]))
      invariant k <= |copy|
      invariant calls == Calls(TimeAdvanceCall, copy[..k])
      invariant forall j :: 0 <= j < k ==> !IsNegative(ta(copy[j]))
      invariant forall e :: (multiset(data)[e] ==
        multiset(data0)[e] + (if ta(e.id) == Fin(e.time) then multiset(copy[..k])[e.id] else 0))
      invariant ret == CappedMin(Results(copy[..k], ta))
    {
      var elem := copy[k];
      var tn := ta(elem);
      PrefixStep(copy, k, ta);
      calls := calls + [Call(TimeAdvanceCall, elem)];
      if tn.Fin? {
        data := data + [Entry(tn.v, elem)];
      }
      ret := Min(tn, ret);
      k := k + 1;
    }
    if k < |copy| {
      assert copy[..k + 1][..k] == copy[..k];
      calls := calls + [Call(TimeAdvanceCall, copy[k])];
    } else {
      assert copy[..k] == copy;
    }
  }

  /** Extending the prefix of `copy` handled so far by one index. */
  lemma PrefixStep(copy: seq<nat>, k: nat, ta: nat -> Time)
    requires k < |copy|
    ensures Calls(TimeAdvanceCall, copy[..k + 1]) == Calls(TimeAdvanceCall, copy[..k]) + [Call(TimeAdvanceCall, copy[k])]
    ensures forall x :: multiset(copy[..k + 1])[x] == multiset(copy[..k])[x] + (if x == copy[k] then 1 else 0)
    ensures CappedMin(Results(copy[..k + 1], ta)) == Min(ta(copy[k]), CappedMin(Results(copy[..k], ta)))
  {
    assert copy[..k + 1] == copy[..k] + [copy[k]];
    assert copy[..k + 1][..k] == copy[..k];
    assert Results(copy[..k + 1], ta)[..k] == Results(copy[..k], ta);
  }

  lemma RescheduleConsistent(s: Scheduler, data: seq<Entry>, ta: nat -> Time)
    requires Consistent(s) && IsHeap(data)
    requires forall e :: (multiset(data)[e] ==
      multiset(s.data)[e] + (if ta(e.id) == Fin(e.time) then multiset(s.imminent)[e.id] else 0))
    ensures Consistent(Scheduler(data, []))
  {
    forall e
      ensures multiset(data)[e] <= 1
    {
      if e in s.data {
        assert e.id !in s.imminent;
      }
    }
    forall e, f | e in data && f in data && e.id == f.id
      ensures e == f
    {
      assert multiset(data)[e] > 0 && multiset(data)[f] > 0;
    }
  }

  /** `output`: recomputes the imminent list with the corrected
      extraction (`MakeImminent`, not the back-slot one the source uses)
      and calls `output` on each imminent index, in order, and on no
      other. */
  method Output(s: Scheduler) returns (r: Scheduler, due: seq<Entry>, calls: seq<Call>)
    requires IsHeap(s.data)
    ensures calls == Calls(OutputCall, r.imminent)
    ensures forall x :: Hits(calls, x) == multiset(r.imminent)[x]
    ensures IsHeap(r.data) && r.imminent == Ids(due)
    ensures multiset(due) + multiset(r.data) == multiset(s.data)
    ensures Consistent(s) ==> Consistent(r)
    ensures |s.data| == 0 <==> |due| == 0
    ensures |due| > 0 ==> forall e :: e in s.data ==> due[0].time <= e.time
    ensures forall e :: e in due ==> e.time == due[0].time
    ensures forall e :: e in r.data ==> e.time > due[0].time
  {
    r, due := MakeImminent(s);
    if Consistent(s) {
      SplitConsistent(s, r, due);
    }
    calls := Calls(OutputCall, r.imminent);
    forall x {
      HitsCalls(OutputCall, r.imminent, x);
    }
  }

  /** Splitting a consistent heap into the imminent batch and the rest
      keeps every component in one place. */
  lemma SplitConsistent(s: Scheduler, r: Scheduler, due: seq<Entry>)
    requires Consistent(s) && IsHeap(r.data) && r.imminent == Ids(due)
    requires multiset(due) + multiset(r.data) == multiset(s.data)
    ensures Consistent(r)
  {
    forall e | e in due
      ensures e in s.data
    {
      assert multiset(due)[e] > 0;
      assert multiset(s.data)[e] > 0;
    }
    forall e | e in r.data
      ensures e in s.data
    {
      assert multiset(r.data)[e] > 0;
      assert multiset(s.data)[e] > 0;
    }
    assert forall e :: multiset(due)[e] <= multiset(s.data)[e];
    assert forall e :: multiset(r.data)[e] <= multiset(s.data)[e];
    IdsDistinct(due);
    forall e | e in r.data
      ensures e.id !in r.imminent
    {
      forall f | f in due
        ensures f.id != e.id
      {
        assert multiset(due)[f] >= 1;
        assert multiset(r.data)[f] == 0;
        assert f != e;
      }
      IdsMember(due, e.id);
    }
  }

  /** `internalTransition`: one internal transition per cached imminent
      index, on no other index; the scheduler is left as it is. */
  function InternalTransition(s: Scheduler): (calls: seq<Call>)
    ensures forall c :: c in calls ==> c.kind == InternalCall
    ensures forall x :: Hits(calls, x) == multiset(s.imminent)[x]
  {
    CallsKinds(InternalCall, s.imminent);
    forall x {
      HitsCalls(InternalCall, s.imminent, x);
    }
    Calls(InternalCall, s.imminent)
  }

  /** The capped minimum never yields Inf: with every component passive,
      `init` reports the largest double instead of "never". */
  lemma AllPassiveIsNotInfinity(n: nat)
    ensures CappedMin(seq(n, k => Inf)) == Fin(MaxDouble)
  {
  }

  /** `timeAdvance` answers only for the re-evaluated components: component
      0 stays scheduled at time 5, component 1 becomes passive, and the
      reported minimum is the largest double although the scheduler's next
      time is 5. */
  lemma PartialMinimumMissesScheduled()
    ensures CappedMin(Results([1], k => Inf)) == Fin(MaxDouble)
    ensures NextTime(Scheduler([Entry(5, 0)], [])) == Fin(5)
  {
    assert Results([1], k => Inf) == [Inf];
    assert CappedMin([Inf]) == Min(Inf, CappedMin([]));
  }

  /** `init` returning the next time of the whole scheduler: Inf when no
      component is scheduled, otherwise the least scheduled time. Started
      on an empty scheduler, that is the least of all results, and Inf
      exactly when every result is Inf. */
  method InitNext(s: Scheduler, tns: seq<Time>) returns (r: Step<Time>)
    ensures r.Failed? <==> exists i :: 0 <= i < |tns| && IsNegative(tns[i])
    ensures r.Done? ==> IsHeap(r.sched.data) && r.value == NextTime(r.sched)
    ensures r.Done? ==> forall e :: (multiset(r.sched.data)[e] ==
      multiset(s.data)[e] + (if e.id < |tns| && tns[e.id] == Fin(e.time) then 1 else 0))
    ensures r.Done? && |s.data| == 0 ==> (r.value.Inf? <==> forall i :: 0 <= i < |tns| ==> tns[i].Inf?)
    ensures r.Done? && |s.data| == 0 ==> forall i :: 0 <= i < |tns| ==> NotAfter(r.value, tns[i])
  {
    r := Init(s, tns);
    if r.Done? {
      var data := r.sched.data;
      r := r.(value := NextTime(r.sched));
      forall i | 0 <= i < |tns| && tns[i].Fin? && |s.data| == 0
        ensures r.value.Fin? && r.value.v <= tns[i].v
      {
        assert multiset(data)[Entry(tns[i].v, i)] == 1;
      }
      if |s.data| == 0 && |data| > 0 {
        var e := data[0];
        assert multiset(data)[e] > 0;
        assert tns[e.id].Fin?;
      }
    }
  }

  /** `timeAdvance` returning the next time of the whole scheduler: never
      later than any entry left untouched, nor than any new result. */
  method TimeAdvanceNext(s: Scheduler, ta: nat -> Time) returns (r: Step<Time>)
    ensures r.Failed? <==> exists k :: 0 <= k < |s.imminent| && IsNegative(ta(s.imminent[k]))
    ensures r.Done? ==> r.sched.imminent == [] && IsHeap(r.sched.data)
    ensures r.Done? ==> r.value == NextTime(r.sched)
    ensures r.Done? ==> forall e :: e in s.data ==> r.value.Fin? && r.value.v <= e.time
    ensures r.Done? ==> forall k :: 0 <= k < |s.imminent| ==> NotAfter(r.value, ta(s.imminent[k]))
  {
    r := TimeAdvance(s, ta);
    if r.Done? {
      var data := r.sched.data;
      r := r.(value := NextTime(r.sched));
      forall e | e in s.data
        ensures e in data
      {
        assert multiset(s.data)[e] > 0;
      }
      forall k | 0 <= k < |s.imminent| && ta(s.imminent[k]).Fin?
        ensures r.value.Fin? && r.value.v <= ta(s.imminent[k]).v
      {
        var x := s.imminent[k];
        assert multiset(s.imminent)[x] > 0;
        assert multiset(data)[Entry(ta(x).v, x)] > 0;
      }
    }
  }

  /** The indices influenced by each event's port, concatenated in event
      order; an index wired to several event ports appears once per port. */
  function Reached(m: InfluenceMap, events: seq<Event>): (r: seq<nat>)
    ensures forall x :: x in r <==> exists k :: 0 <= k < |events| && x in InfluencedIds(m, events[k].port)
    decreases |events|
  {
    if |events| == 0 then []
    else
      var pre := events[..|events| - 1];
      var r := Reached(m, pre) + InfluencedIds(m, events[|events| - 1].port);
      assert forall k :: 0 <= k < |pre| ==> pre[k] == events[k];
      r
  }

  /** One external transition per (event, influenced index) pair, each
      given that single event. */
  function ExternalCalls(m: InfluenceMap, events: seq<Event>): (calls: seq<Call>)
    ensures forall x :: Hits(calls, x) == multiset(Reached(m, events))[x]
    ensures forall c :: c in calls ==> exists k :: (0 <= k < |events|
      && c.kind == ExternalCall([events[k]]) && c.id in InfluencedIds(m, events[k].port))
    ensures forall k, x :: 0 <= k < |events| && x in InfluencedIds(m, events[k].port) ==>
      Call(ExternalCall([events[k]]), x) in calls
    decreases |events|
  {
    if |events| == 0 then []
    else
      var pre := events[..|events| - 1];
      var ev := events[|events| - 1];
      var ids := InfluencedIds(m, ev.port);
      var calls := ExternalCalls(m, pre) + Calls(ExternalCall([ev]), ids);
      assert forall k :: 0 <= k < |pre| ==> pre[k] == events[k];
      forall x
        ensures Hits(calls, x) == multiset(Reached(m, events))[x]
      {
        HitsAppend(ExternalCalls(m, pre), Calls(ExternalCall([ev]), ids), x);
        HitsCalls(ExternalCall([ev]), ids, x);
      }
      CallsKinds(ExternalCall([ev]), ids);
      CoverStep(m, events, ExternalCalls(m, pre));
      calls
  }

  /** If every (event, index) pair of all but the last event has its call
      in `head`, appending the last event's calls covers every pair. */
  lemma CoverStep(m: InfluenceMap, events: seq<Event>, head: seq<Call>)
    requires |events| > 0
    requires forall k, x :: 0 <= k < |events| - 1 && x in InfluencedIds(m, events[k].port) ==>
      Call(ExternalCall([events[k]]), x) in head
    ensures var ev := events[|events| - 1];
      var calls := head + Calls(ExternalCall([ev]), InfluencedIds(m, ev.port));
      forall k, x :: 0 <= k < |events| && x in InfluencedIds(m, events[k].port) ==>
        Call(ExternalCall([events[k]]), x) in calls
  {
    var ev := events[|events| - 1];
    var ids := InfluencedIds(m, ev.port);
    var calls := head + Calls(ExternalCall([ev]), ids);
    CallsKinds(ExternalCall([ev]), ids);
    forall k, x | 0 <= k < |events| && x in InfluencedIds(m, events[k].port)
      ensures Call(ExternalCall([events[k]]), x) in calls
    {
      if k < |events| - 1 {
        assert Call(ExternalCall([events[k]]), x) in head;
      } else {
        var j :| 0 <= j < |ids| && ids[j] == x;
        assert calls[|head| + j] == Call(ExternalCall([ev]), x);
      }
    }
  }

  /** Adding one event to the list: its port's indices are reached after
      those of the earlier events, and its calls follow theirs. */
  lemma ReachedStep(m: InfluenceMap, events: seq<Event>, k: nat)
    requires k < |events|
    ensures Reached(m, events[..k + 1]) == Reached(m, events[..k]) + InfluencedIds(m, events[k].port)
    ensures ExternalCalls(m, events[..k + 1]) ==
      ExternalCalls(m, events[..k]) + Calls(ExternalCall([events[k]]), InfluencedIds(m, events[k].port))
  {
    assert events[..k + 1][..k] == events[..k];
  }

  /** The loop `externalTransition` runs over its events: the indices
      each event's port is wired to lose their scheduled entry and receive
      an external transition carrying that event. Appending to the
      imminent list does not interact with the removals, so the callers
      below add the whole reached list at the end. */
  method RemoveReached(s: Scheduler, events: seq<Event>, m: InfluenceMap)
    returns (data: seq<Entry>, calls: seq<Call>)
    ensures (|events| > 0 || IsHeap(s.data)) ==> IsHeap(data)
    ensures forall e :: e in data ==> e.id !in Reached(m, events) && e in s.data
    ensures calls == ExternalCalls(m, events)
    ensures forall e: Entry :: e.id !in Reached(m, events) ==> multiset(data)[e] == multiset(s.data)[e]
  {
    data, calls := s.data, [];
    var k := 0;
    ghost var reached: seq<nat> := [];
    while k < |events|
      invariant k <= |events|
      invariant reached == Reached(m, events[..k])
      invariant (k > 0 || IsHeap(s.data)) ==> IsHeap(data)
      invariant forall e :: e in data ==> e.id !in reached && e in s.data
      invariant forall e: Entry :: e.id !in reached ==> multiset(data)[e] == multiset(s.data)[e]
      invariant calls == ExternalCalls(m, events[..k])
    {
      var models := InfluencedIds(m, events[k].port);
      ReachedStep(m, events, k);
      var removed := Remove(Scheduler(data, []), models);
      forall e | e in removed.data
        ensures e in data
      {
        assert multiset(removed.data)[e] > 0;
      }
      data := removed.data;
      calls := calls + Calls(ExternalCall([events[k]]), models);
      reached := reached + models;
      k := k + 1;
    }
    assert events[..k] == events;
  }

  /** `externalTransition` as written: for each event, the influenced
      indices lose their scheduled entry, are appended to the imminent
      list and receive an external transition. The per-event append is
      kept as written; the deletion is the corrected `Remove`. */
  method ExternalTransitionAsWritten(s: Scheduler, events: seq<Event>, m: InfluenceMap)
    returns (r: Scheduler, calls: seq<Call>)
    ensures (|events| > 0 || IsHeap(s.data)) ==> IsHeap(r.data)
    ensures r.imminent == s.imminent + Reached(m, events)
    ensures forall e :: e in r.data ==> e.id !in Reached(m, events)
    ensures forall e: Entry :: e.id !in Reached(m, events) ==> multiset(r.data)[e] == multiset(s.data)[e]
    ensures calls == ExternalCalls(m, events)
  {
    var data;
    data, calls := RemoveReached(s, events, m);
    r := Scheduler(data, s.imminent + Reached(m, events));
  }

  /** A port wired to component 3 receiving two events: the as-written
      transition appends 3 to the imminent list twice. */
  lemma ExternalDuplicatesImminent()
    ensures Reached(map["p" := [3]], [Event("p"), Event("p")]) == [3, 3]
  {
    var m := map["p" := [3]];
    assert [Event("p"), Event("p")][..1] == [Event("p")];
    assert [Event("p")][..0] == [];
  }

  /** `externalTransition` appending each influenced index to the imminent
      list only when it is not already there. Appending event by event
      gives the same list as appending all reached indices at once
      (`AppendNewConcat`). */
  method ExternalTransition(s: Scheduler, events: seq<Event>, m: InfluenceMap)
    returns (r: Scheduler, calls: seq<Call>)
    ensures (|events| > 0 || IsHeap(s.data)) ==> IsHeap(r.data)
    ensures r.imminent == AppendNew(s.imminent, Reached(m, events))
    ensures forall e :: e in r.data ==> e.id !in Reached(m, events)
    ensures forall e: Entry :: e.id !in Reached(m, events) ==> multiset(r.data)[e] == multiset(s.data)[e]
    ensures calls == ExternalCalls(m, events)
    ensures Consistent(s) ==> Consistent(r)
  {
    var data;
    data, calls := RemoveReached(s, events, m);
    r := Scheduler(data, AppendNew(s.imminent, Reached(m, events)));
    if Consistent(s) {
      assert forall e :: multiset(r.data)[e] <= multiset(s.data)[e];
    }
  }

  /** The influencees of an event list (the registry's `getInfluencees`):
      every index wired to the port of some event, once. */
  function Influencees(m: InfluenceMap, events: seq<Event>): (r: seq<nat>)
    ensures Distinct(r)
    ensures forall x :: x in r <==> exists k :: 0 <= k < |events| && x in InfluencedIds(m, events[k].port)
  {
    AppendNew([], Reached(m, events))
  }

  /** `std::find_if` for an index: the first position holding x, or |s|. */
  function Find(s: seq<nat>, x: nat): (k: nat)
    ensures k <= |s|
    ensures k < |s| ==> s[k] == x
    ensures forall i :: 0 <= i < k ==> s[i] != x
    decreases |s|
  {
    if |s| == 0 then 0
    else if s[0] == x then 0
    else 1 + Find(s[1..], x)
  }

  /** The first half of the conflict resolution in `confluentTransitions`:
      walking the imminent list from its back, an index that is also
      influenced gets a confluent transition and leaves the influenced list
      (by swap with its last element); any other gets an internal
      transition. `ms` is what is left of the influenced list. */
  method ResolveImminent(imm: seq<nat>, models: seq<nat>, events: seq<Event>)
    returns (calls: seq<Call>, ms: seq<nat>)
    requires Distinct(models)
    ensures Distinct(ms)
    ensures forall x :: x in ms <==> x in models && x !in imm
    ensures forall x :: Hits(calls, x) == multiset(imm)[x]
    ensures forall c :: c in calls ==> c.id in imm
    ensures forall c :: c in calls ==>
      || (c.kind == ConfluentCall(events) && c.id in models)
      || (c.kind == InternalCall && (Distinct(imm) ==> c.id !in models))
  {
    ms := models;
    calls := [];
    ghost var unique := Distinct(imm);
    var j := |imm|;
    while j > 0
      invariant 0 <= j <= |imm|
      invariant Distinct(ms)
      invariant forall x :: x in ms <==> x in models && x !in imm[j..]
      invariant forall x :: Hits(calls, x) == multiset(imm[j..])[x]
      invariant forall c :: c in calls ==> c.id in imm[j..]
      invariant forall c :: c in calls ==>
        || (c.kind == ConfluentCall(events) && c.id in models)
        || (c.kind == InternalCall && (unique ==> c.id !in models))
    {
      var x := imm[j - 1];
      SuffixStep(imm, j);
      var k := Find(ms, x);
      var c;
      if k < |ms| {
        c := Call(ConfluentCall(events), x);
        DropFound(ms, k);
        ms := ms[k := ms[|ms| - 1]][..|ms| - 1];
        assert forall y :: y in ms <==> y in models && y !in imm[j - 1..];
      } else {
        c := Call(InternalCall, x);
        assert x !in ms;
        assert forall y :: y in ms <==> y in models && y !in imm[j - 1..];
      }
      HitsSnoc(calls, c);
      calls := calls + [c];
      j := j - 1;
    }
    assert imm[0..] == imm;
  }

  /** Growing a suffix of `imm` by one element to the left. */
  lemma SuffixStep(imm: seq<nat>, j: nat)
    requires 0 < j <= |imm|
    ensures forall y :: y in imm[j - 1..] <==> y == imm[j - 1] || y in imm[j..]
    ensures forall y :: multiset(imm[j - 1..])[y] == multiset(imm[j..])[y] + (if y == imm[j - 1] then 1 else 0)
    ensures Distinct(imm) ==> imm[j - 1] !in imm[j..]
  {
    var x, done := imm[j - 1], imm[j..];
    assert imm[j - 1..] == [x] + done;
    if Distinct(imm) {
      assert imm == imm[..j - 1] + [x] + done;
      assert multiset(imm)[x] == multiset(imm[..j - 1])[x] + 1 + multiset(done)[x];
    }
  }

  /** The whole conflict resolution: the leftover influenced indices get an
      external transition after the imminent ones are handled, and are
      returned. */
  method Resolve(imm: seq<nat>, models: seq<nat>, events: seq<Event>)
    returns (calls: seq<Call>, rest: seq<nat>)
    requires Distinct(models)
    ensures Distinct(rest)
    ensures forall x :: x in rest <==> x in models && x !in imm
    ensures forall x :: Hits(calls, x) == multiset(imm)[x] + (if x in models && x !in imm then 1 else 0)
    ensures forall c :: c in calls ==>
      || (c.kind == ConfluentCall(events) && c.id in imm && c.id in models)
      || (c.kind == InternalCall && c.id in imm && (Distinct(imm) ==> c.id !in models))
      || (c.kind == ExternalCall(events) && c.id !in imm && c.id in models)
  {
    var head;
    head, rest := ResolveImminent(imm, models, events);
    var tail := Calls(ExternalCall(events), rest);
    CallsKinds(ExternalCall(events), rest);
    forall x
      ensures Hits(head + tail, x) == multiset(imm)[x] + (if x in models && x !in imm then 1 else 0)
    {
      HitsAppend(head, tail, x);
      HitsCalls(ExternalCall(events), rest, x);
    }
    calls := head + tail;
  }

  /** Each component holds at most one place in the scheduler: one heap
      entry or one slot of the imminent list, never both. */
  ghost predicate Consistent(s: Scheduler) {
    && IsHeap(s.data)
    && (forall e :: multiset(s.data)[e] <= 1)
    && (forall e, f :: e in s.data && f in s.data && e.id == f.id ==> e == f)
    && Distinct(s.imminent)
    && (forall e :: e in s.data ==> e.id !in s.imminent)
  }

  /** `confluentTransitions` on the imminent list cached by `output`: the
      influencees lose their scheduled entry; an index both imminent and
      influenced gets one confluent transition, an imminent-only index one
      internal transition and an influenced-only index one external
      transition. The influenced-only indices are appended to the imminent
      list for the following `timeAdvance`. */
  method ConfluentTransitions(s: Scheduler, events: seq<Event>, m: InfluenceMap)
    returns (r: Scheduler, calls: seq<Call>)
    ensures IsHeap(r.data)
    ensures forall e :: e in r.data ==> e.id !in Influencees(m, events)
    ensures forall e: Entry :: e.id !in Influencees(m, events) ==> multiset(r.data)[e] == multiset(s.data)[e]
    ensures |s.imminent| <= |r.imminent| && r.imminent[..|s.imminent|] == s.imminent
    ensures forall x :: x in r.imminent[|s.imminent|..] <==> x in Influencees(m, events) && x !in s.imminent
    ensures Distinct(r.imminent[|s.imminent|..])
    ensures forall x :: (Hits(calls, x) ==
      multiset(s.imminent)[x] + (if x in Influencees(m, events) && x !in s.imminent then 1 else 0))
    ensures forall c :: c in calls ==>
      || (c.kind == ConfluentCall(events) && c.id in s.imminent && c.id in Influencees(m, events))
      || (c.kind == InternalCall && c.id in s.imminent && (Distinct(s.imminent) ==> c.id !in Influencees(m, events)))
      || (c.kind == ExternalCall(events) && c.id !in s.imminent && c.id in Influencees(m, events))
    ensures Distinct(s.imminent) ==> forall x :: Hits(calls, x) <= 1
    ensures Consistent(s) ==> Consistent(r)
  {
    var models := Influencees(m, events);
    var removed := Remove(s, models);
    var rest;
    calls, rest := Resolve(s.imminent, models, events);
    r := removed.(imminent := s.imminent + rest);
    assert r.imminent[..|s.imminent|] == s.imminent;
    assert r.imminent[|s.imminent|..] == rest;
    if Consistent(s) {
      forall e | e in r.data
        ensures e in s.data
      {
        assert multiset(r.data)[e] > 0;
      }
      forall x
        ensures multiset(r.imminent)[x] <= 1
      {
        assert multiset(r.imminent)[x] == multiset(s.imminent)[x] + multiset(rest)[x];
        if x in rest {
          assert multiset(s.imminent)[x] == 0;
        }
      }
      assert forall e :: multiset(r.data)[e] <= multiset(s.data)[e];
    }
  }

  /** `confluentTransitions` as written: it runs `make_imminent` again, so
      it resolves the conflicts against the batch of entries that follows
      the one `output` already extracted. Only that second extraction is
      kept as written; the extraction itself is the corrected
      `MakeImminent`, and the deletion the corrected `Remove`. */
  method ConfluentTransitionsAsWritten(s: Scheduler, events: seq<Event>, m: InfluenceMap)
    returns (r: Scheduler, due: seq<Entry>, calls: seq<Call>)
    requires IsHeap(s.data)
    ensures IsHeap(r.data)
    ensures forall e: Entry :: e.id in Influencees(m, events) ==> multiset(r.data)[e] == 0
    ensures forall e: Entry :: (multiset(due)[e] <= multiset(s.data)[e] &&
      (e.id !in Influencees(m, events) ==> multiset(r.data)[e] + multiset(due)[e] == multiset(s.data)[e]))
    ensures |s.data| == 0 <==> |due| == 0
    ensures |due| > 0 ==> forall e :: e in s.data ==> due[0].time <= e.time
    ensures forall e :: e in due ==> e.time == due[0].time
    ensures |due| > 0 ==> forall e: Entry :: e.time == due[0].time ==> multiset(due)[e] == multiset(s.data)[e]
    ensures forall e :: e in r.data ==> e.time > due[0].time
    ensures forall e :: e in r.data ==> e.id !in Influencees(m, events) && e in s.data
    ensures |due| <= |r.imminent| && r.imminent[..|due|] == Ids(due)
    ensures forall x :: x in r.imminent[|due|..] <==> x in Influencees(m, events) && x !in Ids(due)
    ensures forall x :: (Hits(calls, x) ==
      multiset(Ids(due))[x] + (if x in Influencees(m, events) && x !in Ids(due) then 1 else 0))
    ensures forall c :: c in calls ==>
      || (c.kind == ConfluentCall(events) && c.id in Ids(due) && c.id in Influencees(m, events))
      || (c.kind == InternalCall && c.id in Ids(due) && (Distinct(Ids(due)) ==> c.id !in Influencees(m, events)))
      || (c.kind == ExternalCall(events) && c.id !in Ids(due) && c.id in Influencees(m, events))
  {
    var models := Influencees(m, events);
    var popped;
    popped, due := MakeImminent(s);
    var removed := Remove(popped, models);
    var imm := removed.imminent;
    var rest;
    calls, rest := Resolve(imm, models, events);
    r := removed.(imminent := imm + rest);
    assert r.imminent[..|due|] == Ids(due);
    assert r.imminent[|due|..] == rest;
    forall e | e in r.data
      ensures e in popped.data
    {
      assert multiset(r.data)[e] > 0;
    }
    forall e | e in popped.data
      ensures e in s.data
    {
      assert multiset(popped.data)[e] > 0;
      assert multiset(s.data)[e] > 0;
    }
  }
}
