/** The engine instantiated with the forrest/wall registry, and the
    protocol scenarios that pin down its behaviour on small inputs. */
module ForestModel {
  import opened DevsTime
  import opened Heaps
  import opened Scheduling
  import opened Capabilities
  import opened Seqs
  import opened ModelLists
  import opened Engine

  /** `init` over the forrest/wall registry never raises: every index of
      `range()` is scheduled once, at time 0. `range()` truncates the
      component count to 32 bits, so that is every component only below
      2^32 of them. */
  method InitRegistry(ml: ModelList, time: Time) returns (r: Step<Time>)
    ensures r.Done?
    ensures r.calls == Sweep(InitCall, Range(ml).1)
    ensures Size(ml) < UnsignedModulus ==> r.calls == Sweep(InitCall, Size(ml))
    ensures forall e :: multiset(r.sched.data)[e] == if e.id < Range(ml).1 && e.time == 0 then 1 else 0
    ensures Consistent(r.sched)
    ensures Range(ml).1 > 0 ==> r.value == Fin(0)
    ensures Range(ml).1 == 0 ==> r.value == Fin(MaxDouble)
  {
    var tns := InitResults(ml, time);
    r := Engine.Init(Scheduler([], []), tns);
    FreshConsistent(tns, r.sched);
    if Range(ml).1 > 0 {
      assert NotAfter(r.value, tns[0]);
    }
    if Size(ml) < UnsignedModulus {
      RangeCoversAll(ml);
    }
  }

  /** With exactly 2^32 forrests, `range()` is [0, 0): `init` asks no
      component and returns the largest double. */
  method InitRegistryWraps(f: Forrest, time: Time) returns (r: Step<Time>)
    ensures r.Done? && r.calls == [] && r.value == Fin(MaxDouble)
    ensures forall e :: e !in r.sched.data
  {
    var ml := ModelList(seq(UnsignedModulus, _ => f), [], map[], map[]);
    assert Range(ml).1 == 0;
    r := InitRegistry(ml, time);
    forall e
      ensures e !in r.sched.data
    {
      assert multiset(r.sched.data)[e] == 0;
    }
  }

  /** `finish` delegates to the registry. Here the registry's `finish` is
      the corrected `FinishAll`, so every index is finished once; the
      source's registry finishes only the first sub-component
      (`FinishAsWritten`). */
  method Finish(ml: ModelList) returns (calls: seq<Call>)
    ensures forall c :: multiset(calls)[c] == if c.kind == FinishCall && c.id < Size(ml) then 1 else 0
  {
    calls := FinishAll(ml);
  }

  /** Three components whose `init` returns 5, 3 and 3: the first `output`,
      with the corrected extraction, makes components 1 and 2 imminent and
      leaves component 0 scheduled at 5. The source's back-slot extraction
      can pick component 0 instead, depending on the heap layout. */
  method ScenarioTiedMinimum() returns (imminent: seq<nat>, rest: seq<Entry>, calls: seq<Call>)
    ensures multiset(imminent) == multiset{1, 2}
    ensures rest == [Entry(5, 0)]
    ensures forall x :: Hits(calls, x) == if x == 1 || x == 2 then 1 else 0
  {
    var s0 := InitThree();
    var s, due;
    s, due, calls := Output(s0);
    TiedSplit(s0.data, due, s.data);
    rest := s.data;
    imminent := s.imminent;
    PairIds(due, Entry(3, 1), Entry(3, 2));
  }

  method InitThree() returns (s0: Scheduler)
    ensures IsHeap(s0.data)
    ensures multiset(s0.data) == multiset{Entry(5, 0), Entry(3, 1), Entry(3, 2)}
  {
    var tns := [Fin(5), Fin(3), Fin(3)];
    assert forall i :: 0 <= i < |tns| ==> !IsNegative(tns[i]);
    var r := Engine.Init(Scheduler([], []), tns);
    s0 := r.sched;
    ThreeScheduled(tns, s0.data);
  }

  lemma ThreeScheduled(tns: seq<Time>, d: seq<Entry>)
    requires tns == [Fin(5), Fin(3), Fin(3)]
    requires forall e :: (multiset(d)[e] ==
      multiset([])[e] + (if e.id < |tns| && tns[e.id] == Fin(e.time) then 1 else 0))
    ensures multiset(d) == multiset{Entry(5, 0), Entry(3, 1), Entry(3, 2)}
  {
    var m := multiset{Entry(5, 0), Entry(3, 1), Entry(3, 2)};
    forall e
      ensures multiset(d)[e] == m[e]
    {
      if e.id == 0 {
      } else if e.id == 1 {
      } else if e.id == 2 {
      } else {
      }
    }
  }

  lemma TiedSplit(d: seq<Entry>, due: seq<Entry>, rest: seq<Entry>)
    requires multiset(d) == multiset{Entry(5, 0), Entry(3, 1), Entry(3, 2)}
    requires multiset(due) + multiset(rest) == multiset(d)
    requires |due| > 0 && forall e :: e in d ==> due[0].time <= e.time
    requires forall e :: e in due ==> e.time == due[0].time
    requires forall e :: e in rest ==> e.time > due[0].time
    ensures multiset(due) == multiset{Entry(3, 1), Entry(3, 2)}
    ensures rest == [Entry(5, 0)]
  {
    assert due[0] in multiset(d);
    assert Entry(3, 1) in d;
    assert due[0].time == 3;
    assert Entry(5, 0) !in due;
    assert Entry(3, 1) !in rest && Entry(3, 2) !in rest;
    assert multiset(rest) == multiset{Entry(5, 0)};
    assert |rest| == 1 && rest[0] in multiset(rest);
  }

  lemma PairIds(due: seq<Entry>, a: Entry, b: Entry)
    requires a != b && multiset(due) == multiset{a, b}
    ensures multiset(Ids(due)) == multiset{a.id, b.id}
  {
    assert |due| == 2;
    assert due == [due[0], due[1]];
    assert Ids(due) == [due[0].id, due[1].id];
    if due[0] == a {
      assert due[1] in multiset(due);
    } else {
      assert due[0] in multiset(due);
      assert due[1] in multiset(due);
    }
  }

  /** The only scheduled component has entry (t, id): `output` makes it
      the one imminent index and leaves the heap empty. */
  method OutputSingle(t: int, id: nat) returns (s: Scheduler)
    ensures s == Scheduler([], [id])
  {
    var due, calls;
    s, due, calls := Output(Scheduler([Entry(t, id)], []));
    assert multiset(due) + multiset(s.data) == multiset{Entry(t, id)};
    assert due[0] in multiset(due);
    assert |due| == 1 && |s.data| == 0;
    assert Ids(due) == [id];
  }

  /** Components 0, 1 and 2 scheduled at 1, 2 and 3: `output` extracts 0
      and leaves the other two scheduled. */
  method OutputFirst() returns (s: Scheduler)
    ensures s.imminent == [0] && IsHeap(s.data)
    ensures multiset(s.data) == multiset{Entry(2, 1), Entry(3, 2)}
  {
    var s0 := Scheduler([Entry(1, 0), Entry(2, 1), Entry(3, 2)], []);
    var due, calls;
    s, due, calls := Output(s0);
    assert due[0] in multiset(s0.data);
    assert due[0] == Entry(1, 0);
    assert Entry(2, 1) !in due && Entry(3, 2) !in due;
    assert multiset(due) == multiset{Entry(1, 0)};
    assert |due| == 1;
    assert Ids(due) == [0];
  }

  /** One event reaches exactly the indices its port is wired to. */
  lemma ReachedOne(m: InfluenceMap, ev: Event)
    ensures Reached(m, [ev]) == InfluencedIds(m, ev.port)
  {
    assert [ev][..0] == [];
  }

  /** The external transitions one event causes all carry that event. */
  lemma ExternalCallsOne(m: InfluenceMap, ev: Event)
    ensures forall c :: c in ExternalCalls(m, [ev]) ==> c.kind == ExternalCall([ev])
  {
    forall c | c in ExternalCalls(m, [ev])
      ensures c.kind == ExternalCall([ev])
    {
      var k :| 0 <= k < 1 && c.kind == ExternalCall([[ev][k]]) && c.id in InfluencedIds(m, [ev][k].port);
      assert k == 0;
    }
  }

  lemma AppendNewOne(a: nat)
    ensures AppendNew([], [a]) == [a]
  {
    assert [a][..0] == [];
  }

  lemma AppendNewTwo(a: nat, b: nat)
    requires a != b
    ensures AppendNew([], [a, b]) == [a, b]
  {
    assert [a, b][..1] == [a];
    AppendNewOne(a);
  }

  lemma {:induction false} CountAll(s: seq<nat>, a: nat)
    requires forall x :: x in s ==> x == a
    ensures multiset(s)[a] == |s|
    decreases |s|
  {
    if |s| > 0 {
      assert s == [s[0]] + s[1..];
      assert s[0] in s;
      assert forall x :: x in s[1..] ==> x in s;
      CountAll(s[1..], a);
    }
  }

  /** A duplicate-free sequence whose only element is a is [a]. */
  lemma OnlyOne(s: seq<nat>, a: nat)
    requires Distinct(s)
    requires forall x :: x in s <==> x == a
    ensures s == [a]
  {
    CountAll(s, a);
    assert a in s;
    assert s[0] in s;
  }

  /** A component due at 10 that also receives an external event at 10:
      exactly one confluent transition, and no internal or external one. */
  method ScenarioConfluent() returns (calls: seq<Call>)
    ensures Hits(calls, 0) == 1
    ensures forall c :: c in calls ==> c == Call(ConfluentCall([Event("in")]), 0)
  {
    var s1 := OutputSingle(10, 0);
    var events := [Event("in")];
    var m := map["in" := [0]];
    ReachedOne(m, Event("in"));
    AppendNewOne(0);
    assert Influencees(m, events) == [0];
    assert Distinct(s1.imminent) by {
      assert forall x :: multiset([0])[x] == if x == 0 then 1 else 0;
    }
    var s2;
    s2, calls := ConfluentTransitions(s1, events, m);
  }

  /** What `externalTransition` leaves of [(7, 2), (9, 4), (8, 1)] once 2
      and 4 are removed. */
  lemma KeepsOnlyOne(before: seq<Entry>, after: seq<Entry>)
    requires before == [Entry(7, 2), Entry(9, 4), Entry(8, 1)]
    requires forall e :: e in after ==> e.id != 2 && e.id != 4
    requires forall e: Entry :: e.id != 2 && e.id != 4 ==> multiset(after)[e] == multiset(before)[e]
    ensures after == [Entry(8, 1)]
  {
    forall e
      ensures multiset(after)[e] == multiset{Entry(8, 1)}[e]
    {
      if e.id != 2 && e.id != 4 {
        assert multiset(after)[e] == multiset(before)[e];
      } else {
        assert e !in after;
      }
    }
    assert multiset(after) == multiset{Entry(8, 1)};
    assert |after| == 1 && after[0] in multiset(after);
  }

  /** An external event on a port wired to components 2 and 4, scheduled
      at 7 and 9: both entries go regardless of their times, both get an
      external transition and wait in the imminent list for `timeAdvance`;
      component 1 keeps its entry at 8. */
  method ScenarioExternal() returns (s: Scheduler, calls: seq<Call>)
    ensures s.data == [Entry(8, 1)]
    ensures s.imminent == [2, 4]
    ensures Hits(calls, 2) == 1 && Hits(calls, 4) == 1 && Hits(calls, 1) == 0
    ensures forall c :: c in calls ==> c.kind == ExternalCall([Event("p")])
  {
    var s0 := Scheduler([Entry(7, 2), Entry(9, 4), Entry(8, 1)], []);
    var events := [Event("p")];
    var m := map["p" := [2, 4]];
    ReachedOne(m, Event("p"));
    AppendNewTwo(2, 4);
    ExternalCallsOne(m, Event("p"));
    s, calls := ExternalTransition(s0, events, m);
    KeepsOnlyOne(s0.data, s.data);
  }

  /** The tied batch at the least time of `OutputFirst`'s heap is the
      single entry (2, 1). */
  lemma DueOfFirst(due: seq<Entry>, data: seq<Entry>)
    requires multiset(data) == multiset{Entry(2, 1), Entry(3, 2)}
    requires multiset(due) <= multiset(data)
    requires |due| > 0 && forall e :: e in data ==> due[0].time <= e.time
    requires forall e :: e in due ==> e.time == due[0].time
    ensures due == [Entry(2, 1)] && Ids(due) == [1]
  {
    assert due[0] in multiset(due);
    assert Entry(2, 1) in multiset(data);
    assert due[0] == Entry(2, 1);
    forall e
      ensures multiset(due)[e] == multiset{Entry(2, 1)}[e]
    {
      if e in due {
        assert e in multiset(data);
      }
    }
    assert multiset(due) == multiset{Entry(2, 1)};
    assert |due| == 1;
  }

  /** A sequence with no members is empty. */
  lemma NoMember(s: seq<nat>)
    requires forall x :: x !in s
    ensures s == []
  {
    forall x
      ensures multiset(s)[x] == 0
    {
      assert x !in s;
    }
    assert multiset(s) == multiset{};
  }

  /** A scheduler holding (3, 2) once and nothing else. */
  lemma OnlyLast(d: seq<Entry>)
    requires forall e :: multiset(d)[e] == if e == Entry(3, 2) then 1 else 0
    ensures d == [Entry(3, 2)]
  {
    assert multiset(d) == multiset{Entry(3, 2)};
    assert |d| == 1 && d[0] in multiset(d);
  }

  /** `confluentTransitions` as written, on `OutputFirst`'s scheduler with
      an event wired to 1. Only the second `make_imminent` is kept as
      written; extraction and `remove` are the corrected ones. The second
      extraction takes (2, 1), so component 1, due only at 2, gets the
      confluent transition, while component 0, which `output` extracted at
      1, gets no transition and is neither scheduled nor imminent
      afterwards. Component 2 keeps its entry. */
  method OutputThenConfluentAsWritten() returns (s: Scheduler, calls: seq<Call>)
    ensures Hits(calls, 0) == 0
    ensures 0 !in s.imminent
    ensures forall e :: e in s.data ==> e.id != 0
    ensures Hits(calls, 1) == 1
    ensures forall c :: c in calls ==> c == Call(ConfluentCall([Event("p")]), 1)
    ensures s.imminent == [1] && s.data == [Entry(3, 2)]
  {
    var s1 := OutputFirst();
    var events := [Event("p")];
    var m := map["p" := [1]];
    ReachedOne(m, Event("p"));
    AppendNewOne(1);
    assert Influencees(m, events) == [1];
    var due2;
    s, due2, calls := ConfluentTransitionsAsWritten(s1, events, m);
    DueOfFirst(due2, s1.data);
    AfterSecondBatch(s1.data, s, calls, events, [1]);
  }

  /** What the as-written step leaves once the second batch is [(2, 1)]
      and the event reaches component 1 only. */
  lemma AfterSecondBatch(d: seq<Entry>, r: Scheduler, calls: seq<Call>, events: seq<Event>, infl: seq<nat>)
    requires multiset(d) == multiset{Entry(2, 1), Entry(3, 2)} && infl == [1]
    requires forall e: Entry :: e.id !in infl ==> multiset(r.data)[e] + multiset([Entry(2, 1)])[e] == multiset(d)[e]
    requires forall e :: e in r.data ==> e.id !in infl
    requires |r.imminent| >= 1 && r.imminent[..1] == [1]
    requires forall x :: x in r.imminent[1..] <==> x in infl && x !in [1]
    requires forall x :: Hits(calls, x) == multiset([1])[x] + (if x in infl && x !in [1] then 1 else 0)
    requires forall c :: c in calls ==>
      || (c.kind == ConfluentCall(events) && c.id in [1] && c.id in infl)
      || (c.kind == InternalCall && c.id in [1] && (Distinct([1]) ==> c.id !in infl))
      || (c.kind == ExternalCall(events) && c.id !in [1] && c.id in infl)
    ensures Hits(calls, 0) == 0 && Hits(calls, 1) == 1
    ensures forall c :: c in calls ==> c == Call(ConfluentCall(events), 1)
    ensures r.imminent == [1] && r.data == [Entry(3, 2)]
  {
    assert Distinct([1]) by {
      assert forall x :: multiset([1])[x] == if x == 1 then 1 else 0;
    }
    NoMember(r.imminent[1..]);
    assert r.imminent == r.imminent[..1] + r.imminent[1..];
    forall e
      ensures multiset(r.data)[e] == if e == Entry(3, 2) then 1 else 0
    {
      if e.id != 1 {
        assert multiset(r.data)[e] + multiset([Entry(2, 1)])[e] == multiset(d)[e];
      } else {
        assert e !in r.data;
      }
    }
    OnlyLast(r.data);
  }

  /** The same step with the cached imminent list: component 0 gets its
      internal transition and component 1 its external one; both wait for
      `timeAdvance` and component 2 keeps its entry. */
  method OutputThenConfluent() returns (s: Scheduler, calls: seq<Call>)
    ensures Hits(calls, 0) == 1 && Hits(calls, 1) == 1
    ensures forall c :: c in calls ==> c == Call(InternalCall, 0) || c == Call(ExternalCall([Event("p")]), 1)
    ensures s.imminent == [0, 1] && s.data == [Entry(3, 2)]
  {
    var s1 := OutputFirst();
    var events := [Event("p")];
    var m := map["p" := [1]];
    ReachedOne(m, Event("p"));
    AppendNewOne(1);
    assert Influencees(m, events) == [1];
    assert Distinct(s1.imminent) by {
      assert forall x :: multiset([0])[x] == if x == 0 then 1 else 0;
    }
    s, calls := ConfluentTransitions(s1, events, m);
    AfterConfluentFirst(s1, s, Influencees(m, events));
    CallsAfterFirst(s1, calls, events, Influencees(m, events));
  }

  /** The transitions `confluentTransitions` makes on `OutputFirst`'s
      scheduler when the event reaches component 1 only. */
  lemma CallsAfterFirst(s1: Scheduler, calls: seq<Call>, events: seq<Event>, infl: seq<nat>)
    requires s1.imminent == [0] && infl == [1]
    requires forall x :: (Hits(calls, x) ==
      multiset(s1.imminent)[x] + (if x in infl && x !in s1.imminent then 1 else 0))
    requires forall c :: c in calls ==>
      || (c.kind == ConfluentCall(events) && c.id in s1.imminent && c.id in infl)
      || (c.kind == InternalCall && c.id in s1.imminent && (Distinct(s1.imminent) ==> c.id !in infl))
      || (c.kind == ExternalCall(events) && c.id !in s1.imminent && c.id in infl)
    ensures Hits(calls, 0) == 1 && Hits(calls, 1) == 1
    ensures forall c :: c in calls ==> c == Call(InternalCall, 0) || c == Call(ExternalCall(events), 1)
  {
    assert Hits(calls, 0) == multiset([0])[0];
    assert Hits(calls, 1) == multiset([0])[1] + 1;
  }

  /** What `confluentTransitions` leaves of `OutputFirst`'s scheduler when
      the event reaches component 1 only. */
  lemma AfterConfluentFirst(s1: Scheduler, r: Scheduler, infl: seq<nat>)
    requires s1.imminent == [0] && infl == [1]
    requires multiset(s1.data) == multiset{Entry(2, 1), Entry(3, 2)}
    requires forall e :: e in r.data ==> e.id !in infl
    requires forall e: Entry :: e.id !in infl ==> multiset(r.data)[e] == multiset(s1.data)[e]
    requires |s1.imminent| <= |r.imminent| && r.imminent[..|s1.imminent|] == s1.imminent
    requires forall x :: x in r.imminent[|s1.imminent|..] <==> x in infl && x !in s1.imminent
    requires Distinct(r.imminent[|s1.imminent|..])
    ensures r.imminent == [0, 1] && r.data == [Entry(3, 2)]
  {
    OnlyOne(r.imminent[1..], 1);
    assert r.imminent == r.imminent[..1] + r.imminent[1..];
    forall e
      ensures multiset(r.data)[e] == if e == Entry(3, 2) then 1 else 0
    {
      if e.id != 1 {
        assert multiset(r.data)[e] == multiset(s1.data)[e];
      } else {
        assert e !in r.data;
      }
    }
    OnlyLast(r.data);
  }
}
