/** The capability set every sub-component offers to the engine, and the
    trace of calls the engine makes into its registry. Event payloads are
    left abstract: an event is known by its port name only. */
module Capabilities {

  datatype Option<T> = None | Some(value: T)

  datatype Event = Event(port: string)

  /** Which capability was invoked; transitions record the events given. */
  datatype Kind =
    | InitCall
    | OutputCall
    | TimeAdvanceCall
    | InternalCall
    | ExternalCall(events: seq<Event>)
    | ConfluentCall(events: seq<Event>)
    | FinishCall

  /** One call of a capability on the sub-component at index `id`. */
  datatype Call = Call(kind: Kind, id: nat)

  /** Input port name to the indices of the sub-components it influences. */
  type InfluenceMap = map<string, seq<nat>>

  /** The indices wired to `port`; none for a port the map does not know. */
  function InfluencedIds(m: InfluenceMap, port: string): seq<nat> {
    if port in m then m[port] else []
  }

  /** The calls of one capability on each index of `ids`, in order. */
  function Calls(kind: Kind, ids: seq<nat>): seq<Call>
    decreases |ids|
  {
    if |ids| == 0 then [] else Calls(kind, ids[..|ids| - 1]) + [Call(kind, ids[|ids| - 1])]
  }

  /** The calls of one capability on indices 0 .. n - 1, in order. */
  function Sweep(kind: Kind, n: nat): seq<Call> {
    if n == 0 then [] else Sweep(kind, n - 1) + [Call(kind, n - 1)]
  }

  /** The number of calls addressed to index x. */
  function Hits(calls: seq<Call>, x: nat): nat
    decreases |calls|
  {
    if |calls| == 0 then 0
    else Hits(calls[..|calls| - 1], x) + (if calls[|calls| - 1].id == x then 1 else 0)
  }

  lemma {:induction false} SweepCount(kind: Kind, n: nat)
    ensures forall c :: multiset(Sweep(kind, n))[c] == if c.kind == kind && c.id < n then 1 else 0
  {
    if n > 0 {
      SweepCount(kind, n - 1);
      assert multiset(Sweep(kind, n)) == multiset(Sweep(kind, n - 1)) + multiset{Call(kind, n - 1)};
    }
  }

  lemma {:induction false} CallsKinds(kind: Kind, ids: seq<nat>)
    ensures |Calls(kind, ids)| == |ids|
    ensures forall k :: 0 <= k < |ids| ==> Calls(kind, ids)[k] == Call(kind, ids[k])
    decreases |ids|
  {
    if |ids| > 0 {
      CallsKinds(kind, ids[..|ids| - 1]);
    }
  }

  lemma {:induction false} HitsAppend(a: seq<Call>, b: seq<Call>, x: nat)
    ensures Hits(a + b, x) == Hits(a, x) + Hits(b, x)
    decreases |b|
  {
    if |b| > 0 {
      assert (a + b)[..|a + b| - 1] == a + b[..|b| - 1];
      HitsAppend(a, b[..|b| - 1], x);
    } else {
      assert a + b == a;
    }
  }

  lemma {:induction false} HitsCalls(kind: Kind, ids: seq<nat>, x: nat)
    ensures Hits(Calls(kind, ids), x) == multiset(ids)[x]
    decreases |ids|
  {
    if |ids| > 0 {
      var pre := ids[..|ids| - 1];
      assert ids == pre + [ids[|ids| - 1]];
      HitsCalls(kind, pre, x);
      HitsAppend(Calls(kind, pre), [Call(kind, ids[|ids| - 1])], x);
    }
  }

  lemma HitsSnoc(calls: seq<Call>, c: Call)
    ensures forall x :: Hits(calls + [c], x) == Hits(calls, x) + (if c.id == x then 1 else 0)
  {
    assert (calls + [c])[..|calls|] == calls;
  }
}
