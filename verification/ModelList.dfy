/** The concrete registry the engine is instantiated with: two typed arenas,
    forrests then walls, addressed by one index space, plus the port
    influence maps. */
module ModelLists {
  import opened DevsTime
  import opened Capabilities

  datatype Forrest = Forrest(x: nat, y: nat, width: nat, height: nat)

  datatype Wall = Wall(x: nat, y: nat, width: nat, height: nat)

  /** Both leaf kinds schedule themselves immediately. */
  function ForrestInit(f: Forrest, time: Time): Time {
    Fin(0)
  }

  function WallInit(w: Wall, time: Time): Time {
    Fin(0)
  }

  datatype ModelList = ModelList(
    forrests: seq<Forrest>,
    walls: seq<Wall>,
    influencers: InfluenceMap,  // input port -> components
    influenced: InfluenceMap)   // output port -> influenced

  /** `range()` returns a 32-bit unsigned upper bound. */
  const UnsignedModulus: int := 0x1_0000_0000

  function Size(ml: ModelList): nat {
    |ml.forrests| + |ml.walls|
  }

  function Range(ml: ModelList): (nat, nat) {
    (0, Size(ml) % UnsignedModulus)
  }

  /** Below 2^32 sub-components, `range()` is [0, |forrests| + |walls|). */
  lemma RangeCoversAll(ml: ModelList)
    requires Size(ml) < UnsignedModulus
    ensures Range(ml).0 == 0 && Range(ml).1 == |ml.forrests| + |ml.walls|
  {
  }

  /** Where an index lives: a slot of one of the two arenas. */
  datatype Slot = InForrests(k: nat) | InWalls(k: nat)

  predicate ValidSlot(ml: ModelList, slot: Slot) {
    match slot
    case InForrests(k) => k < |ml.forrests|
    case InWalls(k) => k < |ml.walls|
  }

  function IndexOf(ml: ModelList, slot: Slot): nat {
    match slot
    case InForrests(k) => k
    case InWalls(k) => |ml.forrests| + k
  }

  /** Dispatch by range membership: forrests occupy the first segment,
      walls the second. */
  function Locate(ml: ModelList, id: nat): (slot: Slot)
    requires id < Size(ml)
    ensures ValidSlot(ml, slot)
    ensures slot.InForrests? <==> id < |ml.forrests|
    ensures IndexOf(ml, slot) == id
  {
    if id < |ml.forrests| then InForrests(id) else InWalls(id - |ml.forrests|)
  }

  /** The other direction: every sub-component has exactly one index in
      range, so dispatch is a bijection between range() and the slots. */
  lemma LocateIndexOf(ml: ModelList, slot: Slot)
    requires ValidSlot(ml, slot)
    ensures IndexOf(ml, slot) < Size(ml)
    ensures Locate(ml, IndexOf(ml, slot)) == slot
  {
  }

  /** `ModelList::init(id, time)`: forwards to the sub-component at `id`. */
  function InitIndex(ml: ModelList, id: nat, time: Time): (r: Time)
    requires id < Size(ml)
    ensures id < |ml.forrests| ==> r == ForrestInit(ml.forrests[id], time)
    ensures id >= |ml.forrests| ==> r == WallInit(ml.walls[id - |ml.forrests|], time)
  {
    match Locate(ml, id)
    case InForrests(k) => ForrestInit(ml.forrests[k], time)
    case InWalls(k) => WallInit(ml.walls[k], time)
  }

  /** The results the engine's init loop receives: one per index from
      `range().first` up to the truncated `range().second`, each 0. Only
      below 2^32 sub-components is that every index of the registry. */
  function InitResults(ml: ModelList, time: Time): (tns: seq<Time>)
    ensures |tns| == Range(ml).1 - Range(ml).0
    ensures Size(ml) < UnsignedModulus ==> |tns| == Size(ml)
    ensures forall i :: 0 <= i < |tns| ==> tns[i] == Fin(0)
  {
    seq(Range(ml).1, i requires 0 <= i < Range(ml).1 => InitIndex(ml, i, time))
  }

  /** Every in-range index of this registry starts at time 0. */
  lemma InitIsZero(ml: ModelList, time: Time)
    ensures forall i :: 0 <= i < Size(ml) ==> InitIndex(ml, i, time) == Fin(0)
  {
  }

  /** `influenced(port)`: the stored list for a known input port, nothing
      for an unknown one. The registry is a value, so the lookup cannot
      change it. */
  function Influenced(ml: ModelList, port: string): (r: Option<seq<nat>>)
    ensures r.Some? <==> port in ml.influencers
    ensures r.Some? ==> r.value == ml.influencers[port]
    ensures (if r.Some? then r.value else []) == InfluencedIds(ml.influencers, port)
  {
    if port in ml.influencers then Some(ml.influencers[port]) else None
  }

  /** `finish` as written: the `return` inside each loop ends the call after
      the first forrest, or after the first wall when there is no forrest. */
  function FinishAsWritten(ml: ModelList): seq<Call> {
    if |ml.forrests| > 0 then [Call(FinishCall, 0)]
    else if |ml.walls| > 0 then [Call(FinishCall, |ml.forrests|)]
    else []
  }

  /** With two forrests, the as-written finish never reaches index 1. */
  lemma FinishAsWrittenSkips(f: Forrest)
    ensures var ml := ModelList([f, f], [], map[], map[]);
      1 < Size(ml) && multiset(FinishAsWritten(ml))[Call(FinishCall, 1)] == 0
  {
  }

  /** `finish` as intended: every forrest, then every wall, once each. */
  method FinishAll(ml: ModelList) returns (calls: seq<Call>)
    ensures calls == Sweep(FinishCall, Size(ml))
    ensures forall c :: multiset(calls)[c] == if c.kind == FinishCall && c.id < Size(ml) then 1 else 0
  {
    calls := [];
    var k := 0;
    while k < |ml.forrests|
      invariant k <= |ml.forrests|
      invariant calls == Sweep(FinishCall, k)
    {
      calls := calls + [Call(FinishCall, k)];
      k := k + 1;
    }
    k := 0;
    while k < |ml.walls|
      invariant k <= |ml.walls|
      invariant calls == Sweep(FinishCall, |ml.forrests| + k)
    {
      calls := calls + [Call(FinishCall, |ml.forrests| + k)];
      k := k + 1;
    }
    assert |ml.forrests| + k == Size(ml);
    FinishedOnce(calls, Size(ml));
  }

  lemma FinishedOnce(calls: seq<Call>, n: nat)
    requires calls == Sweep(FinishCall, n)
    ensures forall c :: multiset(calls)[c] == if c.kind == FinishCall && c.id < n then 1 else 0
  {
    SweepCount(FinishCall, n);
  }
}
