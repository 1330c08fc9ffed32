/** The engine's scheduler: a heap of (time, index) entries for the
    components that have a finite next time, and the cached list of
    imminent indices computed once per step. */
module Scheduling {
  import opened DevsTime
  import opened Heaps
  import opened Seqs

  datatype Scheduler = Scheduler(data: seq<Entry>, imminent: seq<nat>)

  function Ids(es: seq<Entry>): seq<nat> {
    seq(|es|, i requires 0 <= i < |es| => es[i].id)
  }

  lemma IdsMember(es: seq<Entry>, x: nat)
    ensures x in Ids(es) <==> exists e :: e in es && e.id == x
  {
    if x in Ids(es) {
      var i :| 0 <= i < |es| && Ids(es)[i] == x;
      assert es[i] in es;
    }
    if exists e :: e in es && e.id == x {
      var e :| e in es && e.id == x;
      var i :| 0 <= i < |es| && es[i] == e;
      assert Ids(es)[i] == x;
    }
  }

  /** Entries that occur once each and carry pairwise different indices
      give a duplicate-free index list. */
  lemma {:induction false} IdsDistinct(es: seq<Entry>)
    requires forall e :: multiset(es)[e] <= 1
    requires forall e, f :: e in es && f in es && e.id == f.id ==> e == f
    ensures Distinct(Ids(es))
    decreases |es|
  {
    if |es| > 0 {
      var n := |es|;
      var pre, last := es[..n - 1], es[n - 1];
      assert es == pre + [last];
      assert Ids(es) == Ids(pre) + [last.id];
      assert forall e :: multiset(es)[e] == multiset(pre)[e] + (if e == last then 1 else 0);
      IdsDistinct(pre);
      IdsMember(pre, last.id);
      assert last !in pre;
      assert last.id !in Ids(pre);
      assert forall x :: multiset(Ids(es))[x] == multiset(Ids(pre))[x] + (if x == last.id then 1 else 0);
    }
  }

  /** The next time of the whole scheduler: the least scheduled time, or
      Inf when no component is scheduled. */
  function NextTime(s: Scheduler): (r: Time)
    requires IsHeap(s.data)
    ensures r.Inf? <==> |s.data| == 0
    ensures r.Fin? ==> exists e :: e in s.data && e.time == r.v
    ensures r.Fin? ==> forall e :: e in s.data ==> r.v <= e.time
  {
    if |s.data| == 0 then Inf
    else
      RootIsLeast(s.data);
      Fin(s.data[0].time)
  }

  /** `make_imminent`, reading the heap's logical minimum: pops every entry
      tied with the least time. `due` lists the popped entries; the new
      imminent list holds their indices. */
  method MakeImminent(s: Scheduler) returns (r: Scheduler, due: seq<Entry>)
    requires IsHeap(s.data)
    ensures IsHeap(r.data)
    ensures r.imminent == Ids(due)
    ensures multiset(due) + multiset(r.data) == multiset(s.data)
    ensures |s.data| == 0 <==> |due| == 0
    ensures |due| > 0 ==> (forall e :: e in s.data ==> due[0].time <= e.time)
    ensures forall e :: e in due ==> e.time == due[0].time
    ensures forall e :: e in r.data ==> e.time > due[0].time
  {
    if |s.data| == 0 {
      r, due := Scheduler(s.data, []), [];
      return;
    }
    var top, data := PopMin(s.data);
    var t := top.time;
    due := [top];
    while |data| > 0 && data[0].time == t
      invariant IsHeap(data)
      invariant |due| > 0 && due[0] == top
      invariant multiset(due) + multiset(data) == multiset(s.data)
      invariant forall e :: e in due ==> e.time == t
      invariant forall e :: e in data ==> t <= e.time
      decreases |data|
    {
      var next;
      next, data := PopMin(data);
      due := due + [next];
    }
    if |data| > 0 {
      RootIsLeast(data);
    }
    r := Scheduler(data, Ids(due));
  }

  /** `make_imminent` as written: it reads `data.back()`, the last storage
      slot, as if it were the minimum, and pops from the back while the
      time stays equal to it. */
  function MakeImminentAsWritten(data: seq<Entry>): Scheduler {
    if |data| == 0 then Scheduler([], [])
    else PopBackWhile(data, data[|data| - 1].time, [])
  }

  function PopBackWhile(data: seq<Entry>, t: int, acc: seq<nat>): Scheduler
    decreases |data|
  {
    if |data| > 0 && data[|data| - 1].time == t
    then PopBackWhile(data[..|data| - 1], t, acc + [data[|data| - 1].id])
    else Scheduler(data, acc)
  }

  /** A valid heap whose last slot is not its minimum: the as-written
      extraction returns component 2 (time 3) while component 0 is due at
      time 1 and stays scheduled. */
  lemma BackIsNotTheMinimum()
    ensures var data := [Entry(1, 0), Entry(5, 1), Entry(3, 2)];
      && IsHeap(data)
      && MakeImminentAsWritten(data) == Scheduler([Entry(1, 0), Entry(5, 1)], [2])
      && NextTime(Scheduler(data, [])) == Fin(1)
  {
    var data := [Entry(1, 0), Entry(5, 1), Entry(3, 2)];
    assert data[..2] == [Entry(1, 0), Entry(5, 1)];
    assert PopBackWhile(data[..2], 3, [2]) == Scheduler([Entry(1, 0), Entry(5, 1)], [2]);
  }

  /** `remove` with a loop that stops at the end of the live slots: every
      entry of a listed component is deleted by overwriting it with the last
      slot and dropping that slot, then the heap is rebuilt. */
  method Remove(s: Scheduler, models: seq<nat>) returns (r: Scheduler)
    ensures r.imminent == s.imminent
    ensures IsHeap(r.data)
    ensures forall e :: e in r.data ==> e.id !in models
    ensures forall e: Entry :: e.id !in models ==> multiset(r.data)[e] == multiset(s.data)[e]
  {
    var d := s.data;
    var i := 0;
    while i < |d|
      invariant i <= |d|
      invariant forall k :: 0 <= k < i ==> d[k].id !in models
      invariant forall e: Entry :: e.id !in models ==> multiset(d)[e] == multiset(s.data)[e]
      decreases |d| - i
    {
      if d[i].id in models {
        var last := |d| - 1;
        SwapPopMultiset(d, i);
        d := d[i := d[last]][..last];
      } else {
        i := i + 1;
      }
    }
    var h := MakeHeap(d);
    forall e | e in h
      ensures e in d
    {
      assert e in multiset(h);
    }
    r := Scheduler(h, s.imminent);
  }

  /** Removing an empty list keeps every entry, and removing the same
      list twice removes nothing the second time. */
  method RemoveTwice(s: Scheduler, models: seq<nat>) returns (once: Scheduler, twice: Scheduler)
    ensures |models| == 0 ==> multiset(once.data) == multiset(s.data)
    ensures multiset(twice.data) == multiset(once.data)
    ensures forall e :: e in twice.data ==> e.id !in models
  {
    once := Remove(s, models);
    twice := Remove(once, models);
    forall e
      ensures multiset(twice.data)[e] == multiset(once.data)[e]
    {
      if e.id in models {
        assert e !in twice.data && e !in once.data;
      }
    }
  }

  /** `std::size_t` is 64 bits wide: its arithmetic wraps modulo this. */
  const SizeModulus: int := 0x1_0000_0000_0000_0000

  /** The variables of the as-written `remove` loop: the live data, the
      scan position `i` and the swap slot `element_to_swap`. */
  datatype RemoveState = RemoveState(data: seq<Entry>, i: nat, swap: nat)

  datatype Iteration = Continue(state: RemoveState) | OutOfBounds

  /** `remove` as written starts its swap slot at `data.size() - 1`. */
  function RemoveStartAsWritten(data: seq<Entry>): RemoveState {
    RemoveState(data, 0, (|data| - 1) % SizeModulus)
  }

  /** One run of the as-written loop body under `i <= element_to_swap`, with
      wrap-around of `--i` and `element_to_swap--`; OutOfBounds when it
      reads a slot past the end of `data`. */
  function RemoveIterAsWritten(st: RemoveState, models: seq<nat>): Iteration
    requires st.i <= st.swap
  {
    if |models| == 0 then Continue(st.(i := (st.i + 1) % SizeModulus))
    else if st.i >= |st.data| then OutOfBounds
    else if st.data[st.i].id in models then
      if st.swap >= |st.data| then OutOfBounds
      else
        var moved := st.data[st.i := st.data[st.swap]][..|st.data| - 1];
        var i' := ((st.i - 1) % SizeModulus + 1) % SizeModulus;
        Continue(RemoveState(moved, i', (st.swap - 1) % SizeModulus))
    else Continue(st.(i := (st.i + 1) % SizeModulus))
  }

  /** On an empty heap the swap slot wraps to 2^64 - 1, so the first body
      run reads `data[0]` of an empty vector. */
  lemma RemoveOnEmptyReadsPastEnd(models: seq<nat>)
    requires |models| > 0
    ensures var st := RemoveStartAsWritten([]);
      st.i <= st.swap && RemoveIterAsWritten(st, models) == OutOfBounds
  {
  }

  /** Deleting the only remaining entry wraps the swap slot to 2^64 - 1,
      keeps the loop running and makes the next run read `data[0]` of an
      empty vector. */
  lemma RemoveLastEntryReadsPastEnd(t: int, id: nat)
    ensures var st := RemoveStartAsWritten([Entry(t, id)]);
      && st.i <= st.swap
      && RemoveIterAsWritten(st, [id]) == Continue(RemoveState([], 0, SizeModulus - 1))
      && RemoveIterAsWritten(RemoveState([], 0, SizeModulus - 1), [id]) == OutOfBounds
  {
  }
}
