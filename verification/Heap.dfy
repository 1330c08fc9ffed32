/** The binary min-heap that `std::make_heap` builds when it is given the
    engine's comparator "left time is later than right time": the root holds
    an entry of least time. Entries are stored in a sequence with the usual
    implicit tree, the parent of slot i > 0 being slot (i - 1) / 2. */
module Heaps {

  /** One scheduler slot: a component index and its next finite time. */
  datatype Entry = Entry(time: int, id: nat)

  /** Slot c is a child of slot p in the implicit tree. */
  predicate ChildOf(c: int, p: int) {
    c == 2 * p + 1 || c == 2 * p + 2
  }

  /** Every parent-child edge whose parent slot is at least k is ordered. */
  ghost predicate HeapFrom(s: seq<Entry>, k: nat) {
    forall p, c :: k <= p < c < |s| && ChildOf(c, p) ==> s[p].time <= s[c].time
  }

  ghost predicate IsHeap(s: seq<Entry>) {
    HeapFrom(s, 0)
  }

  /** In a heap, the root is not later than any slot. */
  lemma {:induction false} RootIsMin(s: seq<Entry>, j: nat)
    requires IsHeap(s) && j < |s|
    ensures s[0].time <= s[j].time
    decreases j
  {
    if j > 0 {
      var p := (j - 1) / 2;
      assert ChildOf(j, p);
      RootIsMin(s, p);
    }
  }

  lemma RootIsLeast(s: seq<Entry>)
    requires IsHeap(s) && |s| > 0
    ensures forall e :: e in s ==> s[0].time <= e.time
  {
    forall e | e in s
      ensures s[0].time <= e.time
    {
      var j :| 0 <= j < |s| && s[j] == e;
      RootIsMin(s, j);
    }
  }

  /** The sift-down invariant: the only edges from slot k on that may be out
      of order are those leaving slot j, and j's parent (when j is not k
      itself) is not later than j's children. */
  ghost predicate SiftInv(r: seq<Entry>, k: nat, j: nat) {
    && (forall p, c :: k <= p < c < |r| && p != j && ChildOf(c, p) ==> r[p].time <= r[c].time)
    && (j > k ==> forall c :: j < c < |r| && ChildOf(c, j) ==> r[(j - 1) / 2].time <= r[c].time)
  }

  lemma SiftDone(r: seq<Entry>, k: nat, j: nat)
    requires k <= j < |r| && SiftInv(r, k, j)
    requires forall c :: j < c < |r| && ChildOf(c, j) ==> r[j].time <= r[c].time
    ensures HeapFrom(r, k)
  {
  }

  lemma SiftStep(r: seq<Entry>, k: nat, j: nat, c: nat)
    requires k <= j < c < |r| && ChildOf(c, j) && SiftInv(r, k, j)
    requires r[c].time < r[j].time
    requires forall d :: j < d < |r| && ChildOf(d, j) ==> r[c].time <= r[d].time
    ensures SiftInv(r[j := r[c]][c := r[j]], k, c)
  {
    var r' := r[j := r[c]][c := r[j]];
    forall p, d | k <= p < d < |r'| && p != c && ChildOf(d, p)
      ensures r'[p].time <= r'[d].time
    {
      if p == j {
        assert r'[p] == r[c];
      } else if d == j {
        assert j > k && p == (j - 1) / 2;
        assert r'[p] == r[p] && r'[d] == r[c];
      } else if d == c {
        assert false;
      }
    }
    forall d | c < d < |r'| && ChildOf(d, c)
      ensures r'[(c - 1) / 2].time <= r'[d].time
    {
      assert (c - 1) / 2 == j;
    }
  }

  /** Exchanging two slots keeps the same entries. */
  lemma SwapMultiset(r: seq<Entry>, j: nat, c: nat)
    requires j < c < |r|
    ensures multiset(r[j := r[c]][c := r[j]]) == multiset(r)
  {
    var r1 := r[j := r[c]];
    assert multiset(r1) == multiset(r) - multiset{r[j]} + multiset{r[c]};
    assert r1[c] == r[c];
    assert multiset(r1[c := r[j]]) == multiset(r1) - multiset{r[c]} + multiset{r[j]};
  }

  /** Moves the entry at slot k down until its subtree is ordered: the
      sift-down step shared by `std::make_heap` and `std::pop_heap`. */
  method SiftDown(s: seq<Entry>, k: nat) returns (r: seq<Entry>)
    requires k < |s|
    requires HeapFrom(s, k + 1)
    ensures |r| == |s|
    ensures HeapFrom(r, k)
    ensures multiset(r) == multiset(s)
  {
    r := SiftFrom(s, k, k);
  }

  /** One level of the sift: the entry now at slot j swaps with its
      smaller child while that child is earlier. */
  method SiftFrom(s: seq<Entry>, k: nat, j: nat) returns (r: seq<Entry>)
    requires k <= j < |s| && SiftInv(s, k, j)
    ensures |r| == |s|
    ensures HeapFrom(r, k)
    ensures multiset(r) == multiset(s)
    decreases |s| - j
  {
    var c := 2 * j + 1;
    if c >= |s| {
      SiftDone(s, k, j);
      return s;
    }
    if c + 1 < |s| && s[c + 1].time < s[c].time {
      c := c + 1;
    }
    if s[j].time <= s[c].time {
      SiftDone(s, k, j);
      return s;
    }
    SiftStep(s, k, j, c);
    SwapMultiset(s, j, c);
    r := SiftFrom(s[j := s[c]][c := s[j]], k, c);
  }

  /** `std::make_heap`: bottom-up heap construction. */
  method MakeHeap(s: seq<Entry>) returns (r: seq<Entry>)
    ensures IsHeap(r)
    ensures multiset(r) == multiset(s)
  {
    r := s;
    var k: nat := |r|;
    while k > 0
      invariant k <= |r| == |s|
      invariant HeapFrom(r, k)
      invariant multiset(r) == multiset(s)
    {
      k := k - 1;
      r := SiftDown(r, k);
    }
  }

  /** The first step of `std::pop_heap`: the last entry takes the root's
      place, so every slot below the root keeps its heap order. */
  function LastToRoot(s: seq<Entry>): (t: seq<Entry>)
    requires IsHeap(s) && |s| > 1
    ensures |t| == |s| - 1
    ensures HeapFrom(t, 1)
    ensures multiset(t) + multiset{s[0]} == multiset(s)
  {
    var n := |s|;
    var t := [s[n - 1]] + s[1..n - 1];
    assert s == [s[0]] + s[1..n - 1] + [s[n - 1]];
    assert forall i :: 1 <= i < n - 1 ==> t[i] == s[i];
    t
  }

  /** `std::pop_heap` followed by `pop_back`: removes and returns the root,
      which is an entry of least time. */
  method PopMin(s: seq<Entry>) returns (top: Entry, r: seq<Entry>)
    requires IsHeap(s) && |s| > 0
    ensures top == s[0]
    ensures forall e :: e in s ==> top.time <= e.time
    ensures IsHeap(r)
    ensures |r| == |s| - 1
    ensures multiset(r) + multiset{top} == multiset(s)
    ensures forall e :: e in r ==> e in s
  {
    RootIsLeast(s);
    top := s[0];
    var n := |s|;
    if n == 1 {
      assert s == [top];
      r := [];
      return;
    }
    var t := LastToRoot(s);
    r := SiftDown(t, 0);
    forall e | e in r
      ensures e in s
    {
      assert e in multiset(r);
    }
  }
}
