/** Small facts about sequences used by the scheduler and the engine. */
module Seqs {

  /** No component index occurs twice. */
  ghost predicate Distinct(s: seq<nat>) {
    forall x :: multiset(s)[x] <= 1
  }

  /** Overwriting slot i with the last element and dropping the last slot
      (the engine's swap-with-last deletion) removes exactly one copy of s[i]. */
  lemma SwapPopMultiset<T>(s: seq<T>, i: nat)
    requires i < |s|
    ensures multiset(s[i := s[|s| - 1]][..|s| - 1]) == multiset(s) - multiset{s[i]}
  {
    var n := |s|;
    var p := s[..n - 1];
    assert s == p + [s[n - 1]];
    assert multiset(s) == multiset(p) + multiset{s[n - 1]};
    if i < n - 1 {
      assert s[i := s[n - 1]][..n - 1] == p[i := s[n - 1]];
      assert multiset(p[i := s[n - 1]]) == multiset(p) - multiset{p[i]} + multiset{s[n - 1]};
    } else {
      assert s[i := s[n - 1]][..n - 1] == p;
    }
  }

  /** Appends each element of xs that is not yet present. */
  function AppendNew(acc: seq<nat>, xs: seq<nat>): (r: seq<nat>)
    ensures |acc| <= |r| && r[..|acc|] == acc
    ensures forall x :: x in r <==> x in acc || x in xs
    ensures Distinct(acc) ==> Distinct(r)
    decreases |xs|
  {
    if |xs| == 0 then acc
    else
      var last := xs[|xs| - 1];
      var pre := AppendNew(acc, xs[..|xs| - 1]);
      assert forall x :: x in xs <==> x in xs[..|xs| - 1] || x == last by {
        assert xs == xs[..|xs| - 1] + [last];
      }
      if last in pre then pre
      else
        assert multiset(pre + [last]) == multiset(pre) + multiset{last};
        pre + [last]
  }

  /** Appending in two rounds is appending the concatenation. */
  lemma {:induction false} AppendNewConcat(acc: seq<nat>, xs: seq<nat>, ys: seq<nat>)
    ensures AppendNew(AppendNew(acc, xs), ys) == AppendNew(acc, xs + ys)
    decreases |ys|
  {
    if |ys| == 0 {
      assert xs + ys == xs;
    } else {
      assert (xs + ys)[..|xs + ys| - 1] == xs + ys[..|ys| - 1];
      AppendNewConcat(acc, xs, ys[..|ys| - 1]);
    }
  }

  /** Dropping a present element from a duplicate-free sequence by swap
      with the last slot removes exactly that element. */
  lemma DropFound(s: seq<nat>, k: nat)
    requires Distinct(s) && k < |s|
    ensures Distinct(s[k := s[|s| - 1]][..|s| - 1])
    ensures forall y :: y in s[k := s[|s| - 1]][..|s| - 1] <==> y in s && y != s[k]
  {
    var t := s[k := s[|s| - 1]][..|s| - 1];
    SwapPopMultiset(s, k);
    forall y
      ensures y in t <==> y in s && y != s[k]
    {
      assert y in t <==> multiset(t)[y] > 0;
      assert y in s <==> multiset(s)[y] > 0;
    }
  }
}
