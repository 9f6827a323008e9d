/**
  The selection every search step performs: walk the lines in order and keep
  those a predicate accepts. It is stated for any element type, since step3
  also selects the readable files of a walk.
 */
module Filter {

  /** The lines of `ls` that `keep` accepts, in their original order. */
  function Select<T(==)>(ls: seq<T>, keep: T -> bool): (out: seq<T>)
    ensures |out| <= |ls|
    ensures forall j :: 0 <= j < |out| ==> keep(out[j]) && out[j] in ls
  {
    if ls == [] then []
    else
      var last := ls[|ls| - 1];
      Select(ls[..|ls| - 1], keep) + (if keep(last) then [last] else [])
  }

  /** The predicate that accepts exactly what `keep` rejects. */
  function Not<T(!new)>(keep: T -> bool): (reject: T -> bool)
    ensures forall l :: reject(l) == !keep(l)
  {
    l => !keep(l)
  }

  /** The positions of the lines `keep` accepts, ascending. */
  ghost function KeptIndices<T>(ls: seq<T>, keep: T -> bool): seq<int>
  {
    if ls == [] then []
    else KeptIndices(ls[..|ls| - 1], keep) + (if keep(ls[|ls| - 1]) then [|ls| - 1] else [])
  }

  /**
    `idx` lists, in strictly increasing order, exactly the positions of `ls`
    whose line `keep` accepts.
   */
  ghost predicate Enumerates<T>(idx: seq<int>, ls: seq<T>, keep: T -> bool) {
    && (forall k :: 0 <= k < |idx| ==> 0 <= idx[k] < |ls|)
    && (forall k, m :: 0 <= k < m < |idx| ==> idx[k] < idx[m])
    && (forall i :: 0 <= i < |ls| ==> (keep(ls[i]) <==> i in idx))
  }

  /** `KeptIndices` lists exactly the accepted positions, ascending. */
  lemma {:induction false} KeptIndicesEnumerate<T>(ls: seq<T>, keep: T -> bool)
    ensures Enumerates(KeptIndices(ls, keep), ls, keep)
  {
    if ls != [] {
      var n := |ls|;
      var init := ls[..n - 1];
      KeptIndicesEnumerate(init, keep);
      var idx0 := KeptIndices(init, keep);
      var idx := KeptIndices(ls, keep);
      assert idx == idx0 + (if keep(ls[n - 1]) then [n - 1] else []);
      assert n - 1 !in idx0;
      forall i | 0 <= i < n
        ensures keep(ls[i]) <==> i in idx
      {
        if i < n - 1 {
          assert ls[i] == init[i];
        }
      }
    }
  }

  /** The k-th selected line is the line at the k-th accepted position. */
  lemma {:induction false} SelectAtKept<T>(ls: seq<T>, keep: T -> bool)
    ensures |Select(ls, keep)| == |KeptIndices(ls, keep)|
    ensures forall k :: 0 <= k < |Select(ls, keep)| ==>
      0 <= KeptIndices(ls, keep)[k] < |ls| && Select(ls, keep)[k] == ls[KeptIndices(ls, keep)[k]]
  {
    if ls != [] {
      var n := |ls|;
      var init := ls[..n - 1];
      SelectAtKept(init, keep);
      var idx0, out0 := KeptIndices(init, keep), Select(init, keep);
      var idx, out := KeptIndices(ls, keep), Select(ls, keep);
      assert idx == idx0 + (if keep(ls[n - 1]) then [n - 1] else []);
      assert out == out0 + (if keep(ls[n - 1]) then [ls[n - 1]] else []);
      forall k | 0 <= k < |out|
        ensures 0 <= idx[k] < n && out[k] == ls[idx[k]]
      {
        if k < |out0| {
          assert out[k] == out0[k] == init[idx0[k]];
          assert idx[k] == idx0[k];
        }
      }
    }
  }

  /**
    `Select` is exactly the ordered subsequence of accepted lines: its k-th
    line is the line at the k-th accepted position, and there are as many
    as there are accepted positions.
   */
  lemma {:induction false} SelectEnumerates<T>(ls: seq<T>, keep: T -> bool)
    ensures Enumerates(KeptIndices(ls, keep), ls, keep)
    ensures |Select(ls, keep)| == |KeptIndices(ls, keep)|
    ensures forall k :: 0 <= k < |Select(ls, keep)| ==> Select(ls, keep)[k] == ls[KeptIndices(ls, keep)[k]]
  {
    KeptIndicesEnumerate(ls, keep);
    SelectAtKept(ls, keep);
  }

  /** Together the selections of `keep` and `Not(keep)` hold every line exactly as often as `ls` does. */
  lemma {:induction false} SelectSplits<T(!new)>(ls: seq<T>, keep: T -> bool)
    ensures multiset(Select(ls, keep)) + multiset(Select(ls, Not(keep))) == multiset(ls)
  {
    if ls != [] {
      var n := |ls|;
      var init, last := ls[..n - 1], ls[n - 1];
      SelectSplits(init, keep);
      var a, b := Select(init, keep), Select(init, Not(keep));
      assert multiset(ls) == multiset(init) + multiset{last} by {
        assert ls == init + [last];
      }
      if keep(last) {
        assert Select(ls, keep) == a + [last];
        assert Select(ls, Not(keep)) == b;
        assert multiset(a + [last]) == multiset(a) + multiset{last};
      } else {
        assert Select(ls, keep) == a;
        assert Select(ls, Not(keep)) == b + [last];
        assert multiset(b + [last]) == multiset(b) + multiset{last};
      }
    }
  }

  /** Every line is kept by exactly one of `keep` and `Not(keep)`: together the two selections are a partition of the lines. */
  lemma SelectPartition<T(!new)>(ls: seq<T>, keep: T -> bool)
    ensures multiset(Select(ls, keep)) + multiset(Select(ls, Not(keep))) == multiset(ls)
    ensures |Select(ls, keep)| + |Select(ls, Not(keep))| == |ls|
    ensures forall i :: 0 <= i < |ls| ==> (i in KeptIndices(ls, keep) <==> i !in KeptIndices(ls, Not(keep)))
  {
    SelectSplits(ls, keep);
    assert |multiset(Select(ls, keep)) + multiset(Select(ls, Not(keep)))| == |multiset(ls)|;
    SelectEnumerates(ls, keep);
    SelectEnumerates(ls, Not(keep));
  }

  /** When `keep` accepts every line, nothing is dropped. */
  lemma {:induction false} SelectAll<T>(ls: seq<T>, keep: T -> bool)
    requires forall i :: 0 <= i < |ls| ==> keep(ls[i])
    ensures Select(ls, keep) == ls
  {
    if ls != [] {
      var n := |ls|;
      SelectAll(ls[..n - 1], keep);
      assert ls == ls[..n - 1] + [ls[n - 1]];
    }
  }

  /** When `keep` rejects every line, nothing is kept. */
  lemma {:induction false} SelectNone<T>(ls: seq<T>, keep: T -> bool)
    requires forall i :: 0 <= i < |ls| ==> !keep(ls[i])
    ensures Select(ls, keep) == []
  {
    if ls != [] {
      SelectNone(ls[..|ls| - 1], keep);
    }
  }
}
