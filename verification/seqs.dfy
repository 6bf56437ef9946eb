/** Order-preserving filtering and index selection over sequences. */
module Seqs {

  /** No element occurs twice. */
  predicate NoDup<T(==)>(s: seq<T>) {
    forall i, j :: 0 <= i < j < |s| ==> s[i] != s[j]
  }

  /** The elements of `s` at the positions `idx`, in the order of `idx`. */
  function Pick<T>(s: seq<T>, idx: seq<nat>): (r: seq<T>)
    requires forall j :: 0 <= j < |idx| ==> idx[j] < |s|
    ensures |r| == |idx|
    ensures forall j :: 0 <= j < |idx| ==> r[j] == s[idx[j]]
  {
    seq(|idx|, j requires 0 <= j < |idx| => s[idx[j]])
  }

  /** Every picked element is an element of `s`. */
  lemma PickMembers<T>(s: seq<T>, idx: seq<nat>)
    requires forall j :: 0 <= j < |idx| ==> idx[j] < |s|
    ensures forall x :: x in Pick(s, idx) ==> x in s
  {
    forall x | x in Pick(s, idx)
      ensures x in s
    {
      var t :| 0 <= t < |idx| && Pick(s, idx)[t] == x;
    }
  }

  /** 0, 1, ..., n - 1. */
  function Range(n: nat): (r: seq<nat>)
    ensures |r| == n
    ensures forall i :: 0 <= i < n ==> r[i] == i
  {
    seq(n, i => i)
  }

  /** The elements of `s` that satisfy `p`, in their original order. */
  function Filter<T>(s: seq<T>, p: T -> bool): (r: seq<T>)
    ensures |r| <= |s|
    ensures forall j :: 0 <= j < |r| ==> r[j] in s && p(r[j])
    ensures forall i :: 0 <= i < |s| && p(s[i]) ==> s[i] in r
    decreases |s|
  {
    if |s| == 0 then []
    else
      var front := Filter(s[..|s| - 1], p);
      assert forall i :: 0 <= i < |s| - 1 ==> s[..|s| - 1][i] == s[i];
      if p(s[|s| - 1]) then front + [s[|s| - 1]] else front
  }

  /** The positions of `s` whose element satisfies `p`, ascending. */
  function KeptIndices<T>(s: seq<T>, p: T -> bool): (idx: seq<nat>)
    ensures forall j :: 0 <= j < |idx| ==> idx[j] < |s| && p(s[idx[j]])
    ensures forall j, k :: 0 <= j < k < |idx| ==> idx[j] < idx[k]
    ensures forall i :: 0 <= i < |s| && p(s[i]) ==> i in idx
    decreases |s|
  {
    if |s| == 0 then []
    else
      var front := KeptIndices(s[..|s| - 1], p);
      if p(s[|s| - 1]) then front + [|s| - 1] else front
  }

  /** Filtering keeps exactly the satisfying positions, in ascending order:
      the result is `s` read at `KeptIndices(s, p)`. */
  lemma {:induction false} FilterIsPick<T>(s: seq<T>, p: T -> bool)
    ensures Filter(s, p) == Pick(s, KeptIndices(s, p))
    decreases |s|
  {
    if |s| > 0 {
      var init := s[..|s| - 1];
      FilterIsPick(init, p);
      var idx := KeptIndices(init, p);
      var front := Pick(init, idx);
      assert front == Pick(s, idx) by {
        assert forall j :: 0 <= j < |idx| ==> idx[j] < |init| && front[j] == init[idx[j]] == s[idx[j]];
      }
      if p(s[|s| - 1]) {
        assert KeptIndices(s, p) == idx + [|s| - 1];
        assert Filter(s, p) == front + [s[|s| - 1]];
        PickSnoc(s, idx, |s| - 1);
      } else {
        assert KeptIndices(s, p) == idx;
        assert Filter(s, p) == front;
      }
    }
  }

  /** Two predicates that agree position by position keep the same
      positions. */
  lemma {:induction false} KeptIndicesAgree<T, U>(s: seq<T>, p: T -> bool, t: seq<U>, q: U -> bool)
    requires |s| == |t|
    requires forall i :: 0 <= i < |s| ==> p(s[i]) == q(t[i])
    ensures KeptIndices(s, p) == KeptIndices(t, q)
    decreases |s|
  {
    if |s| > 0 {
      KeptIndicesAgree(s[..|s| - 1], p, t[..|t| - 1], q);
    }
  }

  lemma PickSnoc<T>(s: seq<T>, idx: seq<nat>, i: nat)
    requires forall j :: 0 <= j < |idx| ==> idx[j] < |s|
    requires i < |s|
    ensures Pick(s, idx + [i]) == Pick(s, idx) + [s[i]]
  {
    var l := Pick(s, idx + [i]);
    var r := Pick(s, idx) + [s[i]];
    assert forall j :: 0 <= j < |l| ==> l[j] == r[j];
  }

  /** An element survives filtering exactly when it is in `s` and satisfies `p`. */
  lemma FilterMembership<T>(s: seq<T>, p: T -> bool, x: T)
    ensures x in Filter(s, p) <==> x in s && p(x)
  {
    if x in s && p(x) {
      var i :| 0 <= i < |s| && s[i] == x;
    }
  }

  /** Filtering a duplicate-free sequence leaves it duplicate-free. */
  lemma FilterNoDup<T>(s: seq<T>, p: T -> bool)
    requires NoDup(s)
    ensures NoDup(Filter(s, p))
  {
    FilterIsPick(s, p);
    var idx := KeptIndices(s, p);
    var r := Filter(s, p);
    forall i, j | 0 <= i < j < |r|
      ensures r[i] != r[j]
    {
      assert idx[i] < idx[j];
    }
  }

  /** Membership in a filtered sequence, for every element at once. */
  lemma FilterSpec<T>(s: seq<T>, p: T -> bool)
    ensures forall x :: x in Filter(s, p) <==> x in s && p(x)
  {
    forall x
      ensures x in Filter(s, p) <==> x in s && p(x)
    {
      FilterMembership(s, p, x);
    }
  }

  /** The concatenation of the sequences of `ss`, in order. */
  function Flatten<T>(ss: seq<seq<T>>): seq<T>
    decreases |ss|
  {
    if |ss| == 0 then [] else Flatten(ss[..|ss| - 1]) + ss[|ss| - 1]
  }

  /** An element of a part is an element of the whole. */
  lemma {:induction false} FlattenMember<T>(ss: seq<seq<T>>, i: nat, x: T)
    requires i < |ss| && x in ss[i]
    ensures x in Flatten(ss)
    decreases |ss|
  {
    var n := |ss| - 1;
    if i < n {
      assert ss[..n][i] == ss[i];
      FlattenMember(ss[..n], i, x);
    }
  }

  /** An element of the whole comes from some part. */
  lemma {:induction false} FlattenOrigin<T>(ss: seq<seq<T>>, x: T)
    requires x in Flatten(ss)
    ensures exists i :: 0 <= i < |ss| && x in ss[i]
    decreases |ss|
  {
    var n := |ss| - 1;
    if x !in ss[n] {
      FlattenOrigin(ss[..n], x);
      var i :| 0 <= i < n && x in ss[..n][i];
      assert ss[..n][i] == ss[i];
    }
  }

  /** With no empty part, the whole is at least as long as the number of parts. */
  lemma {:induction false} FlattenLength<T>(ss: seq<seq<T>>)
    requires forall i :: 0 <= i < |ss| ==> |ss[i]| >= 1
    ensures |Flatten(ss)| >= |ss|
    decreases |ss|
  {
    if |ss| > 0 {
      var n := |ss| - 1;
      assert forall i :: 0 <= i < n ==> ss[..n][i] == ss[i];
      FlattenLength(ss[..n]);
    }
  }

  /** With one element per part, the whole lists those elements in order. */
  lemma {:induction false} FlattenSingletons<T>(ss: seq<seq<T>>)
    requires forall i :: 0 <= i < |ss| ==> |ss[i]| == 1
    ensures |Flatten(ss)| == |ss|
    ensures forall i :: 0 <= i < |ss| ==> Flatten(ss)[i] == ss[i][0]
    decreases |ss|
  {
    if |ss| > 0 {
      var n := |ss| - 1;
      assert forall i :: 0 <= i < n ==> ss[..n][i] == ss[i];
      FlattenSingletons(ss[..n]);
      assert ss[n] == [ss[n][0]];
    }
  }

  /** If every part is ordered by `lt` and every element of an earlier part
      is `lt` every element of a later part, the whole is ordered by `lt`. */
  lemma {:induction false} FlattenOrdered<T>(ss: seq<seq<T>>, lt: (T, T) -> bool)
    requires forall i, t, u :: 0 <= i < |ss| && 0 <= t < u < |ss[i]| ==> lt(ss[i][t], ss[i][u])
    requires forall i, i', x, y :: 0 <= i < i' < |ss| && x in ss[i] && y in ss[i'] ==> lt(x, y)
    ensures forall t, u :: 0 <= t < u < |Flatten(ss)| ==> lt(Flatten(ss)[t], Flatten(ss)[u])
    decreases |ss|
  {
    if |ss| > 0 {
      var n := |ss| - 1;
      var front := Flatten(ss[..n]);
      var whole := Flatten(ss);
      assert forall i :: 0 <= i < n ==> ss[..n][i] == ss[i];
      FlattenOrdered(ss[..n], lt);
      assert whole == front + ss[n];
      forall t, u | 0 <= t < u < |whole|
        ensures lt(whole[t], whole[u])
      {
        if u >= |front| && t < |front| {
          FlattenOrigin(ss[..n], front[t]);
          assert whole[u] in ss[n];
        } else if t >= |front| {
          assert whole[t] == ss[n][t - |front|] && whole[u] == ss[n][u - |front|];
        }
      }
    }
  }
}
