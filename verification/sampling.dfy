/** `random.sample` as a set of valid outcomes: a draw without replacement,
    steered by an arbitrary sequence of choices instead of a generator. */
module Sampling {
  import opened Seqs

  /** `s` with position `j` taken out. */
  function RemoveAt<T>(s: seq<T>, j: nat): (r: seq<T>)
    requires j < |s|
    ensures |r| == |s| - 1
    ensures forall x :: x in r ==> x in s
    ensures forall x :: x in s && x != s[j] ==> x in r
    ensures NoDup(s) ==> NoDup(r) && s[j] !in r
  {
    var r := s[..j] + s[j + 1..];
    assert forall k :: 0 <= k < |r| ==> r[k] == (if k < j then s[k] else s[k + 1]);
    assert forall x :: x in s && x != s[j] ==> x in r by {
      forall x | x in s && x != s[j] ensures x in r {
        var k :| 0 <= k < |s| && s[k] == x;
        if k < j { assert r[k] == x; } else { assert r[k - 1] == x; }
      }
    }
    r
  }

  /** Draws `|choices|` elements from `pool` without replacement: each
      choice picks, modulo the size of what is left, the next element. */
  function Draw<T>(pool: seq<T>, choices: seq<nat>): (r: seq<T>)
    requires |choices| <= |pool|
    ensures |r| == |choices|
    ensures forall x :: x in r ==> x in pool
    ensures NoDup(pool) ==> NoDup(r)
    decreases |choices|
  {
    if |choices| == 0 then []
    else
      var j := choices[0] % |pool|;
      [pool[j]] + Draw(RemoveAt(pool, j), choices[1..])
  }

  /** Every duplicate-free selection from a duplicate-free pool is the
      outcome of some sequence of choices: the model rules no valid sample
      out. */
  lemma {:induction false} DrawReaches<T>(pool: seq<T>, target: seq<T>) returns (choices: seq<nat>)
    requires NoDup(pool) && NoDup(target)
    requires |target| <= |pool|
    requires forall x :: x in target ==> x in pool
    ensures |choices| == |target| && Draw(pool, choices) == target
    decreases |target|
  {
    if |target| == 0 {
      choices := [];
    } else {
      assert target[0] in target;
      var j :| 0 <= j < |pool| && pool[j] == target[0];
      var rest := RemoveAt(pool, j);
      var tail := target[1..];
      assert NoDup(tail) by {
        forall a, b | 0 <= a < b < |tail| ensures tail[a] != tail[b] {
          assert tail[a] == target[a + 1] && tail[b] == target[b + 1];
        }
      }
      forall x | x in tail ensures x in rest {
        var k :| 0 <= k < |tail| && tail[k] == x;
        assert target[k + 1] == x;
        assert x != target[0];
      }
      var cs := DrawReaches(rest, tail);
      DrawStep(pool, j, cs);
      choices := [j] + cs;
      assert [target[0]] + tail == target;
    }
  }

  /** One step of a draw: choosing position `j` first. */
  lemma DrawStep<T>(pool: seq<T>, j: nat, cs: seq<nat>)
    requires j < |pool| && |cs| < |pool|
    ensures Draw(pool, [j] + cs) == [pool[j]] + Draw(RemoveAt(pool, j), cs)
  {
    var c := [j] + cs;
    assert c[1..] == cs;
    assert c[0] % |pool| == j by { ModSmall(j, |pool|); }
  }

  lemma ModSmall(j: nat, n: nat)
    requires j < n
    ensures j % n == j
  {
  }

  /** The first `k` values of a choice stream. */
  function Choices(k: nat, rand: nat -> nat): (cs: seq<nat>)
    ensures |cs| == k
    ensures forall t :: 0 <= t < k ==> cs[t] == rand(t)
  {
    seq(k, t requires 0 <= t => rand(t))
  }

  /** `random.sample(range(n), k)` outcomes: `k` distinct positions below `n`. */
  function SampleIndices(n: nat, k: nat, rand: nat -> nat): (idx: seq<nat>)
    requires k <= n
    ensures |idx| == k
    ensures NoDup(idx)
    ensures forall t :: 0 <= t < |idx| ==> idx[t] < n
  {
    var idx := Draw(Range(n), Choices(k, rand));
    assert forall t :: 0 <= t < |idx| ==> idx[t] in Range(n);
    idx
  }

  /** Conversely, every `k` distinct positions below `n` are a possible
      outcome. */
  lemma SampleIndicesComplete(n: nat, idx: seq<nat>)
    requires |idx| <= n && NoDup(idx)
    requires forall t :: 0 <= t < |idx| ==> idx[t] < n
    ensures exists rand: nat -> nat :: SampleIndices(n, |idx|, rand) == idx
  {
    var pool := Range(n);
    forall x | x in idx ensures x in pool {
      var t :| 0 <= t < |idx| && idx[t] == x;
      assert pool[x] == x;
    }
    var cs := DrawReaches(pool, idx);
    var rand: nat -> nat := (t: nat) => if t < |cs| then cs[t] else 0;
    ChoicesOf(cs, rand);
    assert SampleIndices(n, |idx|, rand) == idx;
  }

  /** A stream that starts with `cs` yields `cs` back. */
  lemma ChoicesOf(cs: seq<nat>, rand: nat -> nat)
    requires forall t: nat :: t < |cs| ==> rand(t) == cs[t]
    ensures Choices(|cs|, rand) == cs
  {
  }
}
