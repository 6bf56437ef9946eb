/** Key-based joins with pandas' `merge(on=keys, how=..., suffixes=...)`
    column layout: the key columns once (taken from the left table), then the
    left table's other columns, then the right table's non-key columns; a
    non-key column present on both sides gets the left suffix on the left copy
    and the right suffix on the right copy. Missing key cells match each other,
    as NaN keys do in pandas. */
module Joins {
  import opened Wrappers
  import opened Seqs
  import opened Tables

  /** The column layout of one merge. */
  datatype JoinSpec = JoinSpec(left: seq<string>, right: seq<string>, keys: seq<string>,
                               leftSuffix: string, rightSuffix: string)
  {
    /** The right table's columns minus the join keys, in their order. */
    function RightRest(): (r: seq<string>)
      ensures forall c :: c in r <==> c in right && c !in keys
    {
      FilterSpec(right, c => c !in keys);
      Filter(right, c => c !in keys)
    }

    /** Non-key columns present on both sides. */
    predicate Collides(c: string) {
      c in left && c in right && c !in keys
    }

    function LeftName(c: string): string {
      if Collides(c) then c + leftSuffix else c
    }

    function RightName(c: string): string {
      if Collides(c) then c + rightSuffix else c
    }

    /** The columns of the merged table, in order. */
    function Columns(): (r: seq<string>)
      ensures |r| == |left| + |RightRest()|
    {
      var rest := RightRest();
      seq(|left|, i requires 0 <= i < |left| => LeftName(left[i]))
        + seq(|rest|, i requires 0 <= i < |rest| => RightName(rest[i]))
    }

    /** The merged columns are the left columns under their left names,
        followed by the right table's non-key columns under their right
        names. */
    lemma ColumnsLayout()
      ensures forall i :: 0 <= i < |left| ==> Columns()[i] == LeftName(left[i])
      ensures forall i :: 0 <= i < |RightRest()| ==> Columns()[|left| + i] == RightName(RightRest()[i])
    {
    }

    /** Every column of either side appears, under its merged name. */
    lemma ColumnsCover()
      ensures forall c :: c in left ==> LeftName(c) in Columns()
      ensures forall c :: c in right && c !in keys ==> RightName(c) in Columns()
    {
      var cols := Columns();
      var rest := RightRest();
      forall c | c in left
        ensures LeftName(c) in cols
      {
        var i :| 0 <= i < |left| && left[i] == c;
        assert cols[i] == LeftName(c);
      }
      forall c | c in right && c !in keys
        ensures RightName(c) in cols
      {
        var i :| 0 <= i < |rest| && rest[i] == c;
        assert cols[|left| + i] == RightName(c);
      }
    }

    /** Where a merged column name comes from when no suffix produced it. */
    lemma PlainColumnOrigin(c: string)
      requires c in Columns()
      requires !HasSuffix(c, rightSuffix) && (leftSuffix == "" || !HasSuffix(c, leftSuffix))
      ensures (c in left && (leftSuffix == "" || !Collides(c))) || (c in right && c !in keys && !Collides(c))
    {
      var cols := Columns();
      var rest := RightRest();
      var i :| 0 <= i < |cols| && cols[i] == c;
      if i < |left| {
        var x := left[i];
        assert c == LeftName(x);
        if Collides(x) {
          SuffixOfAppend(x, leftSuffix);
          if leftSuffix == "" {
            assert c == x;
          }
        }
      } else {
        var x := rest[i - |left|];
        assert x in rest;
        assert c == RightName(x);
        if Collides(x) {
          SuffixOfAppend(x, rightSuffix);
        }
      }
    }

    /** With a plain left suffix, a non-key column name that the right suffix
        cannot produce is merged exactly when either side has it. */
    lemma PlainColumnEitherSide(c: string)
      requires leftSuffix == "" && c !in keys && !HasSuffix(c, rightSuffix)
      ensures c in Columns() <==> c in left || c in right
    {
      ColumnsCover();
      if c in Columns() {
        PlainColumnOrigin(c);
      }
      assert forall x :: x + leftSuffix == x;
    }

    /** With two suffixes, a non-key column name that neither suffix can
        produce is merged exactly when ONE side has it: a column both sides
        have survives only under its two suffixed names. */
    lemma PlainColumnOneSide(c: string)
      requires c !in keys && !HasSuffix(c, leftSuffix) && !HasSuffix(c, rightSuffix)
      ensures c in Columns() <==> (c in left) != (c in right)
    {
      ColumnsCover();
      if c in Columns() {
        PlainColumnOrigin(c);
      }
    }

    /** The tables fit this layout, both hold every key, and renaming yields
        distinct column names (pandas raises on, or duplicates, the others). */
    predicate Fits(l: Table, r: Table) {
      && l.Valid() && r.Valid()
      && l.columns == left && r.columns == right
      && (forall k :: k in keys ==> k in left && k in right)
      && NoDup(Columns())
    }

    /** The cells of a merged row, in column order. */
    function Cells(a: Row, b: Option<Row>): (v: seq<Cell>)
      requires forall c :: c in left ==> c in a
      requires b.Some? ==> forall c :: c in right ==> c in b.value
      ensures |v| == |Columns()|
      ensures forall i :: 0 <= i < |left| ==> v[i] == a[left[i]]
      ensures forall i :: 0 <= i < |RightRest()| ==>
                v[|left| + i] == (if b.Some? then b.value[RightRest()[i]] else None)
    {
      var rest := RightRest();
      seq(|left|, i requires 0 <= i < |left| => a[left[i]])
        + seq(|rest|, i requires 0 <= i < |rest| => if b.Some? then b.value[rest[i]] else None)
    }

    /** The merged row for left row `a` and right row `b`, or `None` for a
        left row without a partner (every right-side cell then missing). */
    function Combine(a: Row, b: Option<Row>): (o: Row)
      requires forall c :: c in left ==> c in a
      requires b.Some? ==> forall c :: c in right ==> c in b.value
      ensures o.Keys == ColumnSet(Columns())
    {
      Zip(Columns(), Cells(a, b))
    }

    lemma CombineLeftCells(a: Row, b: Option<Row>)
      requires forall c :: c in left ==> c in a
      requires b.Some? ==> forall c :: c in right ==> c in b.value
      requires NoDup(Columns())
      ensures forall c :: c in left ==> LeftName(c) in Combine(a, b) && Combine(a, b)[LeftName(c)] == a[c]
    {
      var cols := Columns();
      ZipCells(cols, Cells(a, b));
      forall c | c in left
        ensures LeftName(c) in Combine(a, b) && Combine(a, b)[LeftName(c)] == a[c]
      {
        var i :| 0 <= i < |left| && left[i] == c;
        assert cols[i] == LeftName(c);
      }
    }

    lemma CombineRightCells(a: Row, b: Option<Row>)
      requires forall c :: c in left ==> c in a
      requires b.Some? ==> forall c :: c in right ==> c in b.value
      requires NoDup(Columns())
      ensures forall c :: c in right && c !in keys ==>
                && RightName(c) in Combine(a, b)
                && Combine(a, b)[RightName(c)] == (if b.Some? then b.value[c] else None)
    {
      var rest := RightRest();
      var cols := Columns();
      ColumnsLayout();
      ZipCells(cols, Cells(a, b));
      forall c | c in right && c !in keys
        ensures RightName(c) in Combine(a, b)
        ensures Combine(a, b)[RightName(c)] == (if b.Some? then b.value[c] else None)
      {
        var i :| 0 <= i < |rest| && rest[i] == c;
        assert cols[|left| + i] == RightName(c);
      }
    }

    lemma CombineKeyCells(a: Row, b: Option<Row>)
      requires forall c :: c in left ==> c in a
      requires b.Some? ==> forall c :: c in right ==> c in b.value
      requires NoDup(Columns())
      ensures forall c :: c in keys && c in left ==> c in Combine(a, b) && Combine(a, b)[c] == a[c]
    {
      CombineLeftCells(a, b);
      forall c | c in keys && c in left
        ensures c in Combine(a, b) && Combine(a, b)[c] == a[c]
      {
        assert LeftName(c) == c;
      }
    }
  }

  /** `s` ends with `suffix`. */
  predicate HasSuffix(s: string, suffix: string) {
    |suffix| <= |s| && s[|s| - |suffix|..] == suffix
  }

  lemma SuffixOfAppend(s: string, suffix: string)
    ensures HasSuffix(s + suffix, suffix)
  {
    assert (s + suffix)[|s|..] == suffix;
  }

  /** The cells of a merged row of two rows, read with `CellOf`. */
  lemma CombineCellOf(spec: JoinSpec, a: Row, b: Row)
    requires forall c :: c in spec.left ==> c in a
    requires forall c :: c in spec.right ==> c in b
    requires NoDup(spec.Columns())
    ensures forall c :: c in spec.left ==> CellOf(spec.Combine(a, Some(b)), spec.LeftName(c)) == CellOf(a, c)
    ensures forall c :: c in spec.right && c !in spec.keys ==>
              CellOf(spec.Combine(a, Some(b)), spec.RightName(c)) == CellOf(b, c)
  {
    spec.CombineLeftCells(a, Some(b));
    spec.CombineRightCells(a, Some(b));
  }

  /** Row `t` of an inner merge carries the key of the rows it joins, every
      left cell under its merged name and every non-key right cell under its
      merged name. */
  lemma InnerJoinRowCells(spec: JoinSpec, l: Table, r: Table, t: nat)
    requires spec.Fits(l, r)
    requires t < |InnerJoin(spec, l, r).rows|
    ensures var p := InnerOrigin(spec, l, r, t);
            var row := InnerJoin(spec, l, r).rows[t];
            && KeyOf(row, spec.keys) == KeyOf(l.rows[p.0], spec.keys)
            && (forall c :: c in spec.left ==> CellOf(row, spec.LeftName(c)) == CellOf(l.rows[p.0], c))
            && (forall c :: c in spec.right && c !in spec.keys ==> CellOf(row, spec.RightName(c)) == CellOf(r.rows[p.1], c))
  {
    var p := InnerOrigin(spec, l, r, t);
    CombineCellOf(spec, l.rows[p.0], r.rows[p.1]);
    CombineKeyOf(spec, l.rows[p.0], Some(r.rows[p.1]));
  }

  /** The cells of a left row merged with no right row. */
  lemma CombineCellOfNone(spec: JoinSpec, a: Row)
    requires forall c :: c in spec.left ==> c in a
    requires NoDup(spec.Columns())
    ensures forall c :: c in spec.left ==> CellOf(spec.Combine(a, None), spec.LeftName(c)) == CellOf(a, c)
    ensures forall c :: c in spec.right && c !in spec.keys ==> CellOf(spec.Combine(a, None), spec.RightName(c)).None?
  {
    spec.CombineLeftCells(a, None);
    spec.CombineRightCells(a, None);
  }

  /** The same, for a merge whose left copy of a shared column keeps its
      plain name: every left cell keeps its name, and a right cell is renamed
      with the right suffix exactly when the left table has its column. */
  lemma InnerJoinRowCellsPlainLeft(spec: JoinSpec, l: Table, r: Table, t: nat)
    requires spec.Fits(l, r) && spec.leftSuffix == ""
    requires t < |InnerJoin(spec, l, r).rows|
    ensures var p := InnerOrigin(spec, l, r, t);
            var row := InnerJoin(spec, l, r).rows[t];
            && KeyOf(row, spec.keys) == KeyOf(l.rows[p.0], spec.keys)
            && (forall c :: c in spec.left ==> CellOf(row, c) == CellOf(l.rows[p.0], c))
            && (forall c :: c in spec.right && c !in spec.keys ==>
                  CellOf(row, if c in spec.left then c + spec.rightSuffix else c) == CellOf(r.rows[p.1], c))
  {
    var p := InnerOrigin(spec, l, r, t);
    InnerJoinRowCells(spec, l, r, t);
    PlainLeftNames(spec, InnerJoin(spec, l, r).rows[t], l.rows[p.0], r.rows[p.1]);
  }

  lemma PlainLeftNames(spec: JoinSpec, row: Row, a: Row, b: Row)
    requires spec.leftSuffix == ""
    requires forall c :: c in spec.left ==> CellOf(row, spec.LeftName(c)) == CellOf(a, c)
    requires forall c :: c in spec.right && c !in spec.keys ==> CellOf(row, spec.RightName(c)) == CellOf(b, c)
    ensures forall c :: c in spec.left ==> CellOf(row, c) == CellOf(a, c)
    ensures forall c :: c in spec.right && c !in spec.keys ==>
              CellOf(row, if c in spec.left then c + spec.rightSuffix else c) == CellOf(b, c)
  {
    forall c | c in spec.left
      ensures CellOf(row, c) == CellOf(a, c)
    {
      assert spec.LeftName(c) == c + "" == c;
    }
  }

  /** Two rows that agree on every key cell have the same key. */
  lemma KeyOfCells(a: Row, b: Row, keys: seq<string>)
    requires forall k :: k in keys ==> CellOf(a, k) == CellOf(b, k)
    ensures KeyOf(a, keys) == KeyOf(b, keys)
  {
    assert forall i :: 0 <= i < |keys| ==> keys[i] in keys;
  }

  /** A merged row carries the left row's key. */
  lemma CombineKeyOf(spec: JoinSpec, a: Row, b: Option<Row>)
    requires forall c :: c in spec.left ==> c in a
    requires b.Some? ==> forall c :: c in spec.right ==> c in b.value
    requires NoDup(spec.Columns())
    requires forall k :: k in spec.keys ==> k in spec.left
    ensures KeyOf(spec.Combine(a, b), spec.keys) == KeyOf(a, spec.keys)
  {
    spec.CombineKeyCells(a, b);
  }

  /** The row mapping each of `names` to the value at the same position. */
  function Zip(names: seq<string>, vals: seq<Cell>): (r: Row)
    requires |names| == |vals|
    ensures r.Keys == ColumnSet(names)
    decreases |names|
  {
    if |names| == 0 then map[]
    else Zip(names[..|names| - 1], vals[..|vals| - 1])[names[|names| - 1] := vals[|vals| - 1]]
  }

  lemma {:induction false} ZipCells(names: seq<string>, vals: seq<Cell>)
    requires |names| == |vals| && NoDup(names)
    ensures forall i :: 0 <= i < |names| ==> Zip(names, vals)[names[i]] == vals[i]
    decreases |names|
  {
    if |names| > 0 {
      var n := |names| - 1;
      var init := Zip(names[..n], vals[..n]);
      assert NoDup(names[..n]) by {
        assert forall i :: 0 <= i < n ==> names[..n][i] == names[i];
      }
      ZipCells(names[..n], vals[..n]);
      assert Zip(names, vals) == init[names[n] := vals[n]];
      forall i | 0 <= i < n
        ensures Zip(names, vals)[names[i]] == vals[i]
      {
        assert names[i] != names[n];
        assert names[..n][i] == names[i] && vals[..n][i] == vals[i];
        assert init[names[..n][i]] == vals[..n][i];
      }
    }
  }

  /** The key cells of a row, in key order. */
  function KeyOf(row: Row, keys: seq<string>): (k: seq<Cell>)
    ensures |k| == |keys|
    ensures forall i :: 0 <= i < |keys| && keys[i] in row ==> k[i] == row[keys[i]]
  {
    seq(|keys|, i requires 0 <= i < |keys| => if keys[i] in row then row[keys[i]] else None)
  }

  /** The key cells of every row. */
  function KeysOf(rows: seq<Row>, keys: seq<string>): (ks: seq<seq<Cell>>)
    ensures |ks| == |rows|
    ensures forall i :: 0 <= i < |rows| ==> ks[i] == KeyOf(rows[i], keys)
  {
    seq(|rows|, i requires 0 <= i < |rows| => KeyOf(rows[i], keys))
  }

  /** No key occurs twice. */
  predicate UniqueKeys<K(==)>(ks: seq<K>) {
    NoDup(ks)
  }

  /** The positions of `rk` holding key `k`, ascending. */
  function MatchIndices<K(==)>(k: K, rk: seq<K>): (m: seq<nat>)
    ensures forall t :: 0 <= t < |m| ==> m[t] < |rk| && rk[m[t]] == k
    ensures forall t, u :: 0 <= t < u < |m| ==> m[t] < m[u]
    ensures forall j :: 0 <= j < |rk| && rk[j] == k ==> j in m
    ensures |m| == 0 <==> k !in rk
  {
    var m := KeptIndices(rk, x => x == k);
    assert |m| > 0 ==> rk[m[0]] in rk;
    if k in rk then
      var j :| 0 <= j < |rk| && rk[j] == k;
      assert j in m;
      m
    else
      m
  }

  /** With unique keys on the right, a left row has at most one partner. */
  lemma AtMostOneMatch<K>(k: K, rk: seq<K>)
    requires UniqueKeys(rk)
    ensures |MatchIndices(k, rk)| <= 1
  {
    TwoMatchesShareKey(k, rk);
  }

  lemma TwoMatchesShareKey<K>(k: K, rk: seq<K>)
    ensures var m := MatchIndices(k, rk);
            |m| > 1 ==> m[0] < m[1] && rk[m[0]] == rk[m[1]]
  {
  }

  /** Pair `p` comes strictly before pair `q`: by left row, then right row. */
  predicate Before(p: (nat, nat), q: (nat, nat)) {
    p.0 < q.0 || (p.0 == q.0 && p.1 < q.1)
  }

  /** The pairs an inner merge makes for left row `i` with partner positions `m`. */
  function InnerGroup(i: nat, m: seq<nat>): (g: seq<(nat, nat)>)
    ensures |g| == |m|
    ensures forall t :: 0 <= t < |m| ==> g[t] == (i, m[t])
  {
    seq(|m|, t requires 0 <= t < |m| => (i, m[t]))
  }

  /** Which (left row, right row) pairs an inner merge joins, given the key
      of every left row and of every right row, in output order: left row by
      left row, each with its partners in right-table order. */
  function InnerPairs<K(==)>(lk: seq<K>, rk: seq<K>): seq<(nat, nat)> {
    Flatten(seq(|lk|, i requires 0 <= i < |lk| => InnerGroup(i, MatchIndices(lk[i], rk))))
  }

  /** Every joined pair has equal keys, and every pair with equal keys is
      joined. */
  lemma InnerPairsExact<K>(lk: seq<K>, rk: seq<K>)
    ensures forall p: (nat, nat) :: p in InnerPairs(lk, rk) <==> p.0 < |lk| && p.1 < |rk| && lk[p.0] == rk[p.1]
  {
    var groups := seq(|lk|, i requires 0 <= i < |lk| => InnerGroup(i, MatchIndices(lk[i], rk)));
    forall p | p in InnerPairs(lk, rk)
      ensures p.0 < |lk| && p.1 < |rk| && lk[p.0] == rk[p.1]
    {
      FlattenOrigin(groups, p);
    }
    forall p: (nat, nat) | p.0 < |lk| && p.1 < |rk| && lk[p.0] == rk[p.1]
      ensures p in InnerPairs(lk, rk)
    {
      var m := MatchIndices(lk[p.0], rk);
      var t :| 0 <= t < |m| && m[t] == p.1;
      assert groups[p.0][t] == p;
      FlattenMember(groups, p.0, p);
    }
  }

  /** Joined pairs come ordered by left row and then by right row, each once. */
  lemma InnerPairsOrdered<K>(lk: seq<K>, rk: seq<K>)
    ensures forall t, u :: 0 <= t < u < |InnerPairs(lk, rk)| ==> Before(InnerPairs(lk, rk)[t], InnerPairs(lk, rk)[u])
  {
    var groups := seq(|lk|, i requires 0 <= i < |lk| => InnerGroup(i, MatchIndices(lk[i], rk)));
    FlattenOrdered(groups, Before);
  }

  /** The pairs a left merge makes for left row `i` with partner positions `m`. */
  function LeftGroup(i: nat, m: seq<nat>): (g: seq<(nat, Option<nat>)>)
    ensures |m| == 0 ==> g == [(i, None)]
    ensures |m| > 0 ==> |g| == |m| && forall t :: 0 <= t < |m| ==> g[t] == (i, Some(m[t]))
    ensures |g| >= 1
  {
    if |m| == 0 then [(i, None)] else seq(|m|, t requires 0 <= t < |m| => (i, Some(m[t])))
  }

  /** Which pairs a left merge joins, in output order: like the inner merge,
      except that a left row without a partner yields `(i, None)`. */
  function LeftPairs<K(==)>(lk: seq<K>, rk: seq<K>): seq<(nat, Option<nat>)> {
    Flatten(seq(|lk|, i requires 0 <= i < |lk| => LeftGroup(i, MatchIndices(lk[i], rk))))
  }

  /** The left merge joins exactly the pairs with equal keys ... */
  lemma LeftPairsMatched<K>(lk: seq<K>, rk: seq<K>)
    ensures forall i: nat, j: nat :: (i, Some(j)) in LeftPairs(lk, rk) <==> i < |lk| && j < |rk| && lk[i] == rk[j]
  {
    LeftPairsSound(lk, rk);
    LeftPairsMatchedComplete(lk, rk);
  }

  /** Where one pair of the left merge comes from. */
  lemma LeftPairOrigin<K>(lk: seq<K>, rk: seq<K>, x: (nat, Option<nat>))
    requires x in LeftPairs(lk, rk)
    ensures x.0 < |lk|
    ensures x.1.Some? ==> x.1.value < |rk| && lk[x.0] == rk[x.1.value]
    ensures x.1.None? ==> lk[x.0] !in rk
  {
    var groups := seq(|lk|, i requires 0 <= i < |lk| => LeftGroup(i, MatchIndices(lk[i], rk)));
    FlattenOrigin(groups, x);
    var k :| 0 <= k < |groups| && x in groups[k];
    var m := MatchIndices(lk[k], rk);
    if |m| > 0 {
      var t :| 0 <= t < |m| && groups[k][t] == x;
    }
  }

  /** Every pair of the left merge is either a matching pair or a left row
      without any partner. */
  lemma LeftPairsSound<K>(lk: seq<K>, rk: seq<K>)
    ensures forall x :: x in LeftPairs(lk, rk) ==>
              && x.0 < |lk|
              && (x.1.Some? ==> x.1.value < |rk| && lk[x.0] == rk[x.1.value])
              && (x.1.None? ==> lk[x.0] !in rk)
  {
    forall x | x in LeftPairs(lk, rk)
      ensures x.0 < |lk|
      ensures x.1.Some? ==> x.1.value < |rk| && lk[x.0] == rk[x.1.value]
      ensures x.1.None? ==> lk[x.0] !in rk
    {
      LeftPairOrigin(lk, rk, x);
    }
  }

  lemma LeftPairsMatchedComplete<K>(lk: seq<K>, rk: seq<K>)
    ensures forall i: nat, j: nat :: i < |lk| && j < |rk| && lk[i] == rk[j] ==> (i, Some(j)) in LeftPairs(lk, rk)
  {
    var groups := seq(|lk|, i requires 0 <= i < |lk| => LeftGroup(i, MatchIndices(lk[i], rk)));
    forall i: nat, j: nat | i < |lk| && j < |rk| && lk[i] == rk[j]
      ensures (i, Some(j)) in LeftPairs(lk, rk)
    {
      var m := MatchIndices(lk[i], rk);
      var t :| 0 <= t < |m| && m[t] == j;
      assert groups[i][t] == (i, Some(j));
      FlattenMember(groups, i, (i, Some(j)));
    }
  }

  /** ... and keeps, on its own, exactly each left row without a partner. */
  lemma LeftPairsUnmatched<K>(lk: seq<K>, rk: seq<K>)
    ensures forall i: nat :: (i, None) in LeftPairs(lk, rk) <==> i < |lk| && lk[i] !in rk
  {
    var groups := seq(|lk|, i requires 0 <= i < |lk| => LeftGroup(i, MatchIndices(lk[i], rk)));
    forall i: nat | (i, None) in LeftPairs(lk, rk)
      ensures i < |lk| && lk[i] !in rk
    {
      FlattenOrigin(groups, (i, None));
    }
    forall i: nat | i < |lk| && lk[i] !in rk
      ensures (i, None) in LeftPairs(lk, rk)
    {
      assert groups[i] == [(i, None)];
      FlattenMember(groups, i, (i, None));
    }
  }

  /** The left merge never drops a left row, and follows the left table's order. */
  lemma LeftPairsKeepsLeft<K>(lk: seq<K>, rk: seq<K>)
    ensures |LeftPairs(lk, rk)| >= |lk|
    ensures forall t, u :: 0 <= t < u < |LeftPairs(lk, rk)| ==> LeftPairs(lk, rk)[t].0 <= LeftPairs(lk, rk)[u].0
  {
    var groups := seq(|lk|, i requires 0 <= i < |lk| => LeftGroup(i, MatchIndices(lk[i], rk)));
    var lt := (p: (nat, Option<nat>), q: (nat, Option<nat>)) => p.0 <= q.0;
    FlattenLength(groups);
    forall i, t, u | 0 <= i < |groups| && 0 <= t < u < |groups[i]|
      ensures lt(groups[i][t], groups[i][u])
    {
      LeftGroupRow(i, MatchIndices(lk[i], rk), groups[i][t]);
      LeftGroupRow(i, MatchIndices(lk[i], rk), groups[i][u]);
    }
    forall i, i', x, y | 0 <= i < i' < |groups| && x in groups[i] && y in groups[i']
      ensures lt(x, y)
    {
      LeftGroupRow(i, MatchIndices(lk[i], rk), x);
      LeftGroupRow(i', MatchIndices(lk[i'], rk), y);
    }
    FlattenOrdered(groups, lt);
  }

  /** Left-merge pair `p` comes strictly before pair `q`: by left row, then
      by right row among the partners of one left row. */
  predicate LeftBefore(p: (nat, Option<nat>), q: (nat, Option<nat>)) {
    p.0 < q.0 || (p.0 == q.0 && p.1.Some? && q.1.Some? && p.1.value < q.1.value)
  }

  /** Left-merge pairs come ordered by left row and then by right row, so no
      pair occurs twice and a left row's partners follow the right table's
      order. */
  lemma LeftPairsOrdered<K>(lk: seq<K>, rk: seq<K>)
    ensures forall t, u :: 0 <= t < u < |LeftPairs(lk, rk)| ==> LeftBefore(LeftPairs(lk, rk)[t], LeftPairs(lk, rk)[u])
  {
    var groups := seq(|lk|, i requires 0 <= i < |lk| => LeftGroup(i, MatchIndices(lk[i], rk)));
    forall i, t, u | 0 <= i < |groups| && 0 <= t < u < |groups[i]|
      ensures LeftBefore(groups[i][t], groups[i][u])
    {
      var m := MatchIndices(lk[i], rk);
      assert groups[i][t] == (i, Some(m[t])) && groups[i][u] == (i, Some(m[u]));
    }
    forall i, i', x, y | 0 <= i < i' < |groups| && x in groups[i] && y in groups[i']
      ensures LeftBefore(x, y)
    {
      LeftGroupRow(i, MatchIndices(lk[i], rk), x);
      LeftGroupRow(i', MatchIndices(lk[i'], rk), y);
    }
    FlattenOrdered(groups, LeftBefore);
  }

  /** Every pair of a left row's group names that left row. */
  lemma LeftGroupRow(i: nat, m: seq<nat>, x: (nat, Option<nat>))
    requires x in LeftGroup(i, m)
    ensures x.0 == i
  {
    if |m| > 0 {
      var t :| 0 <= t < |m| && LeftGroup(i, m)[t] == x;
    }
  }

  /** The position of the first right row with key `k`, if any. */
  function PartnerIndex<K(==)>(k: K, rk: seq<K>): (p: Option<nat>)
    ensures p.Some? ==> p.value < |rk| && rk[p.value] == k
    ensures p.None? <==> k !in rk
  {
    var m := MatchIndices(k, rk);
    if |m| == 0 then None else Some(m[0])
  }

  /** With unique keys on the right, a left merge yields exactly one row per
      left row, in the left table's order: the left row with its partner, or
      with nothing. */
  lemma LeftPairsUnique<K>(lk: seq<K>, rk: seq<K>)
    requires UniqueKeys(rk)
    ensures |LeftPairs(lk, rk)| == |lk|
    ensures forall i :: 0 <= i < |lk| ==> LeftPairs(lk, rk)[i] == (i, PartnerIndex(lk[i], rk))
  {
    var groups := seq(|lk|, i requires 0 <= i < |lk| => LeftGroup(i, MatchIndices(lk[i], rk)));
    forall i | 0 <= i < |lk|
      ensures groups[i] == [(i, PartnerIndex(lk[i], rk))]
    {
      AtMostOneMatch(lk[i], rk);
    }
    FlattenSingletons(groups);
  }

  /** The (left row, right row) pair that row `t` of an inner merge joins:
      a left and a right row with equal keys. */
  function InnerOrigin(spec: JoinSpec, l: Table, r: Table, t: nat): (p: (nat, nat))
    requires t < |InnerPairs(KeysOf(l.rows, spec.keys), KeysOf(r.rows, spec.keys))|
    ensures p.0 < |l.rows| && p.1 < |r.rows|
    ensures KeyOf(l.rows[p.0], spec.keys) == KeyOf(r.rows[p.1], spec.keys)
  {
    InnerPairsExact(KeysOf(l.rows, spec.keys), KeysOf(r.rows, spec.keys));
    InnerPairs(KeysOf(l.rows, spec.keys), KeysOf(r.rows, spec.keys))[t]
  }

  /** `l.merge(r, on=keys, how="inner", suffixes=...)`: one row per pair of a
      left and a right row with equal keys. */
  function InnerJoin(spec: JoinSpec, l: Table, r: Table): (o: Table)
    requires spec.Fits(l, r)
    ensures o.Valid() && o.columns == spec.Columns()
    ensures |o.rows| == |InnerPairs(KeysOf(l.rows, spec.keys), KeysOf(r.rows, spec.keys))|
  {
    var n := |InnerPairs(KeysOf(l.rows, spec.keys), KeysOf(r.rows, spec.keys))|;
    Table(spec.Columns(), seq(n, t requires 0 <= t < n =>
      spec.Combine(l.rows[InnerOrigin(spec, l, r, t).0], Some(r.rows[InnerOrigin(spec, l, r, t).1]))))
  }

  /** Every left row and right row with equal keys meet in some output row. */
  lemma InnerJoinComplete(spec: JoinSpec, l: Table, r: Table, i: nat, j: nat)
    requires spec.Fits(l, r)
    requires i < |l.rows| && j < |r.rows|
    requires KeyOf(l.rows[i], spec.keys) == KeyOf(r.rows[j], spec.keys)
    ensures exists t :: 0 <= t < |InnerJoin(spec, l, r).rows| && InnerOrigin(spec, l, r, t) == (i, j)
  {
    var lk := KeysOf(l.rows, spec.keys);
    var rk := KeysOf(r.rows, spec.keys);
    var ps := InnerPairs(lk, rk);
    InnerPairsExact(lk, rk);
    assert (i, j) in ps;
    var t :| 0 <= t < |ps| && ps[t] == (i, j);
    assert InnerOrigin(spec, l, r, t) == (i, j);
  }

  /** The right row a left-merge pair refers to, if any. */
  function Partner(r: Table, j: Option<nat>): Option<Row>
    requires j.Some? ==> j.value < |r.rows|
  {
    if j.Some? then Some(r.rows[j.value]) else None
  }

  /** The left row and the optional right row that row `t` of a left merge
      joins: a right row of equal key, or none when no right row has that
      key. */
  function LeftOrigin(spec: JoinSpec, l: Table, r: Table, t: nat): (p: (nat, Option<nat>))
    requires t < |LeftPairs(KeysOf(l.rows, spec.keys), KeysOf(r.rows, spec.keys))|
    ensures p.0 < |l.rows|
    ensures p.1.Some? ==> p.1.value < |r.rows| && KeyOf(l.rows[p.0], spec.keys) == KeyOf(r.rows[p.1.value], spec.keys)
    ensures p.1.None? ==> forall j :: 0 <= j < |r.rows| ==> KeyOf(l.rows[p.0], spec.keys) != KeyOf(r.rows[j], spec.keys)
  {
    var lk := KeysOf(l.rows, spec.keys);
    var rk := KeysOf(r.rows, spec.keys);
    LeftPairsSound(lk, rk);
    var p := LeftPairs(lk, rk)[t];
    assert p in LeftPairs(lk, rk);
    assert forall j :: 0 <= j < |r.rows| ==> rk[j] in rk;
    p
  }

  /** `l.merge(r, on=keys, how="left", suffixes=...)`: every left row joined
      with each right row of equal key, or with nothing when there is none. */
  function LeftJoin(spec: JoinSpec, l: Table, r: Table): (o: Table)
    requires spec.Fits(l, r)
    ensures o.Valid() && o.columns == spec.Columns()
    ensures |o.rows| == |LeftPairs(KeysOf(l.rows, spec.keys), KeysOf(r.rows, spec.keys))|
    ensures |o.rows| >= |l.rows|
  {
    var n := |LeftPairs(KeysOf(l.rows, spec.keys), KeysOf(r.rows, spec.keys))|;
    LeftPairsKeepsLeft(KeysOf(l.rows, spec.keys), KeysOf(r.rows, spec.keys));
    Table(spec.Columns(), seq(n, t requires 0 <= t < n =>
      spec.Combine(l.rows[LeftOrigin(spec, l, r, t).0], Partner(r, LeftOrigin(spec, l, r, t).1))))
  }

  /** Row `t` of a left merge carries the key of its left row, every left
      cell under its merged name, and every non-key right cell under its
      merged name: the partner's cell, or missing (never zero) when the left
      row has no partner. */
  lemma LeftJoinRowCells(spec: JoinSpec, l: Table, r: Table, t: nat)
    requires spec.Fits(l, r)
    requires t < |LeftJoin(spec, l, r).rows|
    ensures var p := LeftOrigin(spec, l, r, t);
            var row := LeftJoin(spec, l, r).rows[t];
            && KeyOf(row, spec.keys) == KeyOf(l.rows[p.0], spec.keys)
            && (forall c :: c in spec.left ==> CellOf(row, spec.LeftName(c)) == CellOf(l.rows[p.0], c))
            && (forall c :: c in spec.right && c !in spec.keys ==>
                  CellOf(row, spec.RightName(c)) == (if p.1.Some? then CellOf(r.rows[p.1.value], c) else None))
  {
    var p := LeftOrigin(spec, l, r, t);
    var a := l.rows[p.0];
    if p.1.Some? {
      CombineCellOf(spec, a, r.rows[p.1.value]);
    } else {
      CombineCellOfNone(spec, a);
    }
    CombineKeyOf(spec, a, Partner(r, p.1));
  }

  /** A left row without a partner appears in the left merge, on its own. */
  lemma LeftJoinKeepsUnmatched(spec: JoinSpec, l: Table, r: Table, i: nat)
    requires spec.Fits(l, r)
    requires i < |l.rows|
    requires forall j :: 0 <= j < |r.rows| ==> KeyOf(l.rows[i], spec.keys) != KeyOf(r.rows[j], spec.keys)
    ensures exists t :: 0 <= t < |LeftJoin(spec, l, r).rows| && LeftOrigin(spec, l, r, t) == (i, None)
  {
    var lk := KeysOf(l.rows, spec.keys);
    var rk := KeysOf(r.rows, spec.keys);
    var ps := LeftPairs(lk, rk);
    LeftPairsUnmatched(lk, rk);
    assert lk[i] !in rk;
    assert (i, None) in ps;
    var t :| 0 <= t < |ps| && ps[t] == (i, None);
    assert LeftOrigin(spec, l, r, t) == (i, None);
  }

  /** A left row and a right row of equal key meet in the left merge. */
  lemma LeftJoinKeepsMatched(spec: JoinSpec, l: Table, r: Table, i: nat, j: nat)
    requires spec.Fits(l, r)
    requires i < |l.rows| && j < |r.rows|
    requires KeyOf(l.rows[i], spec.keys) == KeyOf(r.rows[j], spec.keys)
    ensures exists t :: 0 <= t < |LeftJoin(spec, l, r).rows| && LeftOrigin(spec, l, r, t) == (i, Some(j))
  {
    var lk := KeysOf(l.rows, spec.keys);
    var rk := KeysOf(r.rows, spec.keys);
    var ps := LeftPairs(lk, rk);
    LeftPairsMatchedComplete(lk, rk);
    assert (i, Some(j)) in ps;
    var t :| 0 <= t < |ps| && ps[t] == (i, Some(j));
    assert LeftOrigin(spec, l, r, t) == (i, Some(j));
  }

  /** With unique keys on the right, the left merge has exactly one row per
      left row, in the left table's order, joined with the right row of
      equal key if there is one. */
  lemma LeftJoinUnique(spec: JoinSpec, l: Table, r: Table)
    requires spec.Fits(l, r)
    requires UniqueKeys(KeysOf(r.rows, spec.keys))
    ensures |LeftJoin(spec, l, r).rows| == |l.rows|
    ensures forall i :: 0 <= i < |l.rows| ==>
              LeftOrigin(spec, l, r, i) == (i, PartnerIndex(KeyOf(l.rows[i], spec.keys), KeysOf(r.rows, spec.keys)))
  {
    LeftPairsUnique(KeysOf(l.rows, spec.keys), KeysOf(r.rows, spec.keys));
  }
}
