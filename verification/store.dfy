/** The `tenant_insights` log: `save_insights_to_db` appends, the
    `/insights-history` query reads the newest entries back. */
module InsightStore {
  import opened Wrappers
  import opened Insights

  /** One row of `tenant_insights`; the timestamp column is not modelled and
      `insight` is the entry that `insight_json` serialises. */
  datatype StoredRow = StoredRow(id: nat, tenantName: Option<string>, property: Option<string>,
                                 insight: Record)

  /** The table's rows in insertion order and the largest id ever handed
      out, which AUTOINCREMENT keeps so that ids are never reused. */
  datatype Store = Store(rows: seq<StoredRow>, lastId: nat) {
    ghost predicate Valid() {
      && (forall i, j :: 0 <= i < j < |rows| ==> rows[i].id < rows[j].id)
      && (forall i :: 0 <= i < |rows| ==> 0 < rows[i].id <= lastId)
    }
  }

  /** The table as `init_db` creates it. */
  const Empty: Store := Store([], 0)

  /** At most this many rows are read back. */
  const HistoryLimit: nat := 50

  /** `entry.get(key)`. */
  function Get(entry: Record, key: string): (v: Option<string>)
    ensures key in entry ==> v == entry[key]
    ensures key !in entry ==> v.None?
  {
    if key in entry then entry[key] else None
  }

  /** `save_insights_to_db`: one row per entry, in order, each under the
      next id. */
  function Save(st: Store, entries: seq<Record>): (r: Store)
    requires st.Valid()
    ensures r.Valid()
    ensures |r.rows| == |st.rows| + |entries|
    ensures r.rows[..|st.rows|] == st.rows
    ensures r.lastId == st.lastId + |entries|
    ensures forall k :: 0 <= k < |entries| ==>
              && r.rows[|st.rows| + k].id > st.lastId
              && r.rows[|st.rows| + k].tenantName == Get(entries[k], "tenant_name")
              && r.rows[|st.rows| + k].property == Get(entries[k], "property")
              && r.rows[|st.rows| + k].insight == entries[k]
  {
    var added := seq(|entries|, k requires 0 <= k < |entries| =>
      StoredRow(st.lastId + 1 + k, Get(entries[k], "tenant_name"), Get(entries[k], "property"), entries[k]));
    var r := Store(st.rows + added, st.lastId + |entries|);
    assert r.rows[..|st.rows|] == st.rows;
    r
  }

  /** Saving never rewrites or reorders what is already stored. */
  lemma SaveKeepsRows(st: Store, entries: seq<Record>, i: nat)
    requires st.Valid() && i < |st.rows|
    ensures Save(st, entries).rows[i] == st.rows[i]
  {
    var r := Save(st, entries);
    assert r.rows[..|st.rows|][i] == r.rows[i];
  }

  /** How many rows the history query returns: `min(n, 50)`. */
  function HistorySize(n: nat): (k: nat)
    ensures k <= n && k <= HistoryLimit
    ensures k == n || k == HistoryLimit
  {
    if n < HistoryLimit then n else HistoryLimit
  }

  /** `ORDER BY id DESC LIMIT 50`, for a log kept in insertion order. */
  function NewestRows(st: Store): (h: seq<StoredRow>)
    ensures |h| == HistorySize(|st.rows|)
    ensures forall t :: 0 <= t < |h| ==> h[t] == st.rows[|st.rows| - 1 - t]
  {
    var n := |st.rows|;
    seq(HistorySize(n), t requires 0 <= t < HistorySize(n) => st.rows[n - 1 - t])
  }

  /** The history rows come in strictly descending id order. */
  lemma NewestRowsDescending(st: Store)
    requires st.Valid()
    ensures forall t, u :: 0 <= t < u < |NewestRows(st)| ==> NewestRows(st)[t].id > NewestRows(st)[u].id
  {
    var h := NewestRows(st);
    var n := |st.rows|;
    forall t, u | 0 <= t < u < |h|
      ensures h[t].id > h[u].id
    {
      assert h[t] == st.rows[n - 1 - t] && h[u] == st.rows[n - 1 - u];
    }
  }

  /** The history holds stored rows, and every stored row it leaves out is
      older than every row it returns: it is the top `min(n, 50)` by id. */
  lemma NewestRowsTop(st: Store)
    requires st.Valid()
    ensures forall t :: 0 <= t < |NewestRows(st)| ==> NewestRows(st)[t] in st.rows
    ensures forall t, i :: 0 <= t < |NewestRows(st)| && 0 <= i < |st.rows| && st.rows[i] !in NewestRows(st)
              ==> st.rows[i].id < NewestRows(st)[t].id
  {
    var n := |st.rows|;
    var h := NewestRows(st);
    var k := |h|;
    forall i | n - k <= i < n
      ensures st.rows[i] in h
    {
      assert h[n - 1 - i] == st.rows[i];
    }
    forall t, i | 0 <= t < k && 0 <= i < n - k
      ensures st.rows[i].id < h[t].id
    {
      assert h[t] == st.rows[n - 1 - t];
    }
  }

  /** One history record: `{"tenant_name": ..., "property": ..., **entry}`;
      the stored entry's own keys win over the two columns. */
  function Render(row: StoredRow): (rec: Record)
    ensures rec.Keys == row.insight.Keys + {"tenant_name", "property"}
    ensures forall key :: key in row.insight ==> rec[key] == row.insight[key]
    ensures "tenant_name" !in row.insight ==> rec["tenant_name"] == row.tenantName
    ensures "property" !in row.insight ==> rec["property"] == row.property
  {
    map["tenant_name" := row.tenantName, "property" := row.property] + row.insight
  }

  /** `insights_history`: the newest 50 rows, newest first, as records. */
  function History(st: Store): (h: seq<Record>)
    ensures |h| == |NewestRows(st)|
    ensures forall t :: 0 <= t < |h| ==> h[t] == Render(NewestRows(st)[t])
  {
    var rows := NewestRows(st);
    seq(|rows|, t requires 0 <= t < |rows| => Render(rows[t]))
  }

  /** Reading a saved entry back gives the entry itself, with `tenant_name`
      and `property` filled in as null when it lacks them. */
  lemma SavedEntryReadsBack(st: Store, entries: seq<Record>, k: nat)
    requires st.Valid() && k < |entries|
    ensures Render(Save(st, entries).rows[|st.rows| + k])
              == map["tenant_name" := None, "property" := None] + entries[k]
  {
    RenderDefaults(Save(st, entries).rows[|st.rows| + k], entries[k]);
  }

  /** A save of at most 50 entries is read back first, newest first. */
  lemma SaveThenHistory(st: Store, entries: seq<Record>, k: nat)
    requires st.Valid() && k < |entries| <= HistoryLimit
    ensures k < |History(Save(st, entries))|
    ensures History(Save(st, entries))[k]
              == map["tenant_name" := None, "property" := None] + entries[|entries| - 1 - k]
  {
    var r := Save(st, entries);
    SavedNewestReadsBack(st, entries, k);
    HistoryAt(r, k);
  }

  /** The `k`-th newest row after a save renders the `k`-th last entry. */
  lemma SavedNewestReadsBack(st: Store, entries: seq<Record>, k: nat)
    requires st.Valid() && k < |entries|
    ensures k < |Save(st, entries).rows|
    ensures Render(Save(st, entries).rows[|Save(st, entries).rows| - 1 - k])
              == map["tenant_name" := None, "property" := None] + entries[|entries| - 1 - k]
  {
    var j := |entries| - 1 - k;
    var r := Save(st, entries);
    assert |r.rows| - 1 - k == |st.rows| + j;
    RenderDefaults(r.rows[|st.rows| + j], entries[j]);
  }

  /** The `k`-th history record renders the `k`-th newest stored row. */
  lemma HistoryAt(st: Store, k: nat)
    requires k < |st.rows| && k < HistoryLimit
    ensures k < |History(st)|
    ensures History(st)[k] == Render(st.rows[|st.rows| - 1 - k])
  {
  }

  /** `Render` of a row saved from `e` is `e` over null defaults. */
  lemma RenderDefaults(row: StoredRow, e: Record)
    requires row.tenantName == Get(e, "tenant_name") && row.property == Get(e, "property")
    requires row.insight == e
    ensures Render(row) == map["tenant_name" := None, "property" := None] + e
  {
    var lhs := Render(row);
    var rhs := map["tenant_name" := None, "property" := None] + e;
    assert lhs.Keys == rhs.Keys;
    forall key | key in lhs ensures lhs[key] == rhs[key] {
      if key !in e {
        assert key == "tenant_name" || key == "property";
      }
    }
  }
}
