/** Tables as the pipeline sees them after `pd.read_csv`: an ordered list of
    distinct column names and a sequence of rows, each row mapping every
    column to a cell that is either missing (NaN) or holds text. */
module Tables {
  import opened Wrappers
  import opened Seqs

  type Cell = Option<string>
  type Row = map<string, Cell>

  function ColumnSet(cols: seq<string>): set<string> {
    set c | c in cols
  }

  datatype Table = Table(columns: seq<string>, rows: seq<Row>) {
    /** Column names are distinct and every row has a cell for exactly the
        columns of the table. */
    predicate Valid() {
      && NoDup(columns)
      && forall i :: 0 <= i < |rows| ==> rows[i].Keys == ColumnSet(columns)
    }
  }

  /** The cell of `row` in column `c`; missing when the row has no such column. */
  function CellOf(row: Row, c: string): Cell {
    if c in row then row[c] else None
  }

  /** A row whose every cell is missing. */
  predicate AllMissing(row: Row) {
    forall c :: c in row ==> row[c].None?
  }

  predicate HasValue(row: Row) {
    !AllMissing(row)
  }

  /** `clean_data` (`dropna(how="all")`): drop the rows whose every cell is
      missing, keep the others in their original order. */
  function Clean(t: Table): (r: Table)
    requires t.Valid()
    ensures r.Valid() && r.columns == t.columns
    ensures forall i :: 0 <= i < |r.rows| ==> HasValue(r.rows[i]) && r.rows[i] in t.rows
    ensures forall i :: 0 <= i < |t.rows| && HasValue(t.rows[i]) ==> t.rows[i] in r.rows
  {
    Table(t.columns, Filter(t.rows, HasValue))
  }

  /** Cleaning keeps exactly the rows with a present cell and preserves their
      relative order: the result is the input read at the ascending positions
      of those rows. */
  lemma CleanKeepsOrder(t: Table)
    requires t.Valid()
    ensures Clean(t).rows == Pick(t.rows, KeptIndices(t.rows, HasValue))
    ensures forall i :: 0 <= i < |t.rows| ==> (HasValue(t.rows[i]) <==> i in KeptIndices(t.rows, HasValue))
  {
    FilterIsPick(t.rows, HasValue);
  }

  /** The row restriction `df[df["Status"] == "Current"]`, applied only when
      the table has a Status column. A missing status is not "Current". */
  predicate IsCurrent(row: Row) {
    "Status" in row && row["Status"] == Some("Current")
  }

  function KeepCurrent(t: Table): (r: Table)
    requires t.Valid()
    ensures r.Valid() && r.columns == t.columns
    ensures "Status" !in t.columns ==> r == t
    ensures "Status" in t.columns ==>
              && (forall i :: 0 <= i < |r.rows| ==> r.rows[i] in t.rows && r.rows[i]["Status"] == Some("Current"))
              && (forall i :: 0 <= i < |t.rows| && t.rows[i]["Status"] == Some("Current") ==> t.rows[i] in r.rows)
  {
    if "Status" in t.columns then Table(t.columns, Filter(t.rows, IsCurrent)) else t
  }

  /** With a Status column, the kept rows are exactly the current ones, in
      their original order. */
  lemma KeepCurrentOrder(t: Table)
    requires t.Valid() && "Status" in t.columns
    ensures KeepCurrent(t).rows == Pick(t.rows, KeptIndices(t.rows, IsCurrent))
  {
    FilterIsPick(t.rows, IsCurrent);
  }

  /** The columns after `df[name] = ...`: an existing column keeps its place,
      a new one is appended at the end. */
  function WithColumn(cols: seq<string>, name: string): (r: seq<string>)
    ensures ColumnSet(r) == ColumnSet(cols) + {name}
    ensures NoDup(cols) ==> NoDup(r)
    ensures forall c :: c in cols ==> c in r
  {
    if name in cols then cols else cols + [name]
  }

  /** `df[name] = <per-row value>`: every row gets `f(row)` in column `name`,
      and every other cell is left as it was. */
  function SetColumn(t: Table, name: string, f: Row -> Cell): (r: Table)
    requires t.Valid()
    ensures r.Valid()
    ensures r.columns == WithColumn(t.columns, name)
    ensures |r.rows| == |t.rows|
    ensures forall i :: 0 <= i < |t.rows| ==> r.rows[i][name] == f(t.rows[i])
    ensures forall i, c :: 0 <= i < |t.rows| && c != name ==> CellOf(r.rows[i], c) == CellOf(t.rows[i], c)
  {
    Table(WithColumn(t.columns, name), seq(|t.rows|, i requires 0 <= i < |t.rows| => t.rows[i][name := f(t.rows[i])]))
  }

  /** `df[[c for c in wanted if c in df.columns]]`: keep the wanted columns
      that exist, in the order of `wanted`, and nothing else. */
  function Project(t: Table, wanted: seq<string>): (r: Table)
    requires t.Valid()
    requires NoDup(wanted)
    ensures r.Valid()
    ensures |r.rows| == |t.rows|
    ensures forall c :: c in r.columns <==> c in wanted && c in t.columns
    ensures forall i, c :: 0 <= i < |r.rows| && c in r.columns ==> r.rows[i][c] == t.rows[i][c]
  {
    var cols := Filter(wanted, c => c in t.columns);
    FilterNoDup(wanted, c => c in t.columns);
    forall c | c in wanted && c in t.columns
      ensures c in cols
    {
      FilterMembership(wanted, c => c in t.columns, c);
    }
    Table(cols, seq(|t.rows|, i requires 0 <= i < |t.rows| => map c | c in ColumnSet(cols) :: t.rows[i][c]))
  }

  /** The projected columns appear in the order of `wanted`. */
  lemma ProjectOrder(t: Table, wanted: seq<string>)
    requires t.Valid() && NoDup(wanted)
    ensures Project(t, wanted).columns == Pick(wanted, KeptIndices(wanted, c => c in t.columns))
  {
    FilterIsPick(wanted, c => c in t.columns);
  }
}
