/** `merge_datasets`: clean the three uploaded tables, normalise tenant
    names, keep current tenancies, derive the rent roll's tenure and late
    payment rate, inner-merge tenant directory and rent roll, left-merge the
    delinquency report, and keep the fixed list of reported columns. */
module Merge {
  import opened Wrappers
  import opened Seqs
  import opened Names
  import opened Tables
  import opened Joins

  /** The merge keys, in the order passed to `on=`. */
  const Keys: seq<string> := ["Property", "Unit", "Tenant"]

  /** The reported columns, in report order. */
  const ColumnsNeeded: seq<string> := [
    "Tenant", "Unit", "Property", "Rent", "Market Rent", "Past Due", "Deposit",
    "Lease To", "Move-in", "Late Count", "Tenure_Months", "Late_Payment_Rate",
    "Delinquent Rent", "Delinquency Notes", "0-30", "30-60", "60-90", "90+",
    "Delinquent Subsidy Amount"
  ]

  /** The date and number conversions pandas performs on cell text, left
      abstract: each yields `None` where pandas yields NaT or NaN. */
  datatype Numerics = Numerics(
    /** `pd.to_datetime(..., errors="coerce")` of one Move-in cell. pandas
        parses the whole column under one format inferred from its first
        present value, so this stands for parsing under the format of the
        rent roll at hand, and a cell that fails that format is `None`. */
    toDate: string -> Option<string>,
    /** Whole 30-day months from a parsed date to today, rounded. */
    monthsSince: string -> Option<string>,
    /** `pd.to_numeric(..., errors="coerce")` of one cell. */
    toNumber: string -> Option<string>,
    /** Float division of two numbers; `None` where the quotient is NaN. */
    divide: (string, string) -> Option<string>,
    /** The text of the number 0 written by `fillna(0)`. */
    zero: string)

  /** A per-cell conversion; a missing cell stays missing. */
  function Lift(f: string -> Option<string>, c: Cell): Cell {
    if c.None? then None else f(c.value)
  }

  /** `(late / tenure).fillna(0)` for one row: NaN from a missing operand or
      an undefined quotient becomes zero, so the rate is never missing. */
  function LatePaymentRate(num: Numerics, late: Cell, tenure: Cell): (r: Cell)
    ensures r.Some?
    ensures late.None? || tenure.None? ==> r == Some(num.zero)
    ensures late.Some? && tenure.Some? && num.divide(late.value, tenure.value).Some? ==>
              r == num.divide(late.value, tenure.value)
    ensures late.Some? && tenure.Some? && num.divide(late.value, tenure.value).None? ==> r == Some(num.zero)
  {
    if late.None? || tenure.None? then Some(num.zero)
    else Some(num.divide(late.value, tenure.value).GetOr(num.zero))
  }

  /** The converted tenant name of a row. */
  function ConvertTenant(row: Row): Cell {
    ConvertName(CellOf(row, "Tenant"))
  }

  /** `src` with its Tenant name converted and every other cell as it was. */
  ghost predicate ConvertedRow(r: Row, src: Row) {
    && CellOf(r, "Tenant") == ConvertTenant(src)
    && forall c :: c != "Tenant" ==> CellOf(r, c) == CellOf(src, c)
  }

  /** The tenant directory as merged: cleaned, its Tenant names converted,
      and restricted to current tenancies when it has a Status column. Row
      for row it is the cleaned directory, or, with a Status column, the
      cleaned directory read at the ascending positions of its current rows;
      no other row is kept and none is dropped. */
  function PrepareTenantDirectory(td: Table): (r: Table)
    requires td.Valid() && "Tenant" in td.columns
    ensures r.Valid() && r.columns == td.columns
    ensures "Status" in td.columns ==> forall i :: 0 <= i < |r.rows| ==> CellOf(r.rows[i], "Status") == Some("Current")
    ensures "Status" !in td.columns ==>
              && |r.rows| == |Clean(td).rows|
              && forall j :: 0 <= j < |r.rows| ==> ConvertedRow(r.rows[j], Clean(td).rows[j])
    ensures "Status" in td.columns ==>
              var idx := KeptIndices(Clean(td).rows, IsCurrent);
              && |r.rows| == |idx|
              && forall j :: 0 <= j < |idx| ==> ConvertedRow(r.rows[j], Clean(td).rows[idx[j]])
  {
    ConvertThenKeep(td);
    KeepCurrent(SetColumn(Clean(td), "Tenant", ConvertTenant))
  }

  /** Converting names leaves every Status cell alone, so the current rows
      after the conversion sit where the current cleaned rows do. */
  lemma ConvertThenKeep(td: Table)
    requires td.Valid() && "Tenant" in td.columns
    ensures var clean := Clean(td);
            var r := KeepCurrent(SetColumn(clean, "Tenant", ConvertTenant));
            && ("Status" !in td.columns ==>
                  |r.rows| == |clean.rows| && forall j :: 0 <= j < |r.rows| ==> ConvertedRow(r.rows[j], clean.rows[j]))
            && ("Status" in td.columns ==>
                  var idx := KeptIndices(clean.rows, IsCurrent);
                  |r.rows| == |idx| && forall j :: 0 <= j < |idx| ==> ConvertedRow(r.rows[j], clean.rows[idx[j]]))
  {
    var clean := Clean(td);
    var conv := SetColumn(clean, "Tenant", ConvertTenant);
    ConvertRows(clean);
    if "Status" in td.columns {
      forall i | 0 <= i < |conv.rows|
        ensures IsCurrent(conv.rows[i]) == IsCurrent(clean.rows[i])
      {
        assert CellOf(conv.rows[i], "Status") == CellOf(clean.rows[i], "Status");
      }
      KeptIndicesAgree(conv.rows, IsCurrent, clean.rows, IsCurrent);
      KeepCurrentOrder(conv);
    }
  }

  lemma ConvertRows(t: Table)
    requires t.Valid()
    ensures var conv := SetColumn(t, "Tenant", ConvertTenant);
            forall j :: 0 <= j < |conv.rows| ==> ConvertedRow(conv.rows[j], t.rows[j])
  {
  }

  /** The delinquency report as merged: cleaned, with a Tenant column holding
      its converted Name column. It has no Status restriction. */
  function PrepareDelinquency(dq: Table): (r: Table)
    requires dq.Valid() && "Name" in dq.columns
    ensures r.Valid() && r.columns == WithColumn(dq.columns, "Tenant")
    ensures |r.rows| == |Clean(dq).rows|
    ensures forall i :: 0 <= i < |r.rows| ==> r.rows[i]["Tenant"] == ConvertName(Clean(dq).rows[i]["Name"])
    ensures forall i, c :: 0 <= i < |r.rows| && c != "Tenant" ==> CellOf(r.rows[i], c) == CellOf(Clean(dq).rows[i], c)
  {
    SetColumn(Clean(dq), "Tenant", row => ConvertName(CellOf(row, "Name")))
  }

  /** The columns the rent roll has once its derived columns are set. */
  function RentRollColumns(cols: seq<string>): (r: seq<string>)
    ensures NoDup(cols) ==> NoDup(r)
    ensures forall c :: c in r <==> c in cols || c == "Tenure_Months" || c == "Late_Payment_Rate"
  {
    FilterSpec(["Tenure_Months", "Late_Payment_Rate"], c => c !in cols);
    cols + Filter(["Tenure_Months", "Late_Payment_Rate"], c => c !in cols)
  }

  lemma RentRollColumnsAdded(cols: seq<string>)
    ensures RentRollColumns(cols) == WithColumn(WithColumn(cols, "Tenure_Months"), "Late_Payment_Rate")
  {
  }

  /** The tenure step: with a Move-in column, Move-in is parsed as a date
      and Tenure_Months counts the months since; without one, Tenure_Months
      is missing throughout. */
  function WithTenure(num: Numerics, t: Table): (r: Table)
    requires t.Valid()
    ensures r.Valid() && r.columns == WithColumn(t.columns, "Tenure_Months")
    ensures |r.rows| == |t.rows|
    ensures "Move-in" !in t.columns ==> forall i :: 0 <= i < |r.rows| ==> r.rows[i]["Tenure_Months"].None?
    ensures "Move-in" in t.columns ==> forall i :: 0 <= i < |r.rows| ==>
              r.rows[i]["Tenure_Months"] == Lift(num.monthsSince, Lift(num.toDate, t.rows[i]["Move-in"]))
    ensures "Move-in" in t.columns ==> forall i :: 0 <= i < |r.rows| ==>
              r.rows[i]["Move-in"] == Lift(num.toDate, t.rows[i]["Move-in"])
    ensures forall i, c :: 0 <= i < |t.rows| && c != "Move-in" && c != "Tenure_Months" ==>
              CellOf(r.rows[i], c) == CellOf(t.rows[i], c)
  {
    if "Move-in" in t.columns then
      var dated := SetColumn(t, "Move-in", row => Lift(num.toDate, CellOf(row, "Move-in")));
      SetColumn(dated, "Tenure_Months", row => Lift(num.monthsSince, CellOf(row, "Move-in")))
    else
      SetColumn(t, "Tenure_Months", row => None)
  }

  /** The late-rate step: Late Count becomes numeric and Late_Payment_Rate
      is its quotient by Tenure_Months with NaN replaced by zero. */
  function WithLateRate(num: Numerics, t: Table): (r: Table)
    requires t.Valid() && "Late Count" in t.columns && "Tenure_Months" in t.columns
    ensures r.Valid() && r.columns == WithColumn(t.columns, "Late_Payment_Rate")
    ensures |r.rows| == |t.rows|
    ensures forall i :: 0 <= i < |r.rows| ==> r.rows[i]["Late Count"] == Lift(num.toNumber, t.rows[i]["Late Count"])
    ensures forall i :: 0 <= i < |r.rows| ==>
              r.rows[i]["Late_Payment_Rate"] == LatePaymentRate(num, r.rows[i]["Late Count"], t.rows[i]["Tenure_Months"])
    ensures forall i, c :: 0 <= i < |t.rows| && c != "Late Count" && c != "Late_Payment_Rate" ==>
              CellOf(r.rows[i], c) == CellOf(t.rows[i], c)
  {
    var counted := SetColumn(t, "Late Count", row => Lift(num.toNumber, CellOf(row, "Late Count")));
    SetColumn(counted, "Late_Payment_Rate", row => LatePaymentRate(num, CellOf(row, "Late Count"), CellOf(row, "Tenure_Months")))
  }

  /** The rent-roll columns the preparation rewrites or adds. */
  const DerivedColumns: set<string> := {"Move-in", "Tenure_Months", "Late Count", "Late_Payment_Rate"}

  /** The rent roll as merged: cleaned, restricted to current tenancies when
      it has a Status column, then given its derived columns. */
  function PrepareRentRoll(num: Numerics, rr: Table): (r: Table)
    requires rr.Valid() && "Late Count" in rr.columns
    ensures r.Valid() && r.columns == RentRollColumns(rr.columns)
    ensures |r.rows| == |KeepCurrent(Clean(rr)).rows|
    ensures forall i :: 0 <= i < |r.rows| ==> CellOf(r.rows[i], "Late_Payment_Rate").Some?
    ensures "Move-in" !in rr.columns ==> forall i :: 0 <= i < |r.rows| ==>
              CellOf(r.rows[i], "Tenure_Months").None? && CellOf(r.rows[i], "Late_Payment_Rate") == Some(num.zero)
    ensures "Move-in" in rr.columns ==> forall i :: 0 <= i < |r.rows| ==>
              CellOf(r.rows[i], "Tenure_Months") ==
                Lift(num.monthsSince, Lift(num.toDate, CellOf(KeepCurrent(Clean(rr)).rows[i], "Move-in")))
    ensures forall i :: 0 <= i < |r.rows| ==> DerivedRow(num, r.rows[i], KeepCurrent(Clean(rr)).rows[i], "Move-in" in rr.columns)
  {
    var current := KeepCurrent(Clean(rr));
    RentRollColumnsAdded(rr.columns);
    DerivedRows(num, current);
    WithLateRate(num, WithTenure(num, current))
  }

  /** Prepared rent-roll row `r` made from current cleaned row `src`: Late
      Count read as a number, Move-in as a date when the rent roll has that
      column, Tenure_Months the months since that date (missing without
      it), Late_Payment_Rate their quotient, and every other cell as it
      was. */
  ghost predicate DerivedRow(num: Numerics, r: Row, src: Row, dated: bool) {
    && (forall c :: c !in DerivedColumns ==> CellOf(r, c) == CellOf(src, c))
    && CellOf(r, "Late Count") == Lift(num.toNumber, CellOf(src, "Late Count"))
    && CellOf(r, "Move-in") == (if dated then Lift(num.toDate, CellOf(src, "Move-in")) else CellOf(src, "Move-in"))
    && CellOf(r, "Tenure_Months") == (if dated then Lift(num.monthsSince, CellOf(r, "Move-in")) else None)
    && CellOf(r, "Late_Payment_Rate") == LatePaymentRate(num, CellOf(r, "Late Count"), CellOf(r, "Tenure_Months"))
  }

  lemma DerivedRows(num: Numerics, t: Table)
    requires t.Valid() && "Late Count" in t.columns
    ensures var r := WithLateRate(num, WithTenure(num, t));
            forall i :: 0 <= i < |r.rows| ==> DerivedRow(num, r.rows[i], t.rows[i], "Move-in" in t.columns)
  {
    var dated := WithTenure(num, t);
    var r := WithLateRate(num, dated);
    forall i | 0 <= i < |r.rows|
      ensures DerivedRow(num, r.rows[i], t.rows[i], "Move-in" in t.columns)
    {
      assert CellOf(r.rows[i], "Move-in") == CellOf(dated.rows[i], "Move-in");
      assert CellOf(r.rows[i], "Tenure_Months") == CellOf(dated.rows[i], "Tenure_Months");
    }
  }

  /** The derived columns leave the merge keys alone: prepared rent-roll row
      `i` has the key of current cleaned rent-roll row `i`. */
  lemma RentRollKeys(num: Numerics, rr: Table)
    requires rr.Valid() && "Late Count" in rr.columns
    ensures forall i :: 0 <= i < |PrepareRentRoll(num, rr).rows| ==>
              KeyOf(PrepareRentRoll(num, rr).rows[i], Keys) == KeyOf(KeepCurrent(Clean(rr)).rows[i], Keys)
  {
    var r := PrepareRentRoll(num, rr);
    var current := KeepCurrent(Clean(rr));
    forall i | 0 <= i < |r.rows|
      ensures KeyOf(r.rows[i], Keys) == KeyOf(current.rows[i], Keys)
    {
      DerivedRowKey(num, r.rows[i], current.rows[i], "Move-in" in rr.columns);
    }
  }

  /** The derived columns are none of the merge keys. */
  lemma DerivedRowKey(num: Numerics, r: Row, src: Row, dated: bool)
    requires DerivedRow(num, r, src, dated)
    ensures KeyOf(r, Keys) == KeyOf(src, Keys)
  {
    forall k | k in Keys
      ensures CellOf(r, k) == CellOf(src, k)
    {
      assert k !in DerivedColumns;
    }
    KeyOfCells(r, src, Keys);
  }

  /** The first merge: tenant directory with rent roll, the directory's
      copy of a shared column keeping the plain name. */
  function InnerSpec(tdColumns: seq<string>, rrColumns: seq<string>): JoinSpec {
    JoinSpec(tdColumns, RentRollColumns(rrColumns), Keys, "", "_rentroll")
  }

  /** The second merge: pandas' default suffixes `_x` and `_y`. */
  function OuterSpec(tdColumns: seq<string>, rrColumns: seq<string>, dqColumns: seq<string>): JoinSpec {
    JoinSpec(InnerSpec(tdColumns, rrColumns).Columns(), WithColumn(dqColumns, "Tenant"), Keys, "_x", "_y")
  }

  /** Every merge key is a column. */
  predicate HasKeys(cols: seq<string>) {
    "Property" in cols && "Unit" in cols && "Tenant" in cols
  }

  /** What the first merge needs of its inputs: the columns read exist
      (pandas raises KeyError otherwise) and the merge produces no duplicate
      column name (pandas raises MergeError, or keeps two columns of one
      name). */
  predicate InnerMergeable(rr: Table, td: Table) {
    && rr.Valid() && td.Valid()
    && "Late Count" in rr.columns
    && HasKeys(td.columns) && HasKeys(rr.columns)
    && NoDup(InnerSpec(td.columns, rr.columns).Columns())
  }

  /** What `merge_datasets` needs of its three inputs, likewise. The
      delinquency report's Tenant column is made from Name, so it need not
      have one of its own. */
  predicate Mergeable(dq: Table, rr: Table, td: Table) {
    && InnerMergeable(rr, td)
    && dq.Valid() && "Name" in dq.columns && "Property" in dq.columns && "Unit" in dq.columns
    && NoDup(OuterSpec(td.columns, rr.columns, dq.columns).Columns())
  }

  lemma KeysIn(cols: seq<string>)
    requires HasKeys(cols)
    ensures forall k :: k in Keys ==> k in cols
  {
  }

  /** The inner merge of the prepared tenant directory and rent roll. */
  function MergeDirectoryAndRentRoll(num: Numerics, rr: Table, td: Table): (m: Table)
    requires InnerMergeable(rr, td)
    ensures m.Valid() && m.columns == InnerSpec(td.columns, rr.columns).Columns()
  {
    KeysIn(td.columns);
    KeysIn(RentRollColumns(rr.columns));
    InnerJoin(InnerSpec(td.columns, rr.columns), PrepareTenantDirectory(td), PrepareRentRoll(num, rr))
  }

  /** The left merge of the delinquency report onto the inner merge. */
  function MergeDelinquency(num: Numerics, dq: Table, rr: Table, td: Table): (j: Table)
    requires Mergeable(dq, rr, td)
    ensures j.Valid() && j.columns == OuterSpec(td.columns, rr.columns, dq.columns).Columns()
  {
    OuterInputsFit(num, dq, rr, td);
    LeftJoin(OuterSpec(td.columns, rr.columns, dq.columns), MergeDirectoryAndRentRoll(num, rr, td), PrepareDelinquency(dq))
  }

  /** The second merge's inputs fit its layout. */
  lemma OuterInputsFit(num: Numerics, dq: Table, rr: Table, td: Table)
    requires Mergeable(dq, rr, td)
    ensures OuterSpec(td.columns, rr.columns, dq.columns).Fits(MergeDirectoryAndRentRoll(num, rr, td), PrepareDelinquency(dq))
  {
    var inner := InnerSpec(td.columns, rr.columns);
    KeysIn(td.columns);
    KeysIn(WithColumn(dq.columns, "Tenant"));
    inner.ColumnsCover();
    forall k | k in Keys
      ensures k in inner.Columns()
    {
      assert !inner.Collides(k);
    }
  }

  /** `merge_datasets`: the merged table restricted to the reported columns. */
  function MergeDatasets(num: Numerics, dq: Table, rr: Table, td: Table): (r: Table)
    requires Mergeable(dq, rr, td)
    ensures r.Valid()
    ensures |r.rows| == |MergeDelinquency(num, dq, rr, td).rows|
    ensures forall c :: c in r.columns <==> c in ColumnsNeeded && c in MergeDelinquency(num, dq, rr, td).columns
    ensures forall i, c :: 0 <= i < |r.rows| && c in r.columns ==> r.rows[i][c] == MergeDelinquency(num, dq, rr, td).rows[i][c]
  {
    NeededDistinct();
    Project(MergeDelinquency(num, dq, rr, td), ColumnsNeeded)
  }

  /** The first merge's inputs fit its layout, and it is the inner join. */
  lemma InnerFits(num: Numerics, rr: Table, td: Table)
    requires InnerMergeable(rr, td)
    ensures InnerSpec(td.columns, rr.columns).Fits(PrepareTenantDirectory(td), PrepareRentRoll(num, rr))
    ensures MergeDirectoryAndRentRoll(num, rr, td)
              == InnerJoin(InnerSpec(td.columns, rr.columns), PrepareTenantDirectory(td), PrepareRentRoll(num, rr))
  {
    KeysIn(td.columns);
    KeysIn(RentRollColumns(rr.columns));
  }

  /** The second merge's inputs fit its layout, and it is the left join. */
  lemma OuterFits(num: Numerics, dq: Table, rr: Table, td: Table)
    requires Mergeable(dq, rr, td)
    ensures OuterSpec(td.columns, rr.columns, dq.columns).Fits(MergeDirectoryAndRentRoll(num, rr, td), PrepareDelinquency(dq))
    ensures MergeDelinquency(num, dq, rr, td)
              == LeftJoin(OuterSpec(td.columns, rr.columns, dq.columns), MergeDirectoryAndRentRoll(num, rr, td), PrepareDelinquency(dq))
    ensures |MergeDatasets(num, dq, rr, td).rows| == |MergeDelinquency(num, dq, rr, td).rows|
  {
    OuterInputsFit(num, dq, rr, td);
  }

  /** Length, first and last character: enough to tell the reported
      columns apart. */
  function Sig(c: string): (int, char, char) {
    if |c| == 0 then (0, ' ', ' ') else (|c|, c[0], c[|c| - 1])
  }

  lemma SigDistinct(s: seq<string>)
    requires forall i, j :: 0 <= i < j < |s| ==> Sig(s[i]) != Sig(s[j])
    ensures NoDup(s)
  {
  }

  /** No reported column is listed twice. */
  lemma NeededDistinct()
    ensures NoDup(ColumnsNeeded)
  {
    var sigs := seq(|ColumnsNeeded|, i requires 0 <= i < |ColumnsNeeded| => Sig(ColumnsNeeded[i]));
    assert sigs == [(6, 'T', 't'), (4, 'U', 't'), (8, 'P', 'y'), (4, 'R', 't'), (11, 'M', 't'), (8, 'P', 'e'),
                    (7, 'D', 't'), (8, 'L', 'o'), (7, 'M', 'n'), (10, 'L', 't'), (13, 'T', 's'), (17, 'L', 'e'),
                    (15, 'D', 't'), (17, 'D', 's'), (4, '0', '0'), (5, '3', '0'), (5, '6', '0'), (3, '9', '+'),
                    (25, 'D', 't')];
    SigDistinct(ColumnsNeeded);
  }

  /** A name whose second-to-last character is not `_` and whose last is
      not `l` ends with none of the merge suffixes. */
  predicate Unsuffixable(c: string) {
    |c| >= 2 && c[|c| - 2] != '_' && c[|c| - 1] != 'l'
  }

  lemma UnsuffixableHasNoSuffix(c: string)
    requires Unsuffixable(c)
    ensures !HasSuffix(c, "_x") && !HasSuffix(c, "_y") && !HasSuffix(c, "_rentroll")
  {
  }

  /** The last two characters of a name, blank when it is shorter. */
  function Ending(c: string): (char, char) {
    if |c| < 2 then (' ', ' ') else (c[|c| - 2], c[|c| - 1])
  }

  /** No suffix of either merge can produce a reported column's name. */
  lemma NeededUnsuffixable()
    ensures forall c :: c in ColumnsNeeded ==> Unsuffixable(c)
  {
    NeededEndings();
    forall c | c in ColumnsNeeded
      ensures Unsuffixable(c)
    {
      var i :| 0 <= i < |ColumnsNeeded| && ColumnsNeeded[i] == c;
    }
  }

  lemma NeededEndings()
    ensures forall i :: 0 <= i < |ColumnsNeeded| ==> Unsuffixable(ColumnsNeeded[i])
  {
    var ends := seq(|ColumnsNeeded|, i requires 0 <= i < |ColumnsNeeded| => Ending(ColumnsNeeded[i]));
    assert ends == [('n', 't'), ('i', 't'), ('t', 'y'), ('n', 't'), ('n', 't'), ('u', 'e'), ('i', 't'),
                    ('T', 'o'), ('i', 'n'), ('n', 't'), ('h', 's'), ('t', 'e'), ('n', 't'), ('e', 's'),
                    ('3', '0'), ('6', '0'), ('9', '0'), ('0', '+'), ('n', 't')];
    forall i | 0 <= i < |ColumnsNeeded|
      ensures Unsuffixable(ColumnsNeeded[i])
    {
      assert ends[i] == Ending(ColumnsNeeded[i]);
    }
  }

  /** The report's columns are the listed columns the merged table has, in
      the list's order, and nothing else. */
  lemma ReportColumns(num: Numerics, dq: Table, rr: Table, td: Table)
    requires Mergeable(dq, rr, td)
    ensures var j := MergeDelinquency(num, dq, rr, td);
            MergeDatasets(num, dq, rr, td).columns == Pick(ColumnsNeeded, KeptIndices(ColumnsNeeded, c => c in j.columns))
  {
    NeededDistinct();
    ProjectOrder(MergeDelinquency(num, dq, rr, td), ColumnsNeeded);
  }

  /** A column is reported exactly when it is listed and the merged table
      has it. */
  lemma ReportColumnSet(num: Numerics, dq: Table, rr: Table, td: Table)
    requires Mergeable(dq, rr, td)
    ensures forall c :: c in MergeDatasets(num, dq, rr, td).columns <==>
              c in ColumnsNeeded && c in OuterSpec(td.columns, rr.columns, dq.columns).Columns()
  {
    NeededDistinct();
  }

  lemma KeysNeeded()
    ensures forall k :: k in Keys ==> k in ColumnsNeeded
  {
    assert ColumnsNeeded[0] == "Tenant" && ColumnsNeeded[1] == "Unit" && ColumnsNeeded[2] == "Property";
  }

  /** The merge keys are always reported. */
  lemma KeysReported(num: Numerics, dq: Table, rr: Table, td: Table)
    requires Mergeable(dq, rr, td)
    ensures forall k :: k in Keys ==> k in MergeDatasets(num, dq, rr, td).columns
  {
    ReportColumnSet(num, dq, rr, td);
    var inner := InnerSpec(td.columns, rr.columns);
    var outer := OuterSpec(td.columns, rr.columns, dq.columns);
    inner.ColumnsCover();
    outer.ColumnsCover();
    KeysNeeded();
    forall k | k in Keys
      ensures k in ColumnsNeeded && k in outer.Columns()
    {
      assert inner.LeftName(k) == k;
      assert outer.LeftName(k) == k;
    }
  }

  /** A listed non-key column that no merge suffix can produce (every listed
      column is one) is reported exactly when ONE side of the second merge
      has it: the tenant directory or the rent roll on one side, the
      delinquency report on the other. A column both sides carry is split
      into `_x` and `_y` copies, and neither copy is reported. */
  lemma ReportedColumnIff(num: Numerics, dq: Table, rr: Table, td: Table, c: string)
    requires Mergeable(dq, rr, td)
    requires c !in Keys && Unsuffixable(c)
    ensures c in MergeDatasets(num, dq, rr, td).columns <==>
              c in ColumnsNeeded && (c in td.columns || c in RentRollColumns(rr.columns)) != (c in dq.columns)
  {
    ReportColumnSet(num, dq, rr, td);
    UnsuffixableHasNoSuffix(c);
    InnerSpec(td.columns, rr.columns).PlainColumnEitherSide(c);
    OuterSpec(td.columns, rr.columns, dq.columns).PlainColumnOneSide(c);
  }

  /** The derived rent-roll columns are reported exactly when the delinquency
      report has no column of the same name. */
  lemma DerivedColumnsReported(num: Numerics, dq: Table, rr: Table, td: Table)
    requires Mergeable(dq, rr, td)
    ensures "Tenure_Months" in MergeDatasets(num, dq, rr, td).columns <==> "Tenure_Months" !in dq.columns
    ensures "Late_Payment_Rate" in MergeDatasets(num, dq, rr, td).columns <==> "Late_Payment_Rate" !in dq.columns
    ensures "Late Count" in MergeDatasets(num, dq, rr, td).columns <==> "Late Count" !in dq.columns
  {
    DerivedNeeded(rr.columns);
    NeededUnsuffixable();
    ReportedColumnIff(num, dq, rr, td, "Tenure_Months");
    ReportedColumnIff(num, dq, rr, td, "Late_Payment_Rate");
    ReportedColumnIff(num, dq, rr, td, "Late Count");
  }

  lemma DerivedNeeded(rrColumns: seq<string>)
    requires "Late Count" in rrColumns
    ensures forall c :: c in ["Tenure_Months", "Late_Payment_Rate", "Late Count"] ==>
              c in ColumnsNeeded && c !in Keys && c in RentRollColumns(rrColumns)
  {
    assert ColumnsNeeded[9] == "Late Count";
    assert ColumnsNeeded[10] == "Tenure_Months";
    assert ColumnsNeeded[11] == "Late_Payment_Rate";
  }

  /** The prepared tenant-directory row and rent-roll row that row `u` of
      the first merge joins. */
  function MergedOrigin(num: Numerics, rr: Table, td: Table, u: nat): (p: (nat, nat))
    requires InnerMergeable(rr, td)
    requires u < |MergeDirectoryAndRentRoll(num, rr, td).rows|
    ensures p.0 < |PrepareTenantDirectory(td).rows| && p.1 < |PrepareRentRoll(num, rr).rows|
    ensures KeyOf(PrepareTenantDirectory(td).rows[p.0], Keys) == KeyOf(PrepareRentRoll(num, rr).rows[p.1], Keys)
  {
    InnerOrigin(InnerSpec(td.columns, rr.columns), PrepareTenantDirectory(td), PrepareRentRoll(num, rr), u)
  }

  /** Every row of the first merge joins a prepared tenant-directory row and
      a prepared rent-roll row with the same (Property, Unit, Tenant). It
      holds every directory cell under the directory's column name, and
      every non-key rent-roll cell under the rent roll's column name, or
      under that name plus `_rentroll` when the directory has the column
      too. */
  lemma MergedRowOrigin(num: Numerics, rr: Table, td: Table, u: nat)
    requires InnerMergeable(rr, td)
    requires u < |MergeDirectoryAndRentRoll(num, rr, td).rows|
    ensures var p := MergedOrigin(num, rr, td, u);
            var d := PrepareTenantDirectory(td).rows[p.0];
            var e := PrepareRentRoll(num, rr).rows[p.1];
            var row := MergeDirectoryAndRentRoll(num, rr, td).rows[u];
            && KeyOf(row, Keys) == KeyOf(d, Keys)
            && (forall c :: c in td.columns ==> CellOf(row, c) == CellOf(d, c))
            && (forall c :: c in RentRollColumns(rr.columns) && c !in Keys ==>
                  CellOf(row, if c in td.columns then c + "_rentroll" else c) == CellOf(e, c))
  {
    InnerFits(num, rr, td);
    InnerJoinRowCellsPlainLeft(InnerSpec(td.columns, rr.columns), PrepareTenantDirectory(td), PrepareRentRoll(num, rr), u);
  }

  /** The row of the first merge and the optional delinquency row that row
      `t` of the report joins. */
  function ReportOrigin(num: Numerics, dq: Table, rr: Table, td: Table, t: nat): (q: (nat, Option<nat>))
    requires Mergeable(dq, rr, td)
    requires t < |MergeDatasets(num, dq, rr, td).rows|
    ensures q.0 < |MergeDirectoryAndRentRoll(num, rr, td).rows|
    ensures q.1.Some? ==> q.1.value < |PrepareDelinquency(dq).rows|
    ensures q.1.Some? ==> KeyOf(MergeDirectoryAndRentRoll(num, rr, td).rows[q.0], Keys) == KeyOf(PrepareDelinquency(dq).rows[q.1.value], Keys)
    ensures q.1.None? ==> forall m :: 0 <= m < |PrepareDelinquency(dq).rows| ==>
              KeyOf(MergeDirectoryAndRentRoll(num, rr, td).rows[q.0], Keys) != KeyOf(PrepareDelinquency(dq).rows[m], Keys)
  {
    KeysIn(td.columns);
    KeysIn(WithColumn(dq.columns, "Tenant"));
    OuterSpec(td.columns, rr.columns, dq.columns).ColumnsCover();
    LeftOrigin(OuterSpec(td.columns, rr.columns, dq.columns), MergeDirectoryAndRentRoll(num, rr, td), PrepareDelinquency(dq), t)
  }

  /** A reported cell is the merged table's cell. */
  lemma ReportCell(num: Numerics, dq: Table, rr: Table, td: Table, t: nat, c: string)
    requires Mergeable(dq, rr, td)
    requires t < |MergeDatasets(num, dq, rr, td).rows|
    requires c in MergeDatasets(num, dq, rr, td).columns
    ensures CellOf(MergeDatasets(num, dq, rr, td).rows[t], c) == CellOf(MergeDelinquency(num, dq, rr, td).rows[t], c)
  {
  }

  /** Row `t` of the merged table, before the projection, carries the keys
      and cells of the first-merge row and delinquency row it joins. */
  lemma JoinedRowCells(num: Numerics, dq: Table, rr: Table, td: Table, t: nat)
    requires Mergeable(dq, rr, td)
    requires t < |MergeDatasets(num, dq, rr, td).rows|
    ensures var q := ReportOrigin(num, dq, rr, td, t);
            var spec := OuterSpec(td.columns, rr.columns, dq.columns);
            var row := MergeDelinquency(num, dq, rr, td).rows[t];
            var m := MergeDirectoryAndRentRoll(num, rr, td).rows[q.0];
            && KeyOf(row, Keys) == KeyOf(m, Keys)
            && (forall c :: c in spec.left ==> CellOf(row, spec.LeftName(c)) == CellOf(m, c))
            && (forall c :: c in spec.right && c !in Keys ==>
                  CellOf(row, spec.RightName(c)) == (if q.1.Some? then CellOf(PrepareDelinquency(dq).rows[q.1.value], c) else None))
  {
    OuterFits(num, dq, rr, td);
    LeftJoinRowCells(OuterSpec(td.columns, rr.columns, dq.columns), MergeDirectoryAndRentRoll(num, rr, td), PrepareDelinquency(dq), t);
  }

  /** Every report row carries the (Property, Unit, Tenant) of a prepared
      tenant-directory row and of a prepared rent-roll row, and of the
      delinquency row it was joined with; when it was joined with none, no
      delinquency row has that key. */
  lemma ReportRowKey(num: Numerics, dq: Table, rr: Table, td: Table, t: nat)
    requires Mergeable(dq, rr, td)
    requires t < |MergeDatasets(num, dq, rr, td).rows|
    ensures var q := ReportOrigin(num, dq, rr, td, t);
            var p := MergedOrigin(num, rr, td, q.0);
            var key := KeyOf(MergeDatasets(num, dq, rr, td).rows[t], Keys);
            && key == KeyOf(PrepareTenantDirectory(td).rows[p.0], Keys)
            && key == KeyOf(PrepareRentRoll(num, rr).rows[p.1], Keys)
            && (q.1.Some? ==> key == KeyOf(PrepareDelinquency(dq).rows[q.1.value], Keys))
            && (q.1.None? ==> forall m :: 0 <= m < |PrepareDelinquency(dq).rows| ==> key != KeyOf(PrepareDelinquency(dq).rows[m], Keys))
  {
    var out := MergeDatasets(num, dq, rr, td).rows[t];
    var row := MergeDelinquency(num, dq, rr, td).rows[t];
    KeysReported(num, dq, rr, td);
    forall k | k in Keys
      ensures CellOf(out, k) == CellOf(row, k)
    {
      ReportCell(num, dq, rr, td, t, k);
    }
    KeyOfCells(out, row, Keys);
    JoinedRowCells(num, dq, rr, td, t);
    MergedRowOrigin(num, rr, td, ReportOrigin(num, dq, rr, td, t).0);
  }

  /** A reported column of the tenant directory holds the directory's cell:
      on a clash with the rent roll the directory's value is the one
      reported. */
  lemma ReportDirectoryCell(num: Numerics, dq: Table, rr: Table, td: Table, t: nat, c: string)
    requires Mergeable(dq, rr, td)
    requires t < |MergeDatasets(num, dq, rr, td).rows|
    requires c in MergeDatasets(num, dq, rr, td).columns && c in td.columns
    ensures var p := MergedOrigin(num, rr, td, ReportOrigin(num, dq, rr, td, t).0);
            CellOf(MergeDatasets(num, dq, rr, td).rows[t], c) == CellOf(PrepareTenantDirectory(td).rows[p.0], c)
  {
    DirectoryColumnPlain(num, dq, rr, td, c);
    ReportCell(num, dq, rr, td, t, c);
    JoinedRowCells(num, dq, rr, td, t);
    MergedRowOrigin(num, rr, td, ReportOrigin(num, dq, rr, td, t).0);
  }

  /** A reported directory column keeps its plain name through both merges. */
  lemma DirectoryColumnPlain(num: Numerics, dq: Table, rr: Table, td: Table, c: string)
    requires Mergeable(dq, rr, td)
    requires c in MergeDatasets(num, dq, rr, td).columns && c in td.columns
    ensures c in OuterSpec(td.columns, rr.columns, dq.columns).left
    ensures OuterSpec(td.columns, rr.columns, dq.columns).LeftName(c) == c
  {
    if c !in Keys {
      ReportColumnSet(num, dq, rr, td);
      NeededUnsuffixable();
      ReportedColumnIff(num, dq, rr, td, c);
    }
    DirectoryColumnKept(td.columns, rr.columns, dq.columns, c);
  }

  /** A directory column that is a key, or that the delinquency report
      lacks, passes both merges under its own name. */
  lemma DirectoryColumnKept(tdColumns: seq<string>, rrColumns: seq<string>, dqColumns: seq<string>, c: string)
    requires c in tdColumns && (c in Keys || c !in dqColumns)
    ensures c in OuterSpec(tdColumns, rrColumns, dqColumns).left
    ensures OuterSpec(tdColumns, rrColumns, dqColumns).LeftName(c) == c
  {
    var inner := InnerSpec(tdColumns, rrColumns);
    var outer := OuterSpec(tdColumns, rrColumns, dqColumns);
    assert c !in Keys ==> c !in outer.right;
    inner.ColumnsCover();
    assert inner.LeftName(c) == c + "" == c;
  }

  /** A reported rent-roll column the tenant directory lacks holds the rent
      roll's cell. */
  lemma ReportRentRollCell(num: Numerics, dq: Table, rr: Table, td: Table, t: nat, c: string)
    requires Mergeable(dq, rr, td)
    requires t < |MergeDatasets(num, dq, rr, td).rows|
    requires c in MergeDatasets(num, dq, rr, td).columns && c in RentRollColumns(rr.columns) && c !in td.columns
    ensures var p := MergedOrigin(num, rr, td, ReportOrigin(num, dq, rr, td, t).0);
            CellOf(MergeDatasets(num, dq, rr, td).rows[t], c) == CellOf(PrepareRentRoll(num, rr).rows[p.1], c)
  {
    var inner := InnerSpec(td.columns, rr.columns);
    var outer := OuterSpec(td.columns, rr.columns, dq.columns);
    KeysIn(td.columns);
    ReportCell(num, dq, rr, td, t, c);
    ReportColumnSet(num, dq, rr, td);
    NeededUnsuffixable();
    ReportedColumnIff(num, dq, rr, td, c);
    assert !outer.Collides(c);
    inner.ColumnsLayout();
    inner.ColumnsCover();
    assert inner.RightName(c) == c;
    JoinedRowCells(num, dq, rr, td, t);
    MergedRowOrigin(num, rr, td, ReportOrigin(num, dq, rr, td, t).0);
  }

  /** A reported delinquency column holds the cell of the delinquency row
      the report row was joined with, and is missing (not zero) when there
      was none. */
  lemma ReportDelinquencyCell(num: Numerics, dq: Table, rr: Table, td: Table, t: nat, c: string)
    requires Mergeable(dq, rr, td)
    requires t < |MergeDatasets(num, dq, rr, td).rows|
    requires c in MergeDatasets(num, dq, rr, td).columns && c in dq.columns && c !in Keys
    ensures var q := ReportOrigin(num, dq, rr, td, t);
            CellOf(MergeDatasets(num, dq, rr, td).rows[t], c) ==
              (if q.1.Some? then CellOf(PrepareDelinquency(dq).rows[q.1.value], c) else None)
  {
    var inner := InnerSpec(td.columns, rr.columns);
    var outer := OuterSpec(td.columns, rr.columns, dq.columns);
    ReportCell(num, dq, rr, td, t, c);
    ReportColumnSet(num, dq, rr, td);
    NeededUnsuffixable();
    ReportedColumnIff(num, dq, rr, td, c);
    UnsuffixableHasNoSuffix(c);
    inner.PlainColumnEitherSide(c);
    assert !outer.Collides(c);
    assert outer.RightName(c) == c;
    JoinedRowCells(num, dq, rr, td, t);
  }

  /** Tenure_Months, when reported, is the tenant directory's value if the
      directory has that column, and the one derived from the rent roll
      otherwise. */
  lemma ReportTenure(num: Numerics, dq: Table, rr: Table, td: Table, t: nat)
    requires Mergeable(dq, rr, td)
    requires t < |MergeDatasets(num, dq, rr, td).rows|
    requires "Tenure_Months" in MergeDatasets(num, dq, rr, td).columns
    ensures var p := MergedOrigin(num, rr, td, ReportOrigin(num, dq, rr, td, t).0);
            CellOf(MergeDatasets(num, dq, rr, td).rows[t], "Tenure_Months") ==
              if "Tenure_Months" in td.columns then CellOf(PrepareTenantDirectory(td).rows[p.0], "Tenure_Months")
              else CellOf(PrepareRentRoll(num, rr).rows[p.1], "Tenure_Months")
  {
    if "Tenure_Months" in td.columns {
      ReportDirectoryCell(num, dq, rr, td, t, "Tenure_Months");
    } else {
      ReportRentRollCell(num, dq, rr, td, t, "Tenure_Months");
    }
  }

  /** The delinquency merge never drops a row of the first merge. */
  lemma ReportKeepsMergedRow(num: Numerics, dq: Table, rr: Table, td: Table, u: nat)
    requires Mergeable(dq, rr, td)
    requires u < |MergeDirectoryAndRentRoll(num, rr, td).rows|
    ensures |MergeDatasets(num, dq, rr, td).rows| >= |MergeDirectoryAndRentRoll(num, rr, td).rows|
    ensures exists t :: 0 <= t < |MergeDatasets(num, dq, rr, td).rows| && ReportOrigin(num, dq, rr, td, t).0 == u
  {
    var spec := OuterSpec(td.columns, rr.columns, dq.columns);
    var m := MergeDirectoryAndRentRoll(num, rr, td);
    var d := PrepareDelinquency(dq);
    var j := MergeDelinquency(num, dq, rr, td);
    OuterFits(num, dq, rr, td);
    if k :| 0 <= k < |d.rows| && KeyOf(m.rows[u], Keys) == KeyOf(d.rows[k], Keys) {
      LeftJoinKeepsMatched(spec, m, d, u, k);
    } else {
      LeftJoinKeepsUnmatched(spec, m, d, u);
    }
    var t :| 0 <= t < |j.rows| && LeftOrigin(spec, m, d, t).0 == u;
    assert ReportOrigin(num, dq, rr, td, t) == LeftOrigin(spec, m, d, t);
  }

  /** Every pair of a prepared tenant-directory row and a prepared rent-roll
      row with the same (Property, Unit, Tenant) reaches the report. */
  lemma ReportComplete(num: Numerics, dq: Table, rr: Table, td: Table, i: nat, j: nat)
    requires Mergeable(dq, rr, td)
    requires i < |PrepareTenantDirectory(td).rows| && j < |PrepareRentRoll(num, rr).rows|
    requires KeyOf(PrepareTenantDirectory(td).rows[i], Keys) == KeyOf(PrepareRentRoll(num, rr).rows[j], Keys)
    ensures exists t :: 0 <= t < |MergeDatasets(num, dq, rr, td).rows|
                        && MergedOrigin(num, rr, td, ReportOrigin(num, dq, rr, td, t).0) == (i, j)
  {
    var spec := InnerSpec(td.columns, rr.columns);
    var d := PrepareTenantDirectory(td);
    var e := PrepareRentRoll(num, rr);
    InnerFits(num, rr, td);
    InnerJoinComplete(spec, d, e, i, j);
    var u :| 0 <= u < |InnerJoin(spec, d, e).rows| && InnerOrigin(spec, d, e, u) == (i, j);
    assert MergedOrigin(num, rr, td, u) == (i, j);
    ReportKeepsMergedRow(num, dq, rr, td, u);
    var t :| 0 <= t < |MergeDatasets(num, dq, rr, td).rows| && ReportOrigin(num, dq, rr, td, t).0 == u;
  }

  /** When no two delinquency rows share a key, the report has exactly one
      row per row of the first merge, in the same order. */
  lemma ReportUniqueDelinquency(num: Numerics, dq: Table, rr: Table, td: Table)
    requires Mergeable(dq, rr, td)
    requires UniqueKeys(KeysOf(PrepareDelinquency(dq).rows, Keys))
    ensures |MergeDatasets(num, dq, rr, td).rows| == |MergeDirectoryAndRentRoll(num, rr, td).rows|
    ensures forall t :: 0 <= t < |MergeDatasets(num, dq, rr, td).rows| ==> ReportOrigin(num, dq, rr, td, t).0 == t
  {
    OuterFits(num, dq, rr, td);
    LeftJoinUnique(OuterSpec(td.columns, rr.columns, dq.columns), MergeDirectoryAndRentRoll(num, rr, td), PrepareDelinquency(dq));
  }
}
