# Havyn.ai tenant-data reconciliation, modelled in Dafny

Havyn.ai is a small Flask application (`app.py`). It takes three CSV exports from a property-management system: a delinquency report, a rent roll and a tenant directory. It reconciles them into one table of current tenancies, and then sends a small random sample of delinquent tenants to an insight service. The insights that come back are kept in an append-only SQLite log, and the newest 50 are shown on request.

This project models the pure part of that pipeline as immutable datatypes and functions, and proves what the code promises about it:

- `text.dfy`, `seqs.dfy`, `wrappers.dfy`: string, sequence and `Option`/`Result` helpers.
  - Python's `strip` and `replace(",", "")`, and an ASCII `lower`, which is enough to compare an extension with "csv".
  - An order-preserving filter and its index form.
  - Flattening of nested sequences.
- `upload.dfy` (`Upload`): `allowed_file`, the `.csv` upload filter.
- `names.dfy` (`Names`): `convert_name`, which rewrites "Last, First" as "First Last".
- `tables.dfy` (`Tables`):
  - A table is an ordered list of distinct column names plus rows.
  - A row maps every column to a cell that is missing (NaN) or holds text.
  - Operations: `clean_data` (`dropna(how="all")`), the `Status == "Current"` restriction, column assignment and the final column projection.
- `joins.dfy` (`Joins`): pandas `merge(on=..., how="inner" | "left", suffixes=...)`.
  - Output column layout and suffix renaming on name clashes.
  - Which row pairs are joined, and in what order.
  - Which cells every output row carries.
- `merge.dfy` (`Merge`): `merge_datasets`.
  - Each table is cleaned and has its names converted; the directory and rent roll keep only current tenancies.
  - The rent roll gets its derived columns.
  - Inner merge of tenant directory and rent roll on (Property, Unit, Tenant), with suffixes `""` / `"_rentroll"`.
  - Left merge of the delinquency report, with pandas' default suffixes `_x` / `_y`.
  - Projection onto the fixed `columns_needed` list.
- `sampling.dfy` (`Sampling`): `random.sample` as the set of its valid outcomes. A draw without replacement is steered by an arbitrary stream of choices, not by a generator.
- `insights.dfy` (`Insights`): the selection half of `generate_insights`.
  - `safe_float`.
  - The delinquent predicate.
  - The two 400 errors.
  - The sample of `min(n, 5)` delinquent records.
- `store.dfy` (`InsightStore`): `save_insights_to_db` and the `/insights-history` query, over an in-memory log with an AUTOINCREMENT counter.

Two behaviours of the code are easy to miss, and the model states both:

- **Multi-comma names.** `convert_name` splits at the first comma only. "Doe, Jane, Jr" therefore becomes "Jane, Jr Doe", not "Jane Doe, Jr", and converting that again changes it once more.
- **Columns on both sides of the second merge.** Both suffixes of the second merge are non-empty. A non-key column that both the first-merge result and the delinquency report carry comes out only as `<col>_x` and `<col>_y`, and neither name is in `columns_needed`. Such a column (for example `Late Count`, or `Tenure_Months` when the delinquency export has one) is silently absent from the report.

Two further points follow the code as written:

- A three-part name comes out as "First, Suffix Last".
- When the tenant directory already has a `Tenure_Months` column, the reported value is the directory's. The freshly derived rent-roll value is kept only as `Tenure_Months_rentroll`, which is not reported.

Join row order is modelled as pandas documents it for `sort=False`: left row by left row, each with its partners in right-table order. Missing key cells match each other, as NaN keys do in pandas.

## Model

| member | source | states |
|---|---|---|
| Upload.AllowedFile | app.py:45-46 | A filename is allowed when it contains a dot and the text after its last dot, lower-cased, is "csv" |
| Upload.AllowedFileIff | app.py:45-46 | A filename is accepted exactly when it ends in a dot followed by the letters c, s, v, each in either case; a name without a dot, or with a different final extension, is refused |
| Upload.AllowedFileAccepts | app.py:45-46 | "a.CSV" and "rent.roll.csv" are accepted |
| Upload.AllowedFileRefuses | app.py:45-46 | "a.csv.txt", "csv" and "a.csvx" are refused |
| Tables.Clean | app.py:48-49 | The cleaned table has the same columns, every kept row has a present cell and comes from the input, and every input row with a present cell is kept |
| Tables.CleanKeepsOrder | app.py:48-49 | Cleaning reads the input at the ascending positions of exactly the rows with a present cell, so relative order is preserved |
| Insights.SafeFloat | app.py:51-55 | A missing value reads as 0.0. A value whose text, with commas removed and surrounding whitespace stripped, parses as a number reads as that number; text that does not parse reads as 0.0 |
| Insights.SafeFloatExample | app.py:51-55 | " 1,234.50 " reads as the number `float` gives for "1234.50" |
| Insights.SafeFloatIgnoresCommas | app.py:51-55 | Inserting a thousands separator into a value does not change the number read from it |
| Insights.IsDelinquent | app.py:172-175 | A record is delinquent when its Past Due or its Delinquent Rent reads as a positive number, an absent field reading as 0 |
| Insights.MissingAmountsNotDelinquent | app.py:172-175 | A record whose Past Due and Delinquent Rent are absent or null is not delinquent |
| Names.ConvertName | app.py:57-62 | A missing name stays missing; a comma-free name is unchanged; otherwise the name splits at its first comma into last and first, and the result is stripped first, a space, stripped last |
| Names.ConvertNameConsumesOneComma | app.py:59-61 | Converting a name with a comma removes exactly one comma |
| Names.ConvertNameIdempotentIff | app.py:57-62 | Converting twice equals converting once exactly when the name has at most one comma |
| Names.SingleCommaComesOutCommaFree | app.py:59-61 | A name with exactly one comma comes out comma-free |
| Names.ConvertLastFirst | app.py:59-61 | "Last, First" of trimmed words becomes "First Last" |
| Names.ConvertSuffixedName | app.py:59-61 | "Last, First, Suffix" becomes "First, Suffix Last": multi-comma names are not normalised |
| Names.ConvertSuffixedNameAgain | app.py:59-61 | Converting "First, Suffix Last" again yields "Suffix Last First" |
| Tables.KeepCurrent | app.py:83-86 | Without a Status column the table is unchanged; with one, exactly the rows whose Status is "Current" are kept |
| Tables.KeepCurrentOrder | app.py:83-86 | With a Status column, the kept rows are the current rows at their ascending positions |
| Tables.SetColumn | app.py:80-81 | Assigning a column sets that cell of every row, leaves every other cell alone, and appends the column only when it is new |
| Tables.Project | app.py:114 | The projected table keeps exactly the wanted columns that exist, with the same rows and cells |
| Tables.ProjectOrder | app.py:114 | The projected columns appear in the order of the wanted list |
| Merge.PrepareTenantDirectory | app.py:76-84 | The prepared directory keeps its columns. Without a Status column it has one row per cleaned row, in order; with one, one row per current cleaned row, at their ascending positions, and every remaining row is current. Each row is its cleaned row with the Tenant name converted and every other cell unchanged |
| Merge.PrepareDelinquency | app.py:76-81 | The prepared delinquency report has one row per cleaned row, in order, with no Status filter. Each row gains a Tenant column holding the converted Name, and every other cell is the cleaned row's |
| Merge.LatePaymentRate | app.py:96-98 | The late payment rate is never missing, and is zero when the late count or tenure is missing |
| Merge.WithTenure | app.py:88-93 | With a Move-in column, Move-in is replaced by its parsed date and Tenure_Months is the months since that date; without one, Tenure_Months is missing everywhere; other columns are untouched |
| Merge.WithLateRate | app.py:95-98 | Late Count becomes numeric, Late_Payment_Rate is the rate from the converted count and tenure, and other columns are untouched |
| Merge.PrepareRentRoll | app.py:77-98 | The prepared rent roll has one row per current cleaned row, in order. Row i is current cleaned row i with Late Count read as a number, Move-in as a date, Tenure_Months the months since that date (missing without a Move-in column), a Late_Payment_Rate that is never missing, and every other cell unchanged |
| Merge.RentRollColumnsAdded | app.py:88-98 | The rent roll's columns after the derivations are those of setting Tenure_Months and then Late_Payment_Rate: each is appended at the end unless the rent roll already has it, in which case it keeps its place |
| Merge.RentRollKeys | app.py:88-98 | Deriving columns never changes a rent-roll row's (Property, Unit, Tenant) |
| Merge.MergeDirectoryAndRentRoll | app.py:100-105 | The first merge has the prepared directory's columns under their own names, then the rent roll's non-key columns, suffixed `_rentroll` on a clash |
| Merge.MergeDelinquency | app.py:107-111 | The second merge has the first merge's columns and the prepared delinquency report's non-key columns, with `_x` / `_y` on a clash |
| Merge.MergeDatasets | app.py:64-118 | The report has one row per second-merge row, in order; a column is reported exactly when it is listed and the second merge has it, and each reported cell is the second merge's cell |
| Merge.NeededDistinct | app.py:65-70 | The reported column list has no duplicate |
| Merge.NeededUnsuffixable | app.py:65-70 | No reported column name ends in `_x`, `_y` or `_rentroll`, so no suffixed copy is ever reported |
| Merge.ReportColumns | app.py:114 | The report's columns are the listed columns the merged table has, in the list's order |
| Merge.ReportColumnSet | app.py:114 | A column is reported exactly when it is listed and the merged table has it |
| Merge.KeysReported | app.py:107-114 | Property, Unit and Tenant are always reported |
| Merge.ReportedColumnIff | app.py:107-114 | A non-key column name that no merge suffix can produce (every listed column is one) is reported exactly when it is listed and one side of the second merge has it, but not both |
| Merge.DerivedColumnsReported | app.py:91-114 | Tenure_Months, Late_Payment_Rate and Late Count are reported exactly when the delinquency report lacks a column of that name |
| Merge.MergedRowOrigin | app.py:100-105 | Every first-merge row joins a prepared directory row and a prepared rent-roll row with the same key, carries every directory cell under its own name, and carries every non-key rent-roll cell under its own name or under `<col>_rentroll` when the directory has the column too |
| Merge.ReportRowKey | app.py:100-111 | Every report row's key is that of a prepared directory row, a prepared rent-roll row, and its delinquency partner; when it has no partner, no delinquency row has that key |
| Merge.DirectoryColumnKept | app.py:100-111 | A directory column that is a merge key, or that the delinquency report lacks, passes both merges under its own name |
| Merge.ReportDirectoryCell | app.py:100-105 | A reported directory column holds the directory's cell, which wins a clash with the rent roll |
| Merge.ReportRentRollCell | app.py:100-105 | A reported rent-roll column that the directory lacks holds the rent roll's cell |
| Merge.ReportDelinquencyCell | app.py:107-111 | A reported delinquency column holds the partner row's cell, or is missing (not zero) when there is no partner |
| Merge.ReportTenure | app.py:88-105 | Reported Tenure_Months is the directory's value when the directory has that column, and the derived rent-roll value otherwise |
| Merge.ReportKeepsMergedRow | app.py:107-111 | The delinquency merge never drops a row of the first merge |
| Merge.ReportComplete | app.py:100-111 | Every pair of a directory row and a rent-roll row with equal keys reaches the report |
| Merge.ReportUniqueDelinquency | app.py:107-111 | With unique delinquency keys, the report has exactly one row per first-merge row, in the same order |
| Joins.JoinSpec.ColumnsCover | app.py:100-111 | Every left column and every non-key right column appears in the merged layout under its merged name |
| Joins.JoinSpec.PlainColumnOneSide | app.py:107-111 | With two suffixes, a non-key name no suffix can produce is a merged column exactly when one side alone has it |
| Joins.JoinSpec.PlainColumnEitherSide | app.py:100-105 | With an empty left suffix, a non-key name the right suffix cannot produce is a merged column exactly when either side has it |
| Joins.InnerPairsExact | app.py:100-105 | The inner merge joins a left and a right row exactly when their keys are equal |
| Joins.InnerPairsOrdered | app.py:100-105 | Inner-merge rows are ordered by left row, then by right row, each pair once |
| Joins.InnerJoinRowCells | app.py:100-105 | An inner-merge row carries its pair's key, every left cell under its left name and every non-key right cell under its right name |
| Joins.InnerJoin | app.py:100-105 | The inner merge has the merged column layout and one row per joined pair |
| Joins.InnerJoinComplete | app.py:100-105 | Every left and right row with equal keys meet in some output row |
| Joins.LeftPairsMatched | app.py:107-111 | The left merge joins a left row with a right row exactly when their keys are equal |
| Joins.LeftPairsUnmatched | app.py:107-111 | A left row appears on its own exactly when no right row has its key |
| Joins.LeftPairsOrdered | app.py:107-111 | Left-merge rows are ordered by left row, then by right row, so no pair occurs twice and a left row's partners follow the right table's order |
| Joins.LeftPairsUnique | app.py:107-111 | With unique right keys, the left merge has exactly one pair per left row, in order: the row with its partner, or alone |
| Joins.LeftJoin | app.py:107-111 | The left merge has the merged column layout and one row per left-merge pair, which is at least as many rows as its left table |
| Joins.LeftJoinRowCells | app.py:107-111 | A left-merge row carries its left row's key and cells, and its partner's non-key cells, or missing cells when it has no partner |
| Joins.LeftJoinKeepsUnmatched | app.py:107-111 | A left row with no partner appears on its own |
| Joins.LeftJoinKeepsMatched | app.py:107-111 | A left row and a right row with equal keys meet in the left merge |
| Joins.LeftJoinUnique | app.py:107-111 | With unique right keys, the left merge has one row per left row, in order, joined with that row's unique partner if there is one |
| Sampling.Draw | app.py:183 | A draw of k choices yields k elements of the pool, with no duplicates when the pool has none |
| Sampling.DrawReaches | app.py:183 | Every duplicate-free selection from a duplicate-free pool is the outcome of some sequence of choices |
| Sampling.SampleIndices | app.py:183 | A sample of k positions below n has k distinct positions, all below n |
| Sampling.SampleIndicesComplete | app.py:183 | Every choice of distinct positions below n is a possible sample |
| Insights.Delinquents | app.py:172-175 | The delinquent list is the posted list read at the ascending positions of its delinquent records: exactly the delinquent records, in posted order, each occurrence once |
| Insights.NoneDelinquent | app.py:172-180 | The delinquent list is empty exactly when no posted record is delinquent |
| Insights.Message | app.py:168-181 | The two rejections are reported as "Invalid input" and "No delinquent tenants found." |
| Insights.SelectSample | app.py:166-183 | "Invalid input" exactly when the body is not a non-empty list; "No delinquent tenants found." exactly when no record is delinquent; otherwise a sample of min(n, 5) records, all of them delinquent posted records |
| Insights.SelectionIsSample | app.py:172-183 | For a list with at least one delinquent record, the selection succeeds and picks delinquent records at distinct positions, none chosen twice |
| Insights.EverySampleSelectable | app.py:183 | Every choice of min(n, 5) distinct delinquent records is a possible selection |
| InsightStore.Save | app.py:120-131 | Saving appends one row per entry, in order, and keeps the earlier rows. Each new row gets a fresh id above every earlier one, its tenant_name and property copied from the entry or null, and the entry itself |
| InsightStore.SaveKeepsRows | app.py:120-131 | Saving never rewrites or reorders a stored row |
| InsightStore.NewestRowsDescending | app.py:210 | The returned rows come in strictly descending id order |
| InsightStore.NewestRowsTop | app.py:210 | Every returned row is stored, and every stored row the query omits is older than every row it returns |
| InsightStore.Render | app.py:211 | A history record has the stored entry's keys plus tenant_name and property; the entry's own values win, and tenant_name and property come from their columns only when the entry lacks them |
| InsightStore.SavedEntryReadsBack | app.py:128-130 | A saved entry reads back as itself, with tenant_name and property filled in as null when it lacks them |
| InsightStore.SaveThenHistory | app.py:207-212 | After saving at most 50 entries, history starts with exactly those entries, newest first |

## Left out

- Flask routing, request parsing, `render_template`, `send_file`, the `/merge` route and its file checks, upload saving and `secure_filename` are HTTP and file I/O.
- `pd.read_csv`, `to_csv`, `to_json`, and the `head(5).to_html` preview are library I/O. Tables are abstract values here.
- SQLite connections, `CREATE TABLE` and the row timestamp from `datetime.now()` are persistence I/O. The store is an in-memory log and the timestamp is not modelled.
- The `requests.post` call to the insight service, `raise_for_status`, the `["body"]` extraction and the 500 error path are a network call to an opaque service. Only the records that would be sent are modelled.
- `random.sample`'s generator is not modelled. The model gives the set of its possible outcomes instead, together with completeness lemmas.
- `print` logging is not modelled.
- Lower-casing covers only A-Z, while Python's `str.lower` also lowers other letters ("É" becomes "é"). `allowed_file` reaches the same decision either way, because no character other than C, S and V lowers to c, s or v.
- `request.get_json` is not modelled. Flask rejects a malformed JSON body with 400 and a non-JSON content type with 415 inside that call, before the `Invalid input` check runs. The model starts from the parsed value.
- Cells are compared as text. `pd.read_csv` infers column types, so in pandas "01" and "1" in an integer column both read as 1 and do join. Merging an integer key column with a text key column raises ValueError in pandas. Neither is modelled.
- Insights.SafeFloat: the float grammar of Python's `float` (including NaN and infinities) is a parameter, `parse`. A missing or null value reads as 0.0 directly.
- Merge.LatePaymentRate: float division is a parameter (`divide`), and the text of zero is the parameter `zero`.
- Merge.WithTenure: date parsing, `Timedelta` division and rounding are the parameters `toDate` and `monthsSince`. So is the clock, through `monthsSince`. pandas parses the Move-in column as a whole, under one format inferred from its first present value, and coerces cells that do not fit that format to NaT. `toDate` stands for parsing under that inferred format. It is therefore fixed per rent roll, and one cell's date can depend on the other current rows.
- Merge.WithLateRate: `pd.to_numeric` is the parameter `toNumber`.
- Merge.MergeDatasets: missing input columns (Tenant, Name, Late Count, a merge key) raise KeyError in pandas, so the model requires them. A merge whose suffix renaming would produce two columns of one name is also excluded by a precondition, because a row maps a name to one cell.
- InsightStore.Save: entries are JSON objects, and `json.dumps` followed by `json.loads` is taken as the identity. Non-object entries, which would fail `entry.get`, are not modelled.
- Insights.SelectSample: every element of the posted list is a JSON object. A non-object element would raise in `t.get`. A non-null field value is represented by its `str()` text.
