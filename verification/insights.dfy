/** `generate_insights`: pick the delinquent records out of the posted JSON
    array and send a bounded random sample of them to the insight service. */
module Insights {
  import opened Wrappers
  import opened Seqs
  import opened Text
  import opened Sampling

  /** A posted JSON object: field name to the field's text, `None` for null. */
  type Record = map<string, Option<string>>

  /** The parsed request body: a JSON array of objects, or a parsed JSON
      value that is not an array (an object, a number, a string, null). */
  datatype Payload = Records(items: seq<Record>) | NotAList

  /** Why no sample could be drawn. */
  datatype InsightError = InvalidInput | NoDelinquents

  /** The message each error is reported with. */
  function Message(e: InsightError): string {
    match e
    case InvalidInput => "Invalid input"
    case NoDelinquents => "No delinquent tenants found."
  }

  /** At most this many records are sent to the insight service. */
  const SampleLimit: nat := 5

  /** `safe_float`: the number Python's `float` reads from the value's text
      with every comma removed and surrounding whitespace stripped, or 0.0
      when `float` raises. `parse` is `float` on text, `None` where it
      raises; a null value is `str(None)`, which `float` rejects. */
  function SafeFloat(parse: string -> Option<real>, v: Option<string>): (x: real)
    ensures v.None? ==> x == 0.0
    ensures x != 0.0 ==> v.Some? && parse(Strip(RemoveAll(v.value, ','))) == Some(x)
    ensures v.Some? && parse(Strip(RemoveAll(v.value, ','))).Some? ==> x == parse(Strip(RemoveAll(v.value, ','))).value
  {
    if v.None? then 0.0 else parse(Strip(RemoveAll(v.value, ','))).GetOr(0.0)
  }

  /** " 1,234.50 " reads as whatever `float` makes of "1234.50": the comma
      and the surrounding blanks are dropped before parsing. */
  lemma SafeFloatExample(parse: string -> Option<real>)
    requires parse("1234.50") == Some(1234.5)
    ensures SafeFloat(parse, Some(" 1,234.50 ")) == 1234.5
  {
    assert " 1,234.50 " == " 1" + [','] + "234.50 ";
    RemoveAllSingle(" 1", "234.50 ", ',');
    assert " 1" + "234.50 " == [' '] + "1234.50" + [' '];
    StripPadded("1234.50");
  }

  /** `safe_float(t.get(key, 0))`: a missing field reads as 0. */
  function Field(parse: string -> Option<real>, rec: Record, key: string): (x: real)
    ensures key !in rec ==> x == 0.0
    ensures key in rec ==> x == SafeFloat(parse, rec[key])
  {
    if key in rec then SafeFloat(parse, rec[key]) else 0.0
  }

  /** A record is delinquent when it owes a positive past-due amount or a
      positive delinquent rent. */
  predicate IsDelinquent(parse: string -> Option<real>, rec: Record) {
    Field(parse, rec, "Past Due") > 0.0 || Field(parse, rec, "Delinquent Rent") > 0.0
  }

  /** Thousands separators do not change the value read. */
  lemma SafeFloatIgnoresCommas(parse: string -> Option<real>, a: string, b: string)
    ensures SafeFloat(parse, Some(a + "," + b)) == SafeFloat(parse, Some(a + b))
  {
    assert RemoveAll(a + "," + b, ',') == RemoveAll(a + b, ',') by {
      RemoveAllAppend(a + ",", b, ',');
      RemoveAllAppend(a, ",", ',');
      RemoveAllAppend(a, b, ',');
      assert RemoveAll(",", ',') == [];
    }
  }

  /** A record without either amount, or with null amounts, is never
      delinquent. */
  lemma MissingAmountsNotDelinquent(parse: string -> Option<real>, rec: Record)
    requires "Past Due" !in rec || rec["Past Due"].None?
    requires "Delinquent Rent" !in rec || rec["Delinquent Rent"].None?
    ensures !IsDelinquent(parse, rec)
  {
  }

  /** The delinquent records, in the order they were posted: the posted
      list read at the ascending positions of its delinquent records, each
      position once. */
  function Delinquents(parse: string -> Option<real>, items: seq<Record>): (ds: seq<Record>)
    ensures |ds| <= |items|
    ensures forall x :: x in ds <==> x in items && IsDelinquent(parse, x)
    ensures ds == Pick(items, KeptIndices(items, (rec: Record) => IsDelinquent(parse, rec)))
  {
    FilterSpec(items, (rec: Record) => IsDelinquent(parse, rec));
    FilterIsPick(items, (rec: Record) => IsDelinquent(parse, rec));
    Filter(items, (rec: Record) => IsDelinquent(parse, rec))
  }

  /** `min(n, 5)`. */
  function SampleSize(n: nat): (k: nat)
    ensures k <= n && k <= SampleLimit
    ensures k == n || k == SampleLimit
  {
    if n < SampleLimit then n else SampleLimit
  }

  /** `s` is `pool` at the distinct positions `idx`. */
  predicate IsSampleOf(pool: seq<Record>, s: seq<Record>, idx: seq<nat>) {
    && |idx| == |s|
    && NoDup(idx)
    && (forall t :: 0 <= t < |idx| ==> idx[t] < |pool| && s[t] == pool[idx[t]])
  }

  /** The record-selection half of `generate_insights`: reject a body that
      is not a non-empty list, reject a list with no delinquent record, and
      otherwise draw a sample of `min(n, 5)` delinquent records, where
      `rand` stands for the generator's choices. */
  function SelectSample(parse: string -> Option<real>, payload: Payload, rand: nat -> nat)
    : (r: Result<seq<Record>, InsightError>)
    ensures r == Failure(InvalidInput) <==> payload.NotAList? || |payload.items| == 0
    ensures r == Failure(NoDelinquents) <==>
              && payload.Records? && |payload.items| > 0
              && (forall i :: 0 <= i < |payload.items| ==> !IsDelinquent(parse, payload.items[i]))
    ensures r.Success? ==>
              && payload.Records?
              && |r.value| == SampleSize(|Delinquents(parse, payload.items)|)
              && 1 <= |r.value| <= SampleLimit
              && (forall x :: x in r.value ==> x in payload.items && IsDelinquent(parse, x))
  {
    if payload.NotAList? || |payload.items| == 0 then Failure(InvalidInput)
    else
      var ds := Delinquents(parse, payload.items);
      NoneDelinquent(parse, payload.items);
      if |ds| == 0 then
        Failure(NoDelinquents)
      else
        var idx := SampleIndices(|ds|, SampleSize(|ds|), rand);
        PickMembers(ds, idx);
        Success(Pick(ds, idx))
  }

  /** The delinquent list is empty exactly when no posted record is
      delinquent. */
  lemma NoneDelinquent(parse: string -> Option<real>, items: seq<Record>)
    ensures |Delinquents(parse, items)| == 0 <==> forall i :: 0 <= i < |items| ==> !IsDelinquent(parse, items[i])
  {
    var ds := Delinquents(parse, items);
    if |ds| > 0 {
      assert ds[0] in ds;
    } else {
      forall i | 0 <= i < |items|
        ensures !IsDelinquent(parse, items[i])
      {
        assert items[i] in items;
      }
    }
  }

  /** For a list with a delinquent record, the selection succeeds and is a
      sample without replacement of the delinquent records: no record
      position is chosen twice. */
  lemma SelectionIsSample(parse: string -> Option<real>, payload: Payload, rand: nat -> nat)
    requires payload.Records? && |Delinquents(parse, payload.items)| > 0
    ensures SelectSample(parse, payload, rand).Success?
    ensures exists idx :: IsSampleOf(Delinquents(parse, payload.items),
                                     SelectSample(parse, payload, rand).value, idx)
  {
    var ds := Delinquents(parse, payload.items);
    var idx := SampleIndices(|ds|, SampleSize(|ds|), rand);
    assert IsSampleOf(ds, SelectSample(parse, payload, rand).value, idx);
  }

  /** Conversely, every sample of `min(n, 5)` distinct delinquent records is
      a possible outcome. */
  lemma EverySampleSelectable(parse: string -> Option<real>, items: seq<Record>,
                              s: seq<Record>, idx: seq<nat>)
    requires IsSampleOf(Delinquents(parse, items), s, idx)
    requires |s| == SampleSize(|Delinquents(parse, items)|)
    requires |Delinquents(parse, items)| > 0
    ensures exists rand :: SelectSample(parse, Records(items), rand) == Success(s)
  {
    var ds := Delinquents(parse, items);
    SampleIndicesComplete(|ds|, idx);
    var rand :| SampleIndices(|ds|, |idx|, rand) == idx;
    assert Pick(ds, idx) == s;
    assert SelectSample(parse, Records(items), rand) == Success(s);
  }
}
