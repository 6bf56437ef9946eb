/** The name normaliser: "Last, First" display names become "First Last". */
module Names {
  import opened Wrappers
  import opened Text

  /** `convert_name`: a missing name stays missing, a name without a comma is
      returned unchanged, and otherwise the name is split at its FIRST comma
      into (last, first) and rebuilt as `first.strip() + " " + last.strip()`. */
  function ConvertName(name: Option<string>): (r: Option<string>)
    ensures name.None? ==> r.None?
    ensures name.Some? && ',' !in name.value ==> r == name
    ensures name.Some? && ',' in name.value ==>
              exists last, first ::
                && name.value == last + [','] + first
                && ',' !in last
                && r == Some(Strip(first) + " " + Strip(last))
  {
    match name
    case None => None
    case Some(s) =>
      if ',' in s then
        var i := IndexOf(s, ',');
        assert s == s[..i] + [','] + s[i + 1..];
        Some(Strip(s[i + 1..]) + " " + Strip(s[..i]))
      else name
  }

  /** Whitespace holds no comma. */
  lemma {:induction false} NoCommaInSpace(u: string)
    requires forall k :: 0 <= k < |u| ==> IsSpace(u[k])
    ensures Count(u, ',') == 0
  {
    CountZero(u, ',');
  }

  /** Stripping whitespace never adds or removes a comma. */
  lemma StripKeepsCommas(x: string)
    ensures Count(Strip(x), ',') == Count(x, ',')
  {
    var i, j :| && 0 <= i <= j <= |x| && Strip(x) == x[i..j]
                && (forall k :: 0 <= k < i ==> IsSpace(x[k]))
                && (forall k :: j <= k < |x| ==> IsSpace(x[k]));
    assert x == x[..i] + x[i..j] + x[j..];
    NoCommaInSpace(x[..i]);
    NoCommaInSpace(x[j..]);
    CountAppend(x[..i], x[i..j], ',');
    CountAppend(x[..i] + x[i..j], x[j..], ',');
  }

  /** Each conversion of a name that has a comma consumes exactly that first
      comma: every later comma is carried into the result. */
  lemma ConvertNameConsumesOneComma(s: string)
    requires ',' in s
    ensures ConvertName(Some(s)).Some?
    ensures Count(ConvertName(Some(s)).value, ',') == Count(s, ',') - 1
  {
    var i := IndexOf(s, ',');
    var last, first := s[..i], s[i + 1..];
    assert s == last + [','] + first;
    CountAppend(last + [','], first, ',');
    CountAppend(last, [','], ',');
    StripKeepsCommas(first);
    StripKeepsCommas(last);
    CountAppend(Strip(first) + " ", Strip(last), ',');
    CountAppend(Strip(first), " ", ',');
  }

  /** Converting twice gives the same as converting once exactly when the
      name has at most one comma; a name with a suffix such as
      "Doe, Jane, Jr" keeps changing. Missing names are always stable. */
  lemma ConvertNameIdempotentIff(s: string)
    ensures ConvertName(ConvertName(Some(s))) == ConvertName(Some(s)) <==> Count(s, ',') <= 1
  {
    CountZero(s, ',');
    if ',' in s {
      ConvertNameConsumesOneComma(s);
      var once := ConvertName(Some(s)).value;
      CountZero(once, ',');
      if ',' in once {
        ConvertNameConsumesOneComma(once);
      }
    }
  }

  /** A single-comma name comes out comma-free. */
  lemma SingleCommaComesOutCommaFree(s: string)
    requires Count(s, ',') == 1
    ensures ConvertName(Some(s)).Some?
    ensures ',' !in ConvertName(Some(s)).value
  {
    CountZero(s, ',');
    ConvertNameConsumesOneComma(s);
    CountZero(ConvertName(Some(s)).value, ',');
  }

  /** A non-empty word with no whitespace at either end. */
  predicate Trimmed(w: string) {
    |w| > 0 && !IsSpace(w[0]) && !IsSpace(w[|w| - 1])
  }

  lemma StripTrimmed(w: string)
    requires Trimmed(w)
    ensures Strip(w) == w
  {
    assert LeadingSpace(w) == 0;
    assert w[0..] == w;
    assert TrailingSpace(w) == 0;
  }

  lemma StripSpacedTrimmed(w: string)
    requires Trimmed(w)
    ensures Strip(" " + w) == w
  {
    var s := " " + w;
    assert s[1..] == w;
    assert LeadingSpace(w) == 0;
    assert LeadingSpace(s) == 1;
    assert TrailingSpace(w) == 0;
  }

  /** "Last, First" becomes "First Last" for trimmed words, the surname
      holding no comma; whatever follows the first comma moves as a whole. */
  lemma ConvertLastFirst(last: string, first: string)
    requires Trimmed(last) && Trimmed(first) && ',' !in last
    ensures ConvertName(Some(last + ", " + first)) == Some(first + " " + last)
  {
    var s := last + ", " + first;
    assert s[..|last|] == last && s[|last| + 1..] == " " + first;
    assert forall k :: 0 <= k < |last| ==> s[k] == last[k];
    IndexOfIsFirst(s, ',', |last|);
    assert ConvertName(Some(s)) == Some(Strip(" " + first) + " " + Strip(last));
    StripTrimmed(last);
    StripSpacedTrimmed(first);
  }

  /** A suffixed name "Last, First, Suffix" is not normalised: it becomes
      "First, Suffix Last" (for example "Doe, Jane, Jr" gives "Jane, Jr Doe"). */
  lemma ConvertSuffixedName(last: string, first: string, suffix: string)
    requires Trimmed(last) && Trimmed(first) && Trimmed(suffix)
    requires ',' !in last
    ensures ConvertName(Some(last + ", " + first + ", " + suffix))
         == Some(first + ", " + suffix + " " + last)
  {
    var rest := first + ", " + suffix;
    assert last + ", " + first + ", " + suffix == last + ", " + rest;
    ConvertLastFirst(last, rest);
  }

  /** Converting "First, Suffix Last" again changes it once more, to
      "Suffix Last First" ("Jane, Jr Doe" gives "Jr Doe Jane"). */
  lemma ConvertSuffixedNameAgain(last: string, first: string, suffix: string)
    requires Trimmed(last) && Trimmed(first) && Trimmed(suffix)
    requires ',' !in first
    ensures ConvertName(Some(first + ", " + suffix + " " + last))
         == Some(suffix + " " + last + " " + first)
  {
    var tail := suffix + " " + last;
    assert first + ", " + suffix + " " + last == first + ", " + tail;
    ConvertLastFirst(first, tail);
  }
}
