/** The upload filter: only files with a `.csv` extension are accepted. */
module Upload {
  import opened Text

  /** `allowed_file`: the name holds a dot and the text after its LAST dot,
      lower-cased, is "csv". */
  predicate AllowedFile(filename: string) {
    '.' in filename && Lower(filename[LastIndexOf(filename, '.') + 1..]) == "csv"
  }

  /** A file is accepted exactly when its name ends in a dot followed by the
      three letters c, s, v, each in either case; a longer or shorter final
      extension, or a name without a dot, is refused. */
  lemma AllowedFileIff(filename: string)
    ensures AllowedFile(filename) <==>
              && |filename| >= 4
              && filename[|filename| - 4] == '.'
              && Lower(filename[|filename| - 3..]) == "csv"
  {
    var n := |filename|;
    if AllowedFile(filename) {
      var i := LastIndexOf(filename, '.');
      var ext := filename[i + 1..];
      assert |ext| == 3;
      assert i == n - 4;
    }
    if n >= 4 && filename[n - 4] == '.' && Lower(filename[n - 3..]) == "csv" {
      assert '.' in filename;
      var ext := filename[n - 3..];
      assert '.' !in ext by {
        forall k | 0 <= k < 3
          ensures ext[k] != '.'
        {
          assert LowerChar(ext[k]) == "csv"[k];
        }
      }
      assert LastIndexOf(filename, '.') == n - 4;
    }
  }

  /** Upper-case extensions and names with several dots pass. */
  lemma AllowedFileAccepts()
    ensures AllowedFile("a.CSV")
    ensures AllowedFile("rent.roll.csv")
  {
    var upper, dotted := "a.CSV", "rent.roll.csv";
    assert upper[|upper| - 3..] == "CSV" && Lower("CSV") == "csv";
    AllowedFileIff(upper);
    assert dotted[|dotted| - 3..] == "csv" && Lower("csv") == "csv";
    AllowedFileIff(dotted);
  }

  /** A trailing second extension, a longer extension or a bare name without
      a dot does not pass. */
  lemma AllowedFileRefuses()
    ensures !AllowedFile("a.csv.txt")
    ensures !AllowedFile("csv")
    ensures !AllowedFile("a.csvx")
  {
    AllowedFileIff("a.csv.txt");
    AllowedFileIff("csv");
    AllowedFileIff("a.csvx");
  }
}
