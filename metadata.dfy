/**
 * The title rule of meta_data.py: get_titles_dir lists a directory of saved
 * hall files and turns each file name back into a movie title by dropping
 * its extension.  The listing is a parameter: None stands for the
 * PermissionError or OSError that os.listdir raises (reported and turned
 * into None).
 */
module MetaData {
  import opened Py
  import opened Storage

  /** The stem of a file name: the pieces of the name split at its dots,
      all but the last (the extension), joined again with `sep`.  A name
      without a dot has no stem. */
  function TitleWith(sep: string, name: string): (t: string)
    ensures '.' !in name ==> t == ""
  {
    var parts := Split(name, '.');
    if '.' !in name then SplitWithoutSep(name, '.'); ""
    else Join(sep, parts[..|parts| - 1])
  }

  /** The stem as written: the pieces are joined with nothing in between,
      so every dot goes, not just the one before the extension. */
  function TitleOfAsWritten(name: string): string
  {
    TitleWith("", name)
  }

  /** The stem as intended: the pieces are joined with '.', so the name up
      to its last dot is kept. */
  function TitleOf(name: string): string
  {
    TitleWith(".", name)
  }

  /** Joining pieces none of which holds c, with a separator that does not
      hold c, gives a string without c. */
  lemma {:induction false} JoinAvoids(sep: string, parts: seq<string>, c: char)
    requires c !in sep && forall k :: 0 <= k < |parts| ==> c !in parts[k]
    ensures c !in Join(sep, parts)
    decreases |parts|
  {
    if |parts| > 1 {
      JoinAvoids(sep, parts[1..], c);
    }
  }

  /** Appending one more piece to a join adds the separator and the piece. */
  lemma {:induction false} JoinSnoc(sep: string, parts: seq<string>, last: string)
    requires |parts| >= 1
    ensures Join(sep, parts + [last]) == Join(sep, parts) + sep + last
    decreases |parts|
  {
    var all := parts + [last];
    assert all[1..] == parts[1..] + [last];
    if |parts| > 1 {
      JoinSnoc(sep, parts[1..], last);
    }
  }

  /** The titles listed as written never hold a dot. */
  lemma AsWrittenDropsDots(name: string)
    ensures '.' !in TitleOfAsWritten(name)
  {
    var parts := Split(name, '.');
    if '.' in name {
      JoinAvoids("", parts[..|parts| - 1], '.');
    }
  }

  /** So a title with a dot in it does not survive being saved and listed:
      the file "t.csv" is listed as a different title. */
  lemma DottedTitleIsLost(t: string)
    requires '.' in t
    ensures TitleOfAsWritten(t + ".csv") != t
  {
    AsWrittenDropsDots(t + ".csv");
  }

  /** A title without a dot does survive: the file "t.csv" is listed as
      t by the rule as written. */
  lemma DotFreeTitleRoundTrip(t: string)
    requires '.' !in t
    ensures TitleOfAsWritten(t + ".csv") == t
  {
    var name := t + ".csv";
    assert name == t + ['.'] + "csv";
    SplitAtFirst(t, '.', "csv");
    SplitWithoutSep("csv", '.');
    assert '.' in name by { assert name[|t|] == '.'; }
    assert Split(name, '.') == [t, "csv"];
  }

  /** The corrected stem is exactly the name before its last dot. */
  lemma TitleIsStem(name: string)
    requires '.' in name
    ensures exists ext :: '.' !in ext && name == TitleOf(name) + "." + ext
  {
    var parts := Split(name, '.');
    var n := |parts|;
    JoinSplit(name, '.');
    assert n >= 2;
    assert parts == parts[..n - 1] + [parts[n - 1]];
    JoinSnoc(".", parts[..n - 1], parts[n - 1]);
    assert name == TitleOf(name) + "." + parts[n - 1];
  }

  /** The corrected stem gives back the title of a file named title + ".csv". */
  lemma TitleOfFileName(t: string)
    ensures TitleOf(t + ".csv") == t
  {
    var name := t + ".csv";
    assert name == t + ['.'] + "csv";
    SplitAppend(t, '.', "csv");
    SplitWithoutSep("csv", '.');
    var parts := Split(name, '.');
    assert parts == Split(t, '.') + ["csv"];
    assert '.' in name by { assert name[|t|] == '.'; }
    assert parts[..|parts| - 1] == Split(t, '.');
    JoinSplit(t, '.');
  }

  /** get_titles_dir as written: None without a path or when the directory
      cannot be listed, otherwise one title per directory entry, in listing
      order. */
  function GetTitlesDirAsWritten(path: Option<string>, listing: Option<seq<string>>): (r: Option<seq<string>>)
    ensures r.None? <==> path.None? || listing.None?
    ensures r.Some? ==> |r.value| == |listing.value|
    ensures r.Some? ==> forall k :: 0 <= k < |r.value| ==> r.value[k] == TitleOfAsWritten(listing.value[k])
    ensures r.Some? ==> forall k :: 0 <= k < |r.value| ==> '.' !in r.value[k]
  {
    if path.None? then None
    else match listing
      case None => None
      case Some(names) =>
        var titles := seq(|names|, k requires 0 <= k < |names| => TitleOfAsWritten(names[k]));
        assert forall k :: 0 <= k < |titles| ==> '.' !in titles[k] by {
          forall k | 0 <= k < |titles| {
            AsWrittenDropsDots(names[k]);
          }
        }
        Some(titles)
  }

  /** get_titles_dir with the corrected stem. */
  function GetTitlesDir(path: Option<string>, listing: Option<seq<string>>): (r: Option<seq<string>>)
    ensures r.None? <==> path.None? || listing.None?
    ensures r.Some? ==> |r.value| == |listing.value|
    ensures r.Some? ==> forall k :: 0 <= k < |r.value| ==> r.value[k] == TitleOf(listing.value[k])
  {
    if path.None? then None
    else match listing
      case None => None
      case Some(names) => Some(seq(|names|, k requires 0 <= k < |names| => TitleOf(names[k])))
  }

  /** Listing a directory of files named title + ".csv" gives the titles
      back, in listing order. */
  lemma ListedTitlesRoundTrip(path: string, titles: seq<string>)
    ensures GetTitlesDir(Some(path), Some(seq(|titles|, k requires 0 <= k < |titles| => titles[k] + ".csv"))) ==
      Some(titles)
  {
    var names := seq(|titles|, k requires 0 <= k < |titles| => titles[k] + ".csv");
    forall k | 0 <= k < |titles|
      ensures TitleOf(names[k]) == titles[k]
    {
      TitleOfFileName(titles[k]);
    }
    assert GetTitlesDir(Some(path), Some(names)).value == titles;
  }

  /** A hall file saved under a repaired title is listed under that title,
      and repairing the listed title again, as the caller does before
      opening the file, changes nothing. */
  lemma SavedTitleIsListed(movie: PyValue)
    ensures var name := FilterValid(StrOf(movie));
      TitleOf(name + ".csv") == name && RepairTitle(PyStr(name)) == Ok(name)
  {
    var name := FilterValid(StrOf(movie));
    TitleOfFileName(name);
    FilterKeepsValidTitle(name);
  }

  /** With the rule as written, listing a directory of files named
      title + ".csv" gives the titles back when none of them holds a dot. */
  lemma ListedDotFreeTitlesRoundTrip(path: string, titles: seq<string>)
    requires forall k :: 0 <= k < |titles| ==> '.' !in titles[k]
    ensures GetTitlesDirAsWritten(Some(path), Some(seq(|titles|, k requires 0 <= k < |titles| => titles[k] + ".csv"))) ==
      Some(titles)
  {
    var names := seq(|titles|, k requires 0 <= k < |titles| => titles[k] + ".csv");
    forall k | 0 <= k < |titles|
      ensures TitleOfAsWritten(names[k]) == titles[k]
    {
      DotFreeTitleRoundTrip(titles[k]);
    }
    assert GetTitlesDirAsWritten(Some(path), Some(names)).value == titles;
  }

  /** With the rule as written, a hall saved under a repaired title is
      listed under that title when the repaired title holds no dot. */
  lemma SavedDotFreeTitleIsListed(movie: PyValue)
    requires '.' !in FilterValid(StrOf(movie))
    ensures var name := FilterValid(StrOf(movie));
      TitleOfAsWritten(name + ".csv") == name && RepairTitle(PyStr(name)) == Ok(name)
  {
    var name := FilterValid(StrOf(movie));
    DotFreeTitleRoundTrip(name);
    FilterKeepsValidTitle(name);
  }
}
