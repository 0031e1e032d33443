/**
 * The file side of load_save_data.py: the filename-safe form of a title,
 * the three-line header written above a hall's grid, the batch that writes
 * an empty hall file per title, and the checks made before a hall is
 * saved.  A write is not performed: what numpy's writer would do with the
 * path (write the file, find no directory, refuse the path) is a
 * parameter, and a written file is the record of its path, header and
 * grid.
 */
module Storage {
  import opened Py
  import opened Halls

  // ---------------------------------------------------------------------
  // repair_title

  /** The characters from lo to hi, in order. */
  function CharRange(lo: char, hi: char): (r: string)
    requires lo <= hi < 128 as char
    ensures |r| == hi as int - lo as int + 1
    ensures forall i :: 0 <= i < |r| ==> r[i] as int == lo as int + i
  {
    seq(hi as int - lo as int + 1, i requires 0 <= i <= hi as int - lo as int => (lo as int + i) as char)
  }

  lemma InRange(lo: char, hi: char, c: char)
    requires lo <= hi < 128 as char
    ensures c in CharRange(lo, hi) <==> lo <= c <= hi
  {
    var r := CharRange(lo, hi);
    if lo <= c <= hi {
      assert r[c as int - lo as int] == c;
    }
  }

  /** valid_chars: "-_.()[] " followed by the ASCII letters and the digits. */
  function ValidChars(): string {
    "-_.()[] " + CharRange('a', 'z') + CharRange('A', 'Z') + CharRange('0', '9')
  }

  /** A character allowed in a filename. */
  predicate IsValidChar(c: char) {
    c in "-_.()[] " || 'a' <= c <= 'z' || 'A' <= c <= 'Z' || '0' <= c <= '9'
  }

  lemma ValidCharsAre(c: char)
    ensures c in ValidChars() <==> IsValidChar(c)
  {
    InRange('a', 'z', c);
    InRange('A', 'Z', c);
    InRange('0', '9', c);
  }

  /** The characters of s that may appear in a filename, in order. */
  function FilterValid(s: string): (r: string)
    ensures |r| <= |s|
    ensures forall k :: 0 <= k < |r| ==> IsValidChar(r[k])
    decreases |s|
  {
    if s == [] then []
    else (if IsValidChar(s[0]) then [s[0]] else []) + FilterValid(s[1..])
  }

  /** `p in t` for strings p and t: p occurs in t. */
  predicate IsSubstring(p: string, t: string)
    decreases |t|
  {
    p <= t || (t != [] && IsSubstring(p, t[1..]))
  }

  /** The generator of repair_title over a sequence of items: `c in
      valid_chars` raises TypeError for an item that is not a string, and
      for a string tests whether it occurs in valid_chars. */
  function FilterItems(items: seq<PyValue>): (r: Result<string>)
    ensures r.Err? ==> r.error == FileError(BadTitle)
    ensures r.Err? <==> exists k :: 0 <= k < |items| && !items[k].PyStr?
    decreases |items|
  {
    if items == [] then Ok([])
    else if !items[0].PyStr? then Err(FileError(BadTitle))
    else
      match FilterItems(items[1..])
      case Err(e) => Err(e)
      case Ok(rest) => Ok((if IsSubstring(items[0].s, ValidChars()) then items[0].s else []) + rest)
  }

  /** repair_title: a string loses every character not allowed in a
      filename; any other iterable is filtered item by item; an object that
      cannot be iterated raises TypeError, reported as FileError. */
  function RepairTitle(title: PyValue): (r: Result<string>)
    ensures title.PyStr? ==> r == Ok(FilterValid(title.s))
    ensures r.Err? ==> r.error == FileError(BadTitle)
    ensures Iterate(title).None? ==> r.Err?
  {
    match title
    case PyStr(s) => Ok(FilterValid(s))
    case PyList(items, _) => FilterItems(items)
    case PyTuple(items, _) => FilterItems(items)
    case _ => Err(FileError(BadTitle))
  }

  /** r is obtained from s by deleting characters. */
  predicate IsSubsequence(r: string, s: string)
    decreases |s|
  {
    r == [] || (s != [] && ((r[0] == s[0] && IsSubsequence(r[1..], s[1..])) || IsSubsequence(r, s[1..])))
  }

  /** The repaired title is a subsequence of the title. */
  lemma {:induction false} FilterIsSubsequence(s: string)
    ensures IsSubsequence(FilterValid(s), s)
    decreases |s|
  {
    if s != [] {
      FilterIsSubsequence(s[1..]);
      if IsValidChar(s[0]) {
        assert FilterValid(s) == [s[0]] + FilterValid(s[1..]);
        assert FilterValid(s)[1..] == FilterValid(s[1..]);
      } else {
        assert FilterValid(s) == FilterValid(s[1..]);
      }
    }
  }

  /** The repaired title keeps every allowed character as often as the
      title has it, and no other character. */
  lemma {:induction false} FilterCounts(s: string, c: char)
    ensures multiset(FilterValid(s))[c] == if IsValidChar(c) then multiset(s)[c] else 0
    decreases |s|
  {
    if s != [] {
      FilterCounts(s[1..], c);
      assert s == [s[0]] + s[1..];
      assert multiset(s) == multiset{s[0]} + multiset(s[1..]);
    }
  }

  /** A title made of allowed characters only is left as it is. */
  lemma {:induction false} FilterKeepsValidTitle(s: string)
    requires forall k :: 0 <= k < |s| ==> IsValidChar(s[k])
    ensures FilterValid(s) == s
    decreases |s|
  {
    if s != [] {
      FilterKeepsValidTitle(s[1..]);
    }
  }

  /** Repairing twice is repairing once. */
  lemma RepairIdempotent(s: string)
    ensures RepairTitle(PyStr(FilterValid(s))) == RepairTitle(PyStr(s))
  {
    FilterKeepsValidTitle(FilterValid(s));
  }

  /** The colon of a subtitle is dropped and nothing else around it:
      "Se7en: Reloaded" is stored as "Se7en Reloaded". */
  lemma ColonIsDropped(a: string, b: string)
    ensures RepairTitle(PyStr(a + ":" + b)) == RepairTitle(PyStr(a + b))
  {
    assert ":"[0] == ':' && ":"[1..] == [];
    assert FilterValid(":") == [];
    FilterAppend(a + ":", b);
    FilterAppend(a, ":");
    FilterAppend(a, b);
    assert FilterValid(a + ":") == FilterValid(a);
  }

  /** Filtering works piece by piece. */
  lemma {:induction false} FilterAppend(a: string, b: string)
    ensures FilterValid(a + b) == FilterValid(a) + FilterValid(b)
    decreases |a|
  {
    if a != [] {
      assert (a + b)[0] == a[0] && (a + b)[1..] == a[1..] + b;
      FilterAppend(a[1..], b);
    } else {
      assert a + b == b;
    }
  }

  /** A one-character string occurs in valid_chars exactly when its
      character is allowed. */
  lemma {:induction false} CharSubstring(c: char, t: string)
    ensures IsSubstring([c], t) <==> c in t
    decreases |t|
  {
    if t != [] {
      CharSubstring(c, t[1..]);
      assert c in t <==> c == t[0] || c in t[1..];
    }
  }

  /** Filtering a list of the title's characters gives what filtering the
      title gives. */
  lemma {:induction false} CharListFilter(s: string)
    ensures FilterItems(seq(|s|, k requires 0 <= k < |s| => PyStr([s[k]]))) == Ok(FilterValid(s))
    decreases |s|
  {
    var items := seq(|s|, k requires 0 <= k < |s| => PyStr([s[k]]));
    if s != [] {
      assert items[1..] == seq(|s[1..]|, k requires 0 <= k < |s[1..]| => PyStr([s[1..][k]]));
      CharListFilter(s[1..]);
      CharSubstring(s[0], ValidChars());
      ValidCharsAre(s[0]);
    }
  }

  // ---------------------------------------------------------------------
  // create_txt_info

  /** The rule of 45 '+' under the title. */
  const Rule := "+++++++++++++++++++++++++++++++++++++++++++++"

  const TitlePrefix := "Title: "
  const TakenPrefix := "Seats taken: "

  /** The header text for a title and a number of taken seats:
      "Title: <title>", the rule and "Seats taken: <taken>", each ended by a
      line break. */
  function TxtHeader(title: string, taken: int): string {
    Join("\n", [TitlePrefix + title, Rule, TakenPrefix + IntToString(taken), ""])
  }

  /** create_txt_info: the header for the hall's sum; a hall of the wrong
      kind raises IncorrectArrayType, a hall of text IncorrectArrayData. */
  function CreateTxtInfo(movie: PyValue, h: Hall): (r: Result<string>)
    reads Frame(h)
    ensures !IsNdArray(h) <==> r == Err(IncorrectArrayType)
    ensures h.TextArray? <==> r == Err(IncorrectArrayData)
    ensures h.NdArray? <==> r.Ok?
    ensures h.NdArray? ==> r == Ok(TxtHeader(StrOf(movie), Sum(Contents(h))))
  {
    if !IsNdArray(h) then Err(IncorrectArrayType)
    else if h.TextArray? then Err(IncorrectArrayData)
    else Ok(TxtHeader(StrOf(movie), Sum(Contents(h))))
  }

  /** The header is three lines, the title's, the rule and the count's,
      when the title holds no line break; the count line reads back as the
      number of taken seats. */
  lemma HeaderLines(title: string, taken: int)
    requires '\n' !in title
    ensures Split(TxtHeader(title, taken), '\n') ==
      [TitlePrefix + title, Rule, TakenPrefix + IntToString(taken), ""]
    ensures ParseInt(IntToString(taken)) == Some(taken)
  {
    var parts := [TitlePrefix + title, Rule, TakenPrefix + IntToString(taken), ""];
    NumberHasNoBreak(taken);
    assert forall k :: 0 <= k < |parts| ==> '\n' !in parts[k];
    SplitJoin(parts, '\n');
    ParseIntToString(taken);
  }

  lemma NumberHasNoBreak(n: int)
    ensures '\n' !in IntToString(n)
  {
    var d := NatToString(if n < 0 then -n else n);
    assert forall k :: 0 <= k < |d| ==> IsDigit(d[k]);
  }

  // ---------------------------------------------------------------------
  // create_seats_array and save_csv_data

  /** What numpy's writer does with a path: writes the file, raises
      FileNotFoundError for a missing directory, or raises TypeError. */
  datatype WriteOutcome = Writes | NoDirectory | WriteTypeError

  /** A file written: its path, header and grid. */
  datatype SavedFile = SavedFile(path: string, header: string, grid: seq<seq<int>>)

  /** How a batch ended: every title processed, stopped by a missing
      directory, or stopped by a TypeError (titles that cannot be
      iterated, or a write raising it). */
  datatype BatchEnd = Completed | StoppedNoDirectory | StoppedTypeError

  datatype Batch = Batch(written: seq<SavedFile>, end: BatchEnd)

  /** `.\movies\<name>.csv` */
  function FilePath(name: string): string {
    ".\\movies\\" + name + ".csv"
  }

  /** The empty hall file for one title: the header names str(title) with
      no seat taken; the file is named after the repaired str(title). */
  function EmptyHallFile(movie: PyValue, rows: nat, seats: nat): SavedFile {
    SavedFile(FilePath(FilterValid(StrOf(movie))), TxtHeader(StrOf(movie), 0), Zeros(rows, seats))
  }

  /** create_seats_array: the shape must be two positive ints, checked
      before any title is looked at; then every title gets its empty hall
      file in order, unless the directory is missing, which stops the
      batch at its first write, or a TypeError ends it. */
  function CreateSeatsArraySpec(movies: PyValue, numRows: PyValue, numSeats: PyValue, write: WriteOutcome): (r: Result<Batch>)
    ensures !numRows.PyInt? || !numSeats.PyInt? || numRows.i <= 0 || numSeats.i <= 0 <==> r == Err(IncorrectShape)
    ensures r.Ok? && Iterate(movies).None? ==> r.value == Batch([], StoppedTypeError)
    ensures r.Ok? && r.value.end.Completed? ==>
      Iterate(movies).Some? && |r.value.written| == |Iterate(movies).value| &&
      (write.Writes? || Iterate(movies).value == [])
    ensures r.Ok? && !r.value.end.Completed? ==> r.value.written == []
  {
    if !numRows.PyInt? || !numSeats.PyInt? then Err(IncorrectShape)
    else if numRows.i <= 0 || numSeats.i <= 0 then Err(IncorrectShape)
    else match Iterate(movies)
      case None => Ok(Batch([], StoppedTypeError))
      case Some(items) =>
        if items == [] || write.Writes? then
          Ok(Batch(seq(|items|, k requires 0 <= k < |items| => EmptyHallFile(items[k], numRows.i, numSeats.i)), Completed))
        else if write.NoDirectory? then Ok(Batch([], StoppedNoDirectory))
        else Ok(Batch([], StoppedTypeError))
  }

  /** Every file of a batch holds an empty hall of the requested shape,
      whose header counts no taken seat, under a name made only of the
      characters allowed in a filename. */
  lemma BatchFilesAreEmptyHalls(movies: PyValue, numRows: PyValue, numSeats: PyValue, write: WriteOutcome, k: nat)
    requires CreateSeatsArraySpec(movies, numRows, numSeats, write).Ok?
    requires k < |CreateSeatsArraySpec(movies, numRows, numSeats, write).value.written|
    ensures Iterate(movies).Some? && k < |Iterate(movies).value|
    ensures var f := CreateSeatsArraySpec(movies, numRows, numSeats, write).value.written[k];
      f == EmptyHallFile(Iterate(movies).value[k], numRows.i, numSeats.i)
    ensures var f := CreateSeatsArraySpec(movies, numRows, numSeats, write).value.written[k];
      var name := f.path[|".\\movies\\"|..|f.path| - |".csv"|];
      IsGrid(f.grid, numRows.i, numSeats.i) && Sum(f.grid) == 0 && CountZeros(f.grid) == numRows.i * numSeats.i &&
      f.path == FilePath(name) && (forall j :: 0 <= j < |name| ==> IsValidChar(name[j]))
  {
    var f := CreateSeatsArraySpec(movies, numRows, numSeats, write).value.written[k];
    ZerosSum(numRows.i, numSeats.i);
    FreeIsZeroCount(f.grid, numRows.i, numSeats.i);
    var name := f.path[|".\\movies\\"|..|f.path| - |".csv"|];
    assert name == FilterValid(StrOf(Iterate(movies).value[k]));
  }

  /** create_seats_array over the titles, one write per title. */
  method CreateSeatsArray(movies: PyValue, numRows: PyValue, numSeats: PyValue, write: WriteOutcome)
      returns (r: Result<Batch>)
    ensures r == CreateSeatsArraySpec(movies, numRows, numSeats, write)
  {
    if !numRows.PyInt? || !numSeats.PyInt? {
      return Err(IncorrectShape);
    }
    if numRows.i <= 0 || numSeats.i <= 0 {
      return Err(IncorrectShape);
    }
    var items := Iterate(movies);
    if items.None? {
      return Ok(Batch([], StoppedTypeError));
    }
    var written: seq<SavedFile> := [];
    for k := 0 to |items.value|
      invariant written == seq(k, j requires 0 <= j < k => EmptyHallFile(items.value[j], numRows.i, numSeats.i))
      invariant !write.Writes? ==> k == 0
    {
      var file := EmptyHallFile(items.value[k], numRows.i, numSeats.i);
      if write.NoDirectory? {
        return Ok(Batch(written, StoppedNoDirectory));
      }
      if write.WriteTypeError? {
        return Ok(Batch(written, StoppedTypeError));
      }
      written := written + [file];
    }
    return Ok(Batch(written, Completed));
  }

  /** save_csv_data: nothing happens without a movie or a hall; a hall of
      the wrong kind raises IncorrectArrayType as it is; a hall of text,
      a missing directory and a refused path raise FileError; otherwise
      the grid is written under its header. */
  function SaveCsvData(movie: PyValue, h: Hall, path: string, write: WriteOutcome): (r: Result<Option<SavedFile>>)
    reads Frame(h)
    ensures movie.PyNone? || h.NoneHall? ==> r == Ok(None)
    ensures !movie.PyNone? && !h.NoneHall? && !IsNdArray(h) ==> r == Err(IncorrectArrayType)
    ensures !movie.PyNone? && h.TextArray? ==> r == Err(FileError(ArrayDataCause))
    ensures r.Err? && r.error != IncorrectArrayType ==> r.error.FileError?
    ensures r.Ok? && r.value.Some? ==> h.NdArray? && write.Writes? && r.value.value.path == path
    ensures r.Ok? && r.value.Some? ==> r.value.value.grid == Contents(h)
    ensures r.Ok? && r.value.Some? ==> r.value.value.header == TxtHeader(StrOf(movie), Sum(Contents(h)))
  {
    if movie.PyNone? || h.NoneHall? then Ok(None)
    else if !IsNdArray(h) then Err(IncorrectArrayType)
    else
      var info := CreateTxtInfo(movie, h);
      // the kind was checked above, so only IncorrectArrayData can reach
      // the handlers here
      if info.Err? then Err(FileError(ArrayDataCause))
      else match write
        case NoDirectory => Err(FileError(DirectoryMissing))
        case WriteTypeError => Err(FileError(BadPath))
        case Writes => Ok(Some(SavedFile(path, info.value, Contents(h))))
  }

  /** Saving a numeric hall fails only on the write: with the file
      written, the header's count line reads back as the hall's sum. */
  lemma SavedHeaderCountsTakenSeats(movie: PyValue, h: Hall, path: string)
    requires !movie.PyNone? && h.NdArray? && '\n' !in StrOf(movie)
    ensures SaveCsvData(movie, h, path, Writes).Ok?
    ensures Split(SaveCsvData(movie, h, path, Writes).value.value.header, '\n') ==
      [TitlePrefix + StrOf(movie), Rule, TakenPrefix + IntToString(Sum(Contents(h))), ""]
    ensures ParseInt(IntToString(Sum(Contents(h)))) == Some(Sum(Contents(h)))
    ensures SaveCsvData(movie, h, path, NoDirectory) == Err(FileError(DirectoryMissing))
    ensures SaveCsvData(movie, h, path, WriteTypeError) == Err(FileError(BadPath))
  {
    var header := TxtHeader(StrOf(movie), Sum(Contents(h)));
    assert CreateTxtInfo(movie, h) == Ok(header);
    assert SaveCsvData(movie, h, path, Writes) == Ok(Some(SavedFile(path, header, Contents(h))));
    HeaderLines(StrOf(movie), Sum(Contents(h)));
  }
}
