/**
 * The checks visualisation.py applies to what the customer types (a row
 * label, a seat number, how many seats to book) and to the list of booked
 * seats it prints at the end.  They answer bad input with false or None
 * and raise only when the hall argument itself has the wrong kind.
 */
module Validators {
  import opened Py
  import opened Halls

  /** validate_row: the label, once stripped and upper-cased, must be a key
      of the row map whose index lies below the number of rows.  Labels that
      are not strings are never keys; a list label is unhashable, so the
      membership test itself raises. */
  function ValidateRow(row: PyValue, rowIndices: map<string, int>, h: Hall): (r: Result<bool>)
    ensures !IsNdArray(h) ==> r == Err(IncorrectArrayType)
    ensures IsNdArray(h) && row.PyList? ==> r == Err(UncaughtTypeError)
    ensures IsNdArray(h) && !row.PyList? ==> r.Ok?
    ensures r == Ok(true) <==>
      IsNdArray(h) && row.PyStr? && Normalize(row.s) in rowIndices && rowIndices[Normalize(row.s)] < Rows(h)
  {
    if !IsNdArray(h) then Err(IncorrectArrayType)
    else match row
      case PyStr(s) => Ok(Normalize(s) in rowIndices && rowIndices[Normalize(s)] < Rows(h))
      case PyList(_, _) => Err(UncaughtTypeError)
      case _ => Ok(false)
  }

  /** A row label is accepted or refused regardless of surrounding blanks
      and letter case: typing " a " is typing "A". */
  lemma RowLabelIgnoresCaseAndBlanks(s: string, rowIndices: map<string, int>, h: Hall)
    ensures ValidateRow(PyStr(s), rowIndices, h) == ValidateRow(PyStr(Normalize(s)), rowIndices, h)
  {
    NormalizeIdempotent(s);
  }

  /** validate_place: a 1-based seat number, an int between 1 and the
      number of seats in a row; floats, lists and the like are refused. */
  function ValidatePlace(place: PyValue, h: Hall): (r: Result<bool>)
    ensures !IsNdArray(h) <==> r == Err(IncorrectArrayType)
    ensures r == Ok(true) <==> IsNdArray(h) && place.PyInt? && 1 <= place.i <= Cols(h)
  {
    if !IsNdArray(h) then Err(IncorrectArrayType)
    else Ok(place.PyInt? && 1 <= place.i && place.i <= Cols(h))
  }

  /** rows * seats - seats_array.sum(): how many seats the count validator
      lets the customer ask for. */
  function Free(h: Hall): int
    requires h.NdArray?
    reads Frame(h)
  {
    Rows(h) * Cols(h) - Sum(Contents(h))
  }

  /** The count after validate_num_places has applied int() to a string:
      None where int() raises ValueError. */
  function AsCount(num: PyValue): Option<PyValue> {
    if num.PyStr? then
      match ParseInt(num.s)
      case Some(v) => Some(PyInt(v))
      case None => None
    else Some(num)
  }

  /** validate_num_places: the count, when it is an int between 0 and the
      free capacity; None (with a message) for anything else the customer
      can type.  A string is converted before the hall is looked at, so an
      unparsable string gives None even for a hall of the wrong kind; a
      hall of text raises IncorrectArrayData when summed. */
  function ValidateNumPlaces(h: Hall, num: PyValue): (r: Result<Option<int>>)
    reads Frame(h)
    ensures AsCount(num).None? ==> r == Ok(None)
    ensures AsCount(num).Some? && !IsNdArray(h) ==> r == Err(IncorrectArrayType)
    ensures AsCount(num).Some? && h.TextArray? ==> r == Err(IncorrectArrayData)
    ensures h.NdArray? ==> r.Ok?
    ensures h.NdArray? && num.PyInt? ==> (r == Ok(Some(num.i)) <==> 0 <= num.i <= Free(h))
    ensures h.NdArray? && num.PyInt? ==> (r == Ok(None) <==> !(0 <= num.i <= Free(h)))
    ensures r.Ok? && r.value.Some? ==>
      h.NdArray? && 0 <= r.value.value <= Free(h) && AsCount(num) == Some(PyInt(r.value.value))
  {
    match AsCount(num)
    case None => Ok(None)
    case Some(n) =>
      if !IsNdArray(h) then Err(IncorrectArrayType)
      else if h.TextArray? then Err(IncorrectArrayData)
      else if !n.PyInt? || n.i < 0 then Ok(None)
      else if Free(h) < n.i then Ok(None)
      else Ok(Some(n.i))
  }

  /** What validate_num_places answers to the typed line on a numeric hall
      with `free` free seats: the count when it is a number between 0 and
      free, None otherwise. */
  function Answer(line: string, free: int): (r: Option<int>)
    ensures r.Some? <==> ParseInt(line).Some? && 0 <= ParseInt(line).value <= free
    ensures r.Some? ==> r.value == ParseInt(line).value
  {
    match ParseInt(line)
    case None => None
    case Some(n) => if n < 0 || free < n then None else Some(n)
  }

  /** On a numeric hall the validator gives exactly that answer. */
  lemma AnswerIsValidated(h: Hall, line: string)
    requires h.NdArray?
    ensures ValidateNumPlaces(h, PyStr(line)) == Ok(Answer(line, Free(h)))
  {
  }

  /** Typing a number gives the same answer as passing that number. */
  lemma CountTextMatchesInt(h: Hall, k: int)
    ensures ValidateNumPlaces(h, PyStr(IntToString(k))) == ValidateNumPlaces(h, PyInt(k))
  {
    TextCount(k);
  }

  lemma TextCount(k: int)
    ensures AsCount(PyStr(IntToString(k))) == Some(PyInt(k))
  {
    ParseIntToString(k);
  }

  /** On a hall of 0s and 1s an accepted count never exceeds the number of
      free seats, so the booking loop can always be completed. */
  lemma AcceptedCountFitsFreeSeats(h: Hall, num: PyValue)
    requires h.NdArray? && IsBinary(Contents(h))
    requires ValidateNumPlaces(h, num).Ok? && ValidateNumPlaces(h, num).value.Some?
    ensures ValidateNumPlaces(h, num).value.value <= CountZeros(Contents(h))
  {
    FreeIsZeroCount(Contents(h), Rows(h), Cols(h));
  }

  /** What display_chosen_seats prints: nothing but a notice for None, or
      one (row, place) line per chosen seat. */
  datatype Summary = NoSeatsChosen | ChosenSeats(lines: seq<(PyValue, PyValue)>)

  /** An entry the summary accepts: something of length 2. */
  predicate IsPair(entry: PyValue) {
    LenOf(entry) == Some(2)
  }

  /** entry[k] */
  function ItemAt(entry: PyValue, k: nat): PyValue
    requires LenOf(entry).Some? && k < LenOf(entry).value
  {
    match entry
    case PyStr(s) => PyStr([s[k]])
    case PyList(items, _) => items[k]
    case PyTuple(items, _) => items[k]
  }

  /** The loop of display_chosen_seats over the entries: it fails with
      IncorrectlyChosenSeats exactly when some entry has no length or a
      length other than 2, and otherwise prints each entry's two items. */
  function SummarizeSeats(entries: seq<PyValue>): (r: Result<seq<(PyValue, PyValue)>>)
    ensures r.Ok? <==> forall k :: 0 <= k < |entries| ==> IsPair(entries[k])
    ensures r.Err? ==> r.error == IncorrectlyChosenSeats
    ensures r.Ok? ==> |r.value| == |entries|
    ensures r.Ok? ==>
      forall k :: 0 <= k < |entries| ==> r.value[k] == (ItemAt(entries[k], 0), ItemAt(entries[k], 1))
    decreases |entries|
  {
    if entries == [] then Ok([])
    else if !IsPair(entries[0]) then Err(IncorrectlyChosenSeats)
    else
      match SummarizeSeats(entries[1..])
      case Err(e) => Err(e)
      case Ok(rest) => Ok([(ItemAt(entries[0], 0), ItemAt(entries[0], 1))] + rest)
  }

  /** display_chosen_seats: None is reported as "no seats"; an object that
      cannot be iterated raises IncorrectlyChosenSeats; otherwise the
      entries are summarized. */
  function DisplayChosenSeats(chosen: PyValue): (r: Result<Summary>)
    ensures chosen.PyNone? ==> r == Ok(NoSeatsChosen)
    ensures !chosen.PyNone? && Iterate(chosen).None? ==> r == Err(IncorrectlyChosenSeats)
    ensures Iterate(chosen).Some? ==>
      (r.Ok? <==> forall k :: 0 <= k < |Iterate(chosen).value| ==> IsPair(Iterate(chosen).value[k]))
    ensures r.Err? ==> r.error == IncorrectlyChosenSeats
  {
    if chosen.PyNone? then Ok(NoSeatsChosen)
    else match Iterate(chosen)
      case None => Err(IncorrectlyChosenSeats)
      case Some(entries) =>
        match SummarizeSeats(entries)
        case Err(e) => Err(e)
        case Ok(lines) => Ok(ChosenSeats(lines))
  }

  /** How a booked seat is held: the tuple (row label, place). */
  function PlaceValue(place: (string, int)): PyValue {
    PyTuple([PyStr(place.0), PyInt(place.1)], "('" + place.0 + "', " + IntToString(place.1) + ")")
  }

  /** The list of booked seats the booking loop hands to the summary. */
  function PlacesValue(places: seq<(string, int)>): PyValue {
    var entries := seq(|places|, k requires 0 <= k < |places| => PlaceValue(places[k]));
    PyList(entries, "[" + Join(", ", seq(|entries|, k requires 0 <= k < |entries| => StrOf(entries[k]))) + "]")
  }

  /** The summary printed when a booking completes never raises: it prints
      each booked seat's row label and place, in booking order. */
  lemma BookedSeatsSummary(places: seq<(string, int)>)
    ensures DisplayChosenSeats(PlacesValue(places)) ==
      Ok(ChosenSeats(seq(|places|, k requires 0 <= k < |places| => (PyStr(places[k].0), PyInt(places[k].1)))))
  {
    var entries := PlacesValue(places).items;
    assert forall k :: 0 <= k < |entries| ==> IsPair(entries[k]);
    var lines := SummarizeSeats(entries).value;
    assert lines == seq(|places|, k requires 0 <= k < |places| => (PyStr(places[k].0), PyInt(places[k].1)));
  }
}
