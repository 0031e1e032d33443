/**
 * The dispatch around the booking loop in visualisation.py: display_image
 * waits for ESC or ENTER, refuses a full hall, asks for the number of seats
 * until the answer is valid and then runs the booking; show_seats checks
 * its arguments before drawing the hall and handing over to display_image.
 *
 * Key presses are the finite sequence `keys` of cv2.waitKey results and
 * console input the finite sequence `lines`; drawing is not modelled.
 */
module Display {
  import opened Py
  import opened Halls
  import opened Validators
  import opened Booking

  /** What display_image and show_seats end with, when they do not raise. */
  datatype Shown =
    | NoMovie                                           // no movie was chosen: None
    | NoScreen                                          // a screen of no height or width: None
    | Escaped                                           // ESC pressed: None
    | HallFull                                          // ENTER on a hall with every seat taken: None
    | NothingBooked                                     // a count of 0: None
    | BookedSeats(places: seq<(string, int)>, summary: Summary)  // the booked hall is returned and the seats printed
    | NotConfirmed                                      // the summary raised: None
    | AwaitingKey                                       // the key presses ran out; waitKey(0) blocks for ever

  /** The outcome and the hall grid afterwards. */
  datatype Display = Display(result: Result<Shown>, cells: seq<seq<int>>)

  const ESC := 27

  /** `cv2.waitKey(0) & 0xFF` */
  function KeyCode(key: int): (code: int)
    ensures 0 <= code < 256
    ensures 0 <= key < 256 ==> code == key
  {
    key % 256
  }

  predicate IsEnter(code: int) {
    code == 10 || code == 13
  }

  /** The first key press from k on that is ESC or ENTER, or |keys| when
      there is none: every other key just shows the hall again. */
  function FirstDecisive(keys: seq<int>, k: nat): (i: nat)
    requires k <= |keys|
    ensures k <= i <= |keys|
    ensures i < |keys| ==> KeyCode(keys[i]) == ESC || IsEnter(KeyCode(keys[i]))
    ensures forall j :: k <= j < i ==> KeyCode(keys[j]) != ESC && !IsEnter(KeyCode(keys[j]))
    decreases |keys| - k
  {
    if k == |keys| || KeyCode(keys[k]) == ESC || IsEnter(KeyCode(keys[k])) then k
    else FirstDecisive(keys, k + 1)
  }

  /** The prompt "How many places you want to book?" repeated from line pos
      on, on a hall with `free` free seats, until the answer is accepted:
      the count and the line after it, or EOFError when the console runs
      out first. */
  function ReadCount(free: int, lines: seq<string>, pos: nat): (r: Result<(int, nat)>)
    requires pos <= |lines|
    ensures r.Err? ==> r.error == EndOfInput
    ensures r.Ok? ==> pos < r.value.1 <= |lines| && 0 <= r.value.0 <= free
    decreases |lines| - pos
  {
    if pos == |lines| then Err(EndOfInput)
    else match Answer(lines[pos], free)
      case Some(n) => Ok((n, pos + 1))
      case None => ReadCount(free, lines, pos + 1)
  }

  /** The count read is the first answer accepted, every answer before it
      having been refused; EOFError means every remaining answer was
      refused. */
  lemma {:induction false} CountIsFirstAccepted(free: int, lines: seq<string>, pos: nat)
    requires pos <= |lines|
    ensures var r := ReadCount(free, lines, pos);
      (r.Err? ==> forall j :: pos <= j < |lines| ==> Answer(lines[j], free).None?) &&
      (r.Ok? ==> Answer(lines[r.value.1 - 1], free) == Some(r.value.0)) &&
      (r.Ok? ==> forall j :: pos <= j < r.value.1 - 1 ==> Answer(lines[j], free).None?)
    decreases |lines| - pos
  {
    if pos < |lines| && Answer(lines[pos], free).None? {
      CountIsFirstAccepted(free, lines, pos + 1);
    }
  }

  /** The result of a booking loop that ended: its exception, or the booked
      seats with the summary finalize_booking prints (book_seats returns
      None when that summary raises). */
  function Finish(b: Booking): (r: Result<Shown>)
    ensures b.status.Raised? <==> r.Err?
    ensures r.Err? ==> r.error == b.status.error
    ensures r.Ok? && r.value.BookedSeats? ==> r.value.places == b.places
  {
    match b.status
    case Raised(e) => Err(e)
    case Booked =>
      match DisplayChosenSeats(PlacesValue(b.places))
      case Err(_) => Ok(NotConfirmed)
      case Ok(s) => Ok(BookedSeats(b.places, s))
  }

  /** The ENTER branch of display_image: a hall of text raises
      IncorrectArrayData when summed; a full hall is reported and left
      alone; otherwise the count is read, 0 ends without booking, and any
      other count runs the booking loop from the next line on. */
  function Enter(h: Hall, rowIndices: map<string, int>, lines: seq<string>): (d: Display)
    requires IsNdArray(h)
    reads Frame(h)
    ensures h.TextArray? ==> d == Display(Err(IncorrectArrayData), Contents(h))
    ensures d.result == Ok(NothingBooked) <==>
              h.NdArray? && Sum(Contents(h)) != Rows(h) * Cols(h) &&
              ReadCount(Free(h), lines, 0).Ok? && ReadCount(Free(h), lines, 0).value.0 == 0
    ensures d.result == Ok(NothingBooked) ==> d.cells == Contents(h)
    ensures (h.NdArray? && Sum(Contents(h)) != Rows(h) * Cols(h) &&
             ReadCount(Free(h), lines, 0).Ok? && ReadCount(Free(h), lines, 0).value.0 > 0) ==>
        (var (n, next) := ReadCount(Free(h), lines, 0).value;
         var b := BookFrom(h, rowIndices, n, lines, next, Contents(h), []);
         d == Display(Finish(b), b.cells))
  {
    if h.TextArray? then Display(Err(IncorrectArrayData), Contents(h))
    else if Sum(Contents(h)) == Rows(h) * Cols(h) then Display(Ok(HallFull), Contents(h))
    else match ReadCount(Free(h), lines, 0)
      case Err(e) => Display(Err(e), Contents(h))
      case Ok((n, next)) =>
        if n == 0 then Display(Ok(NothingBooked), Contents(h))
        else
          var b := BookFrom(h, rowIndices, n, lines, next, Contents(h), []);
          Display(Finish(b), b.cells)
  }

  /** display_image: no movie returns None; a hall of the wrong kind raises
      IncorrectArrayType and a row map with fewer labels than the hall has
      rows IncorrectShape, before any key is read; then the first ESC or
      ENTER decides. */
  function DisplayImageSpec(movie: PyValue, h: Hall, rowIndices: map<string, int>, keys: seq<int>, lines: seq<string>): (d: Display)
    reads Frame(h)
    ensures movie.PyNone? ==> d.result == Ok(NoMovie)
    ensures !movie.PyNone? && !IsNdArray(h) ==> d.result == Err(IncorrectArrayType)
    ensures !movie.PyNone? && IsNdArray(h) && |rowIndices| < Rows(h) ==> d.result == Err(IncorrectShape)
  {
    if movie.PyNone? then Display(Ok(NoMovie), Contents(h))
    else if !IsNdArray(h) then Display(Err(IncorrectArrayType), Contents(h))
    else if |rowIndices| < Rows(h) then Display(Err(IncorrectShape), Contents(h))
    else
      var k := FirstDecisive(keys, 0);
      if k == |keys| then Display(Ok(AwaitingKey), Contents(h))
      else if KeyCode(keys[k]) == ESC then Display(Ok(Escaped), Contents(h))
      else Enter(h, rowIndices, lines)
  }

  /** ESC before any ENTER leaves the hall as it was. */
  lemma EscapeLeavesHall(movie: PyValue, h: Hall, rowIndices: map<string, int>, keys: seq<int>, lines: seq<string>, k: nat)
    requires !movie.PyNone? && IsNdArray(h) && |rowIndices| >= Rows(h)
    requires k < |keys| && KeyCode(keys[k]) == ESC
    requires forall j :: 0 <= j < k ==> !IsEnter(KeyCode(keys[j]))
    ensures DisplayImageSpec(movie, h, rowIndices, keys, lines) == Display(Ok(Escaped), Contents(h))
  {
    var i := FirstDecisive(keys, 0);
    assert i <= k;
  }

  /** ENTER on a numeric hall with every seat taken, after any number of
      other key presses, books nothing and leaves the hall as it was. */
  lemma FullHallIsRefused(movie: PyValue, h: Hall, rowIndices: map<string, int>, keys: seq<int>, lines: seq<string>, k: nat)
    requires !movie.PyNone? && h.NdArray? && |rowIndices| >= Rows(h)
    requires k < |keys| && IsEnter(KeyCode(keys[k]))
    requires forall j :: 0 <= j < k ==> KeyCode(keys[j]) != ESC && !IsEnter(KeyCode(keys[j]))
    requires IsBinary(Contents(h)) && CountZeros(Contents(h)) == 0
    ensures DisplayImageSpec(movie, h, rowIndices, keys, lines) == Display(Ok(HallFull), Contents(h))
  {
    FreeIsZeroCount(Contents(h), Rows(h), Cols(h));
    var i := FirstDecisive(keys, 0);
    assert i == k;
  }

  /** The grid g' differs from g only in seats that were free and are now
      taken, and has its shape. */
  predicate OnlyBooked(g: seq<seq<int>>, g': seq<seq<int>>) {
    |g'| == |g| && (forall i :: 0 <= i < |g| ==> |g'[i]| == |g[i]|) &&
    forall i, j :: 0 <= i < |g| && 0 <= j < |g[i]| && g'[i][j] != g[i][j] ==> g[i][j] == 0 && g'[i][j] == 1
  }

  lemma EnterChangesOnlyByBooking(h: Hall, rowIndices: map<string, int>, lines: seq<string>)
    requires IsNdArray(h)
    ensures var d := Enter(h, rowIndices, lines);
      (d.result.Err? ==> LoopError(d.result.error)) &&
      (d.result.Ok? && !d.result.value.BookedSeats? && !d.result.value.NotConfirmed? ==> d.cells == Contents(h)) &&
      OnlyBooked(Contents(h), d.cells)
  {
    if h.NdArray? && Sum(Contents(h)) != Rows(h) * Cols(h) {
      var c := ReadCount(Free(h), lines, 0);
      if c.Ok? && c.value.0 != 0 {
        BookingErrors(h, rowIndices, c.value.0, lines, c.value.1, Contents(h), []);
        BookingTakesOnlyFreeSeats(h, rowIndices, c.value.0, lines, c.value.1, Contents(h), []);
      }
    }
  }

  /** display_image changes the hall only by booking: every outcome other
      than a booking leaves the grid as it was, a booking (even one cut
      short by an exception) only turns free seats into taken ones, and an
      exception is one of those the guards or the booking loop raise. */
  lemma DisplayChangesOnlyByBooking(movie: PyValue, h: Hall, rowIndices: map<string, int>, keys: seq<int>, lines: seq<string>)
    ensures var d := DisplayImageSpec(movie, h, rowIndices, keys, lines);
      (d.result.Err? ==> LoopError(d.result.error)) &&
      (d.result.Ok? && !d.result.value.BookedSeats? && !d.result.value.NotConfirmed? ==> d.cells == Contents(h)) &&
      OnlyBooked(Contents(h), d.cells)
  {
    if IsNdArray(h) && !movie.PyNone? && |rowIndices| >= Rows(h) {
      var k := FirstDecisive(keys, 0);
      if k < |keys| && KeyCode(keys[k]) != ESC {
        EnterChangesOnlyByBooking(h, rowIndices, lines);
      }
    }
  }

  /** A booking in the ENTER branch holds exactly the count accepted at the
      prompt, each seat free before and taken after and none twice. */
  lemma EnterBooksAcceptedCount(h: Hall, rowIndices: map<string, int>, lines: seq<string>)
    requires h.NdArray?
    requires Enter(h, rowIndices, lines).result.Ok? && Enter(h, rowIndices, lines).result.value.BookedSeats?
    ensures var d := Enter(h, rowIndices, lines);
      var places := d.result.value.places;
      var c := ReadCount(Free(h), lines, 0);
      c.Ok? && |places| == c.value.0 > 0 &&
      Sum(d.cells) == Sum(Contents(h)) + |places| &&
      Recorded(d.cells, rowIndices, Rows(h), places) &&
      FreeBefore(Contents(h), rowIndices, Rows(h), places, 0) &&
      d.result.value.summary == ChosenSeats(seq(|places|, k requires 0 <= k < |places| => (PyStr(places[k].0), PyInt(places[k].1))))
  {
    var c := ReadCount(Free(h), lines, 0);
    assert c.Ok? && c.value.0 != 0;
    var b := BookFrom(h, rowIndices, c.value.0, lines, c.value.1, Contents(h), []);
    assert Enter(h, rowIndices, lines) == Display(Finish(b), b.cells);
    CompletedBooking(h, rowIndices, c.value.0, lines, c.value.1, Contents(h));
    BookedSeatsSummary(b.places);
  }

  /** A booking through display_image holds exactly the count accepted at
      the prompt, at least one seat, each free before and taken after and
      none twice; the hall's sum grows by that count; the summary lists the
      seats in booking order. */
  lemma DisplayBooksAcceptedCount(movie: PyValue, h: Hall, rowIndices: map<string, int>, keys: seq<int>, lines: seq<string>)
    requires h.NdArray?
    requires DisplayImageSpec(movie, h, rowIndices, keys, lines).result.Ok?
    requires DisplayImageSpec(movie, h, rowIndices, keys, lines).result.value.BookedSeats?
    ensures var d := DisplayImageSpec(movie, h, rowIndices, keys, lines);
      var places := d.result.value.places;
      var c := ReadCount(Free(h), lines, 0);
      c.Ok? && |places| == c.value.0 > 0 &&
      Sum(d.cells) == Sum(Contents(h)) + |places| &&
      Recorded(d.cells, rowIndices, Rows(h), places) &&
      FreeBefore(Contents(h), rowIndices, Rows(h), places, 0) &&
      d.result.value.summary == ChosenSeats(seq(|places|, k requires 0 <= k < |places| => (PyStr(places[k].0), PyInt(places[k].1))))
  {
    assert DisplayImageSpec(movie, h, rowIndices, keys, lines) == Enter(h, rowIndices, lines);
    EnterBooksAcceptedCount(h, rowIndices, lines);
  }

  /** A completed booking is always confirmed: the summary of the booked
      seats cannot raise, so display_image never returns None after it. */
  lemma BookingIsConfirmed(movie: PyValue, h: Hall, rowIndices: map<string, int>, keys: seq<int>, lines: seq<string>)
    ensures DisplayImageSpec(movie, h, rowIndices, keys, lines).result != Ok(NotConfirmed)
  {
    if h.NdArray? && !movie.PyNone? && |rowIndices| >= Rows(h) && FirstDecisive(keys, 0) < |keys| {
      var c := ReadCount(Free(h), lines, 0);
      if Sum(Contents(h)) != Rows(h) * Cols(h) && c.Ok? && c.value.0 != 0 {
        var b := BookFrom(h, rowIndices, c.value.0, lines, c.value.1, Contents(h), []);
        BookedSeatsSummary(b.places);
      }
    }
  }

  /** The key loop of display_image: the hall is shown again until ESC or
      ENTER is pressed; the index of that key press, or |keys|. */
  method WaitForKey(keys: seq<int>) returns (k: nat)
    ensures k == FirstDecisive(keys, 0)
  {
    k := 0;
    while k < |keys| && KeyCode(keys[k]) != ESC && !IsEnter(KeyCode(keys[k]))
      invariant k <= FirstDecisive(keys, 0)
      invariant FirstDecisive(keys, k) == FirstDecisive(keys, 0)
      decreases |keys| - k
    {
      k := k + 1;
    }
  }

  /** The count prompt of display_image: validate_num_places is asked about
      each line in turn until it accepts one. */
  method AskCount(h: Hall, lines: seq<string>) returns (r: Result<(int, nat)>)
    requires h.NdArray?
    ensures r == ReadCount(Free(h), lines, 0)
  {
    var pos := 0;
    while pos < |lines| && ValidateNumPlaces(h, PyStr(lines[pos])).value.None?
      invariant pos <= |lines|
      invariant ReadCount(Free(h), lines, pos) == ReadCount(Free(h), lines, 0)
      decreases |lines| - pos
    {
      AnswerIsValidated(h, lines[pos]);
      pos := pos + 1;
    }
    if pos == |lines| {
      return Err(EndOfInput);
    }
    AnswerIsValidated(h, lines[pos]);
    r := Ok((ValidateNumPlaces(h, PyStr(lines[pos])).value.value, pos + 1));
  }

  /** display_image on the hall array itself: the key loop, the count
      prompt, then book_seats, which updates the array in place. */
  method DisplayImage(movie: PyValue, h: Hall, rowIndices: map<string, int>, keys: seq<int>, lines: seq<string>)
      returns (r: Result<Shown>)
    modifies Frame(h)
    ensures var d := old(DisplayImageSpec(movie, h, rowIndices, keys, lines));
      r == d.result && Contents(h) == d.cells
  {
    if movie.PyNone? {
      return Ok(NoMovie);
    }
    if !IsNdArray(h) {
      return Err(IncorrectArrayType);
    }
    if |rowIndices| < Rows(h) {
      return Err(IncorrectShape);
    }
    var k := WaitForKey(keys);
    if k == |keys| {
      return Ok(AwaitingKey);
    }
    if KeyCode(keys[k]) == ESC {
      return Ok(Escaped);
    }
    if h.TextArray? {
      return Err(IncorrectArrayData);
    }
    if Sum(Contents(h)) == Rows(h) * Cols(h) {
      return Ok(HallFull);
    }
    var count := AskCount(h, lines);
    if count.Err? {
      return Err(count.error);
    }
    var (n, pos) := count.value;
    if n == 0 {
      return Ok(NothingBooked);
    }
    var status, places, next := BookSeats(h, rowIndices, n, lines, pos);
    if status.Raised? {
      return Err(status.error);
    }
    var summary := DisplayChosenSeats(PlacesValue(places));
    if summary.Err? {
      return Ok(NotConfirmed);
    }
    return Ok(BookedSeats(places, summary.value));
  }

  /** show_seats: len() of None raises an uncaught TypeError; an empty hall
      raises IncorrectArrayData; a screen of no height or width, and then no
      movie, return None; drawing a row without a label raises IncorrectShape,
      reported as FileError; the seat counter of the caption raises
      IncorrectArrayType for a hall of the wrong kind and IncorrectArrayData
      for a hall of text; otherwise display_image takes over. */
  function ShowSeatsSpec(h: Hall, rowIndices: map<string, int>, movie: PyValue, height: int, width: int,
                         keys: seq<int>, lines: seq<string>): (d: Display)
    reads Frame(h)
    ensures h.NoneHall? ==> d.result == Err(UncaughtTypeError)
    ensures !h.NoneHall? && Len(h) == 0 ==> d.result == Err(IncorrectArrayData)
    ensures !h.NoneHall? && Len(h) > 0 && (height <= 0 || width <= 0) ==> d.result == Ok(NoScreen)
    ensures !h.NoneHall? && Len(h) > 0 && height > 0 && width > 0 && movie.PyNone? ==> d.result == Ok(NoMovie)
    ensures d.result.Ok? && (d.result.value.NoScreen? || d.result.value.NoMovie?) ==> d.cells == Contents(h)
    ensures !h.NoneHall? && Len(h) > 0 && height > 0 && width > 0 && !movie.PyNone? && |rowIndices| < Len(h) ==>
      d.result == Err(FileError(RowLabelsMissing))
    ensures d.result.Ok? && d.result.value.BookedSeats? ==> d == DisplayImageSpec(movie, h, rowIndices, keys, lines)
  {
    if h.NoneHall? then Display(Err(UncaughtTypeError), Contents(h))
    else if Len(h) == 0 then Display(Err(IncorrectArrayData), Contents(h))
    else if height <= 0 || width <= 0 then Display(Ok(NoScreen), Contents(h))
    else if movie.PyNone? then Display(Ok(NoMovie), Contents(h))
    else if |rowIndices| < Len(h) then Display(Err(FileError(RowLabelsMissing)), Contents(h))
    else if !IsNdArray(h) then Display(Err(IncorrectArrayType), Contents(h))
    else if h.TextArray? then Display(Err(IncorrectArrayData), Contents(h))
    else DisplayImageSpec(movie, h, rowIndices, keys, lines)
  }

  /** show_seats hands a well-formed numeric hall straight to display_image:
      its own checks pass exactly when display_image's do, so it behaves as
      display_image does. */
  lemma ShowSeatsDefersToDisplayImage(h: Hall, rowIndices: map<string, int>, movie: PyValue, height: int, width: int,
                                      keys: seq<int>, lines: seq<string>)
    requires h.NdArray? && Rows(h) > 0 && height > 0 && width > 0
    ensures |rowIndices| >= Rows(h) ==>
      ShowSeatsSpec(h, rowIndices, movie, height, width, keys, lines) == DisplayImageSpec(movie, h, rowIndices, keys, lines)
    ensures |rowIndices| < Rows(h) && !movie.PyNone? ==>
      ShowSeatsSpec(h, rowIndices, movie, height, width, keys, lines).result == Err(FileError(RowLabelsMissing)) &&
      DisplayImageSpec(movie, h, rowIndices, keys, lines).result == Err(IncorrectShape)
  {
  }

  /** show_seats on the hall array itself. */
  method ShowSeats(h: Hall, rowIndices: map<string, int>, movie: PyValue, height: int, width: int,
                   keys: seq<int>, lines: seq<string>) returns (r: Result<Shown>)
    modifies Frame(h)
    ensures var d := old(ShowSeatsSpec(h, rowIndices, movie, height, width, keys, lines));
      r == d.result && Contents(h) == d.cells
  {
    if h.NoneHall? {
      return Err(UncaughtTypeError);
    }
    if Len(h) == 0 {
      return Err(IncorrectArrayData);
    }
    if height <= 0 || width <= 0 {
      return Ok(NoScreen);
    }
    if movie.PyNone? {
      return Ok(NoMovie);
    }
    if |rowIndices| < Len(h) {
      return Err(FileError(RowLabelsMissing));
    }
    if !IsNdArray(h) {
      return Err(IncorrectArrayType);
    }
    if h.TextArray? {
      return Err(IncorrectArrayData);
    }
    r := DisplayImage(movie, h, rowIndices, keys, lines);
  }
}
