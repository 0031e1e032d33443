/**
 * The booking loop of visualisation.py (book_seats): it reads a row label
 * and a seat number per attempt from the console, marks a free seat as
 * taken in the hall array, and stops once the requested number of seats
 * is held.  The console is the sequence of lines still to be read; when it
 * runs out, input() raises EOFError.
 *
 * The loop is specified by the pure functions Attempt (one pass of the
 * loop body) and BookFrom (the whole loop), and the method BookSeats
 * updates the hall array in place and is proved to agree with them.
 */
module Booking {
  import opened Py
  import opened Halls
  import opened Validators

  /** cells is the grid of h when h is a numeric array. */
  predicate Fits(h: Hall, cells: seq<seq<int>>) {
    h.NdArray? ==> IsGrid(cells, Rows(h), Cols(h))
  }

  /** numpy's reading of a row index: a negative one counts from the end. */
  function RowOf(r: int, rows: nat): (i: int)
    ensures 0 <= r + rows && r < rows ==> 0 <= i < rows
    ensures 0 <= r ==> i == r
  {
    if r < 0 then r + rows else r
  }

  /** The exceptions that leave the booking loop: EOFError from input(),
      IncorrectArrayType from the validators, IndexError reported as
      IncorrectShape, and IncorrectArrayData for a cell holding neither 0
      nor 1. */
  predicate LoopError(e: Error) {
    e.EndOfInput? || e.IncorrectArrayType? || e.IncorrectShape? || e.IncorrectArrayData?
  }

  /** What one pass of the loop body does. */
  datatype Outcome =
    | Commit(next: nat, typed: string, place: int, row: nat, col: nat)  // seat (row, col) booked as (typed label, place)
    | Reject(next: nat)                                                // a message, then the next attempt
    | Fail(next: nat, error: Error)                                    // the loop ends with an exception

  /** What the two console lines of an attempt ask for. */
  datatype Request =
    | Chosen(next: nat, typed: string, place: int)  // a row the validator accepts and a place in that row
    | Refused(next: nat)                            // a message, then the next attempt
    | Stopped(next: nat, error: Error)              // an exception

  /** The reading part of one pass of the loop body, from line pos on: the
      typed row is stripped and upper-cased and validated; a row refused by
      the validator, and a place that is not a number or not in the row,
      are answered with a message. */
  function ReadSeat(h: Hall, rowIndices: map<string, int>, lines: seq<string>, pos: nat): (q: Request)
    requires pos <= |lines|
    ensures q.next <= |lines| && (!q.Stopped? ==> pos < q.next)
    ensures pos == |lines| ==> q == Stopped(pos, EndOfInput)
    ensures pos < |lines| && !IsNdArray(h) ==> q == Stopped(pos + 1, IncorrectArrayType)
    ensures q.Stopped? ==> q.error.EndOfInput? || q.error.IncorrectArrayType?
    ensures q.Chosen? ==>
      IsNdArray(h) && q.next == pos + 2 && q.typed in rowIndices && rowIndices[q.typed] < Rows(h) &&
      1 <= q.place <= Cols(h)
  {
    if pos == |lines| then Stopped(pos, EndOfInput)
    else
      var typed := Normalize(lines[pos]);
      var rowOk := ValidateRow(PyStr(typed), rowIndices, h);
      if rowOk.Err? then Stopped(pos + 1, rowOk.error)
      else if !rowOk.value then Refused(pos + 1)
      else if pos + 1 == |lines| then Stopped(pos + 1, EndOfInput)
      else
        match ParseInt(lines[pos + 1])
        case None => Refused(pos + 2)
        case Some(p) =>
          if ValidatePlace(PyInt(p), h) != Ok(true) then Refused(pos + 2)
          else
            NormalizeIdempotent(lines[pos]);
            Chosen(pos + 2, typed, p)
  }

  /** A seat is only ever chosen from a row line the row validator accepts
      and a place line holding a number the place validator accepts. */
  lemma ChosenIsValidated(h: Hall, rowIndices: map<string, int>, lines: seq<string>, pos: nat)
    requires pos <= |lines| && ReadSeat(h, rowIndices, lines, pos).Chosen?
    ensures var q := ReadSeat(h, rowIndices, lines, pos);
      pos + 1 < |lines| && q.typed == Normalize(lines[pos]) && ParseInt(lines[pos + 1]) == Some(q.place) &&
      ValidateRow(PyStr(lines[pos]), rowIndices, h) == Ok(true) && ValidatePlace(PyInt(q.place), h) == Ok(true)
  {
    RowLabelIgnoresCaseAndBlanks(lines[pos], rowIndices, h);
  }

  /** A row line naming a row of the hall, followed by a place line naming
      a seat of that row, is chosen. */
  lemma ValidLinesAreChosen(h: Hall, rowIndices: map<string, int>, lines: seq<string>, pos: nat, typed: string, p: int)
    requires IsNdArray(h) && pos + 1 < |lines|
    requires typed == Normalize(lines[pos]) && typed in rowIndices && rowIndices[typed] < Rows(h)
    requires ParseInt(lines[pos + 1]) == Some(p) && 1 <= p <= Cols(h)
    ensures ReadSeat(h, rowIndices, lines, pos) == Chosen(pos + 2, typed, p)
  {
    NormalizeIdempotent(lines[pos]);
  }

  /** The booking part of one pass of the loop body, for the request q over
      the hall h whose current grid is cells: for a chosen seat, an index
      from the row map below -rows raises IndexError, reported as
      IncorrectShape; a seat holding 0 is booked, one holding 1 is refused
      as taken, and any other content raises IncorrectArrayData. */
  function Apply(h: Hall, rowIndices: map<string, int>, q: Request, cells: seq<seq<int>>): (r: Outcome)
    requires Fits(h, cells)
    requires q.Chosen? ==>
      IsNdArray(h) && q.typed in rowIndices && rowIndices[q.typed] < Rows(h) && 1 <= q.place <= Cols(h)
    ensures r.next == q.next
    ensures r.Fail? ==> q.Stopped? || r.error.IncorrectShape? || r.error.IncorrectArrayData?
    ensures q.Stopped? ==> r == Fail(q.next, q.error)
    ensures r.Commit? ==>
      q.Chosen? && h.NdArray? && r.typed == q.typed && r.place == q.place &&
      r.row == RowOf(rowIndices[r.typed], Rows(h)) && r.row < Rows(h) && r.col < Cols(h) &&
      r.place == r.col + 1 && cells[r.row][r.col] == 0
  {
    match q
    case Stopped(n, e) => Fail(n, e)
    case Refused(n) => Reject(n)
    case Chosen(n, typed, p) =>
      var index := rowIndices[typed];
      if index + Rows(h) < 0 then Fail(n, IncorrectShape)
      else if h.TextArray? then Fail(n, IncorrectArrayData)
      else
        var row: nat := RowOf(index, Rows(h));
        var col: nat := p - 1;
        if cells[row][col] == 0 then Commit(n, typed, p, row, col)
        else if cells[row][col] == 1 then Reject(n)
        else Fail(n, IncorrectArrayData)
  }

  /** One pass of the loop body, from line pos on, over the hall h whose
      current grid is cells. */
  function Attempt(h: Hall, rowIndices: map<string, int>, lines: seq<string>, pos: nat, cells: seq<seq<int>>): (r: Outcome)
    requires pos <= |lines| && Fits(h, cells)
    ensures r.next <= |lines| && (!r.Fail? ==> pos < r.next)
    ensures pos == |lines| ==> r == Fail(pos, EndOfInput)
    ensures pos < |lines| && !IsNdArray(h) ==> r == Fail(pos + 1, IncorrectArrayType)
    ensures r.Fail? ==> LoopError(r.error)
    ensures r.Commit? ==>
      h.NdArray? && r.typed in rowIndices && r.row == RowOf(rowIndices[r.typed], Rows(h)) &&
      r.row < Rows(h) && r.col < Cols(h) && r.place == r.col + 1 && cells[r.row][r.col] == 0
  {
    Apply(h, rowIndices, ReadSeat(h, rowIndices, lines, pos), cells)
  }

  /** A chosen seat holding 0 is booked. */
  lemma ChosenFreeSeat(h: Hall, rowIndices: map<string, int>, n: nat, cells: seq<seq<int>>, typed: string, p: int)
    requires h.NdArray? && IsGrid(cells, Rows(h), Cols(h))
    requires typed in rowIndices && 0 <= rowIndices[typed] < Rows(h) && 1 <= p <= Cols(h)
    requires cells[rowIndices[typed]][p - 1] == 0
    ensures Apply(h, rowIndices, Chosen(n, typed, p), cells) == Commit(n, typed, p, rowIndices[typed], p - 1)
  {
  }

  /** A chosen seat holding 1 is refused. */
  lemma ChosenTakenSeat(h: Hall, rowIndices: map<string, int>, n: nat, cells: seq<seq<int>>, typed: string, p: int)
    requires h.NdArray? && IsGrid(cells, Rows(h), Cols(h))
    requires typed in rowIndices && 0 <= rowIndices[typed] < Rows(h) && 1 <= p <= Cols(h)
    requires cells[rowIndices[typed]][p - 1] == 1
    ensures Apply(h, rowIndices, Chosen(n, typed, p), cells) == Reject(n)
  {
  }

  /** A valid row and place naming a free seat books it. */
  lemma FreeSeatIsBooked(h: Hall, rowIndices: map<string, int>, lines: seq<string>, pos: nat, cells: seq<seq<int>>,
                         typed: string, p: int)
    requires h.NdArray? && IsGrid(cells, Rows(h), Cols(h)) && pos + 1 < |lines|
    requires typed == Normalize(lines[pos]) && typed in rowIndices && 0 <= rowIndices[typed] < Rows(h)
    requires ParseInt(lines[pos + 1]) == Some(p) && 1 <= p <= Cols(h)
    requires cells[rowIndices[typed]][p - 1] == 0
    ensures Attempt(h, rowIndices, lines, pos, cells) == Commit(pos + 2, typed, p, rowIndices[typed], p - 1)
  {
    ValidLinesAreChosen(h, rowIndices, lines, pos, typed, p);
    ChosenFreeSeat(h, rowIndices, pos + 2, cells, typed, p);
  }

  /** A valid row and place naming a taken seat is refused, and the next
      attempt starts after the two lines. */
  lemma TakenSeatIsRefused(h: Hall, rowIndices: map<string, int>, lines: seq<string>, pos: nat, cells: seq<seq<int>>,
                           typed: string, p: int)
    requires h.NdArray? && IsGrid(cells, Rows(h), Cols(h)) && pos + 1 < |lines|
    requires typed == Normalize(lines[pos]) && typed in rowIndices && 0 <= rowIndices[typed] < Rows(h)
    requires ParseInt(lines[pos + 1]) == Some(p) && 1 <= p <= Cols(h)
    requires cells[rowIndices[typed]][p - 1] == 1
    ensures Attempt(h, rowIndices, lines, pos, cells) == Reject(pos + 2)
  {
    ValidLinesAreChosen(h, rowIndices, lines, pos, typed, p);
    ChosenTakenSeat(h, rowIndices, pos + 2, cells, typed, p);
  }

  /** IncorrectArrayData is raised only for a hall of text or a grid cell
      holding something other than 0 or 1. */
  lemma CorruptCellRaises(h: Hall, rowIndices: map<string, int>, q: Request, cells: seq<seq<int>>)
    requires Fits(h, cells)
    requires q.Chosen? ==>
      IsNdArray(h) && q.typed in rowIndices && rowIndices[q.typed] < Rows(h) && 1 <= q.place <= Cols(h)
    requires q.Stopped? ==> q.error.EndOfInput? || q.error.IncorrectArrayType?
    requires Apply(h, rowIndices, q, cells).Fail? && Apply(h, rowIndices, q, cells).error.IncorrectArrayData?
    ensures h.TextArray? || !IsBinary(cells)
  {
    if h.NdArray? {
      var row := RowOf(rowIndices[q.typed], Rows(h));
      assert cells[row][q.place - 1] != 0 && cells[row][q.place - 1] != 1;
    }
  }

  /** How the loop ended: the requested number of seats is held, or an
      exception left it. */
  datatype Status = Booked | Raised(error: Error)

  /** The loop's end state: its status, the hall grid, the booked seats as
      (row label, place) in booking order, and the next unread line. */
  datatype Booking = Booking(status: Status, cells: seq<seq<int>>, places: seq<(string, int)>, next: nat)

  /** The seat, as (row, column), that a booked (label, place) occupies. */
  function Seat(rowIndices: map<string, int>, rows: nat, place: (string, int)): (int, int)
    requires place.0 in rowIndices
  {
    (RowOf(rowIndices[place.0], rows), place.1 - 1)
  }

  predicate IsTaken(cells: seq<seq<int>>, seat: (int, int)) {
    0 <= seat.0 < |cells| && 0 <= seat.1 < |cells[seat.0]| && cells[seat.0][seat.1] == 1
  }

  /** Every booked place names a seat marked taken in cells, and no seat is
      booked twice. */
  predicate Recorded(cells: seq<seq<int>>, rowIndices: map<string, int>, rows: nat, places: seq<(string, int)>) {
    (forall k :: 0 <= k < |places| ==> places[k].0 in rowIndices && IsTaken(cells, Seat(rowIndices, rows, places[k]))) &&
    (forall a, b :: 0 <= a < b < |places| && places[a].0 in rowIndices && places[b].0 in rowIndices ==>
      Seat(rowIndices, rows, places[a]) != Seat(rowIndices, rows, places[b]))
  }

  /** Booking a free seat keeps the booked places recorded and distinct. */
  lemma CommitKeepsRecorded(cells: seq<seq<int>>, rowIndices: map<string, int>, rows: nat,
                            places: seq<(string, int)>, typed: string, place: int, row: nat, col: nat)
    requires Recorded(cells, rowIndices, rows, places)
    requires typed in rowIndices && row == RowOf(rowIndices[typed], rows) && col == place - 1
    requires row < |cells| && col < |cells[row]| && cells[row][col] == 0
    ensures Recorded(Set(cells, row, col, 1), rowIndices, rows, places + [(typed, place)])
  {
    var cells' := Set(cells, row, col, 1);
    var places' := places + [(typed, place)];
    forall k | 0 <= k < |places'|
      ensures places'[k].0 in rowIndices && IsTaken(cells', Seat(rowIndices, rows, places'[k]))
    {
      if k < |places| {
        assert places'[k] == places[k];
        assert IsTaken(cells, Seat(rowIndices, rows, places[k]));
      }
    }
    forall a, b | 0 <= a < b < |places'| && places'[a].0 in rowIndices && places'[b].0 in rowIndices
      ensures Seat(rowIndices, rows, places'[a]) != Seat(rowIndices, rows, places'[b])
    {
      assert places'[a] == places[a];
      assert IsTaken(cells, Seat(rowIndices, rows, places[a]));
      if b == |places| {
        assert Seat(rowIndices, rows, places'[b]) == (row, col);
      } else {
        assert places'[b] == places[b];
      }
    }
  }

  /** The loop `while len(places) != num_places`, from line pos on, with the
      hall grid cells and the places booked so far.  It ends Booked exactly
      when the requested number of seats is held; a count the validator
      would refuse (negative, or above the free seats) keeps it reading
      until the console is used up. */
  function BookFrom(h: Hall, rowIndices: map<string, int>, numPlaces: int, lines: seq<string>, pos: nat,
                    cells: seq<seq<int>>, places: seq<(string, int)>): (b: Booking)
    requires pos <= |lines| && Fits(h, cells)
    ensures Fits(h, b.cells) && pos <= b.next <= |lines|
    ensures b.status.Booked? ==> |b.places| == numPlaces
    ensures |places| == numPlaces ==> b == Booking(Booked, cells, places, pos)
    decreases |lines| - pos
  {
    if |places| == numPlaces then Booking(Booked, cells, places, pos)
    else
      match Attempt(h, rowIndices, lines, pos, cells)
      case Fail(next, e) => Booking(Raised(e), cells, places, next)
      case Reject(next) => BookFrom(h, rowIndices, numPlaces, lines, next, cells, places)
      case Commit(next, typed, place, row, col) =>
        BookFrom(h, rowIndices, numPlaces, lines, next, Set(cells, row, col, 1), places + [(typed, place)])
  }

  /** The loop only appends to the booked places, and each booking adds one
      to the hall's sum. */
  lemma {:induction false} BookingCountsSeats(h: Hall, rowIndices: map<string, int>, numPlaces: int, lines: seq<string>,
                                              pos: nat, cells: seq<seq<int>>, places: seq<(string, int)>)
    requires pos <= |lines| && Fits(h, cells)
    ensures var b := BookFrom(h, rowIndices, numPlaces, lines, pos, cells, places);
      |places| <= |b.places| && b.places[..|places|] == places &&
      Sum(b.cells) == Sum(cells) + (|b.places| - |places|)
    decreases |lines| - pos
  {
    if |places| != numPlaces {
      var r := Attempt(h, rowIndices, lines, pos, cells);
      if r.Reject? {
        BookingCountsSeats(h, rowIndices, numPlaces, lines, r.next, cells, places);
      } else if r.Commit? {
        var places' := places + [(r.typed, r.place)];
        SumUpdate(cells, r.row, r.col, 1);
        BookingCountsSeats(h, rowIndices, numPlaces, lines, r.next, Set(cells, r.row, r.col, 1), places');
        assert places'[..|places|] == places;
      }
    }
  }

  /** The loop changes only free seats, and only to taken; the hall keeps
      its shape. */
  lemma {:induction false} BookingTakesOnlyFreeSeats(h: Hall, rowIndices: map<string, int>, numPlaces: int, lines: seq<string>,
                                                     pos: nat, cells: seq<seq<int>>, places: seq<(string, int)>)
    requires pos <= |lines| && Fits(h, cells)
    ensures var b := BookFrom(h, rowIndices, numPlaces, lines, pos, cells, places);
      |b.cells| == |cells| && (forall i :: 0 <= i < |cells| ==> |b.cells[i]| == |cells[i]|) &&
      forall i, j :: 0 <= i < |cells| && 0 <= j < |cells[i]| && b.cells[i][j] != cells[i][j] ==>
        cells[i][j] == 0 && b.cells[i][j] == 1
    decreases |lines| - pos
  {
    if |places| != numPlaces {
      var r := Attempt(h, rowIndices, lines, pos, cells);
      if r.Reject? {
        BookingTakesOnlyFreeSeats(h, rowIndices, numPlaces, lines, r.next, cells, places);
      } else if r.Commit? {
        BookingTakesOnlyFreeSeats(h, rowIndices, numPlaces, lines, r.next, Set(cells, r.row, r.col, 1), places + [(r.typed, r.place)]);
      }
    }
  }

  /** Every seat the loop books is marked taken and booked once only. */
  lemma {:induction false} BookingKeepsRecorded(h: Hall, rowIndices: map<string, int>, numPlaces: int, lines: seq<string>,
                                                pos: nat, cells: seq<seq<int>>, places: seq<(string, int)>)
    requires pos <= |lines| && h.NdArray? && IsGrid(cells, Rows(h), Cols(h))
    requires Recorded(cells, rowIndices, Rows(h), places)
    ensures var b := BookFrom(h, rowIndices, numPlaces, lines, pos, cells, places);
      Recorded(b.cells, rowIndices, Rows(h), b.places)
    decreases |lines| - pos
  {
    if |places| != numPlaces {
      var r := Attempt(h, rowIndices, lines, pos, cells);
      if r.Reject? {
        BookingKeepsRecorded(h, rowIndices, numPlaces, lines, r.next, cells, places);
      } else if r.Commit? {
        CommitKeepsRecorded(cells, rowIndices, Rows(h), places, r.typed, r.place, r.row, r.col);
        BookingKeepsRecorded(h, rowIndices, numPlaces, lines, r.next, Set(cells, r.row, r.col, 1), places + [(r.typed, r.place)]);
      }
    }
  }

  /** The exceptions that can leave the loop, and a hall of the wrong kind
      is left as it was with nothing booked. */
  lemma {:induction false} BookingErrors(h: Hall, rowIndices: map<string, int>, numPlaces: int, lines: seq<string>,
                                         pos: nat, cells: seq<seq<int>>, places: seq<(string, int)>)
    requires pos <= |lines| && Fits(h, cells)
    ensures var b := BookFrom(h, rowIndices, numPlaces, lines, pos, cells, places);
      (b.status.Raised? ==> LoopError(b.status.error)) &&
      (!h.NdArray? ==> b.cells == cells && b.places == places)
    decreases |lines| - pos
  {
    if |places| != numPlaces {
      var r := Attempt(h, rowIndices, lines, pos, cells);
      if r.Reject? {
        BookingErrors(h, rowIndices, numPlaces, lines, r.next, cells, places);
      } else if r.Commit? {
        BookingErrors(h, rowIndices, numPlaces, lines, r.next, Set(cells, r.row, r.col, 1), places + [(r.typed, r.place)]);
      }
    }
  }

  predicate IsFree(cells: seq<seq<int>>, seat: (int, int)) {
    0 <= seat.0 < |cells| && 0 <= seat.1 < |cells[seat.0]| && cells[seat.0][seat.1] == 0
  }

  /** The places from index `from` on name seats free in cells. */
  predicate FreeBefore(cells: seq<seq<int>>, rowIndices: map<string, int>, rows: nat, places: seq<(string, int)>, from: nat) {
    forall k :: from <= k < |places| ==> places[k].0 in rowIndices && IsFree(cells, Seat(rowIndices, rows, places[k]))
  }

  /** Every seat the loop books was free when the loop started. */
  lemma {:induction false} BookingBooksFreeSeats(h: Hall, rowIndices: map<string, int>, numPlaces: int, lines: seq<string>,
                                                 pos: nat, cells: seq<seq<int>>, places: seq<(string, int)>)
    requires pos <= |lines| && h.NdArray? && IsGrid(cells, Rows(h), Cols(h))
    ensures FreeBefore(cells, rowIndices, Rows(h), BookFrom(h, rowIndices, numPlaces, lines, pos, cells, places).places, |places|)
    decreases |lines| - pos
  {
    var b := BookFrom(h, rowIndices, numPlaces, lines, pos, cells, places);
    var r := Attempt(h, rowIndices, lines, pos, cells);
    if |places| == numPlaces || r.Fail? {
      assert b.places == places;
    } else if r.Reject? {
      BookingBooksFreeSeats(h, rowIndices, numPlaces, lines, r.next, cells, places);
    } else {
      var cells' := Set(cells, r.row, r.col, 1);
      var places' := places + [(r.typed, r.place)];
      assert b == BookFrom(h, rowIndices, numPlaces, lines, r.next, cells', places');
      BookingCountsSeats(h, rowIndices, numPlaces, lines, r.next, cells', places');
      BookingBooksFreeSeats(h, rowIndices, numPlaces, lines, r.next, cells', places');
      assert b.places[|places|] == b.places[..|places'|][|places|] == (r.typed, r.place);
      FreeBeforeCommit(cells, rowIndices, Rows(h), b.places, |places|, r.row, r.col);
    }
  }

  /** A seat free after setting (row, col) to 1 was free before; so was
      (row, col) itself, when it was free to be booked. */
  lemma FreeBeforeCommit(cells: seq<seq<int>>, rowIndices: map<string, int>, rows: nat,
                         places: seq<(string, int)>, from: nat, row: nat, col: nat)
    requires row < |cells| && col < |cells[row]| && cells[row][col] == 0
    requires from < |places| && places[from].0 in rowIndices && Seat(rowIndices, rows, places[from]) == (row, col)
    requires FreeBefore(Set(cells, row, col, 1), rowIndices, rows, places, from + 1)
    ensures FreeBefore(cells, rowIndices, rows, places, from)
  {
    forall k | from < k < |places|
      ensures IsFree(cells, Seat(rowIndices, rows, places[k]))
    {
      assert IsFree(Set(cells, row, col, 1), Seat(rowIndices, rows, places[k]));
    }
  }

  /** A booking that completes holds exactly the requested seats, each of
      them free before and taken after, none of them twice, and the hall's
      sum has grown by their number. */
  lemma CompletedBooking(h: Hall, rowIndices: map<string, int>, numPlaces: int,
                         lines: seq<string>, pos: nat, cells: seq<seq<int>>)
    requires h.NdArray? && IsGrid(cells, Rows(h), Cols(h)) && pos <= |lines|
    requires BookFrom(h, rowIndices, numPlaces, lines, pos, cells, []).status.Booked?
    ensures var b := BookFrom(h, rowIndices, numPlaces, lines, pos, cells, []);
      |b.places| == numPlaces && Sum(b.cells) == Sum(cells) + numPlaces &&
      Recorded(b.cells, rowIndices, Rows(h), b.places) &&
      FreeBefore(cells, rowIndices, Rows(h), b.places, 0)
  {
    BookingCountsSeats(h, rowIndices, numPlaces, lines, pos, cells, []);
    BookingKeepsRecorded(h, rowIndices, numPlaces, lines, pos, cells, []);
    BookingBooksFreeSeats(h, rowIndices, numPlaces, lines, pos, cells, []);
  }

  /** A hall with no free seat cannot take even one booking: the loop can
      only end by an exception. */
  lemma {:induction false} FullHallBooksNothing(h: Hall, rowIndices: map<string, int>, numPlaces: int,
                                                lines: seq<string>, pos: nat, cells: seq<seq<int>>)
    requires h.NdArray? && IsGrid(cells, Rows(h), Cols(h)) && pos <= |lines| && numPlaces > 0
    requires forall i, j :: 0 <= i < Rows(h) && 0 <= j < Cols(h) ==> cells[i][j] != 0
    ensures BookFrom(h, rowIndices, numPlaces, lines, pos, cells, []).status.Raised?
    ensures BookFrom(h, rowIndices, numPlaces, lines, pos, cells, []).places == []
    decreases |lines| - pos
  {
    var r := Attempt(h, rowIndices, lines, pos, cells);
    if r.Reject? {
      FullHallBooksNothing(h, rowIndices, numPlaces, lines, r.next, cells);
    }
  }

  /** After `a[row, col] := 1`, the array holds the old grid with that one
      cell set. */
  lemma SetCell(a: array2<int>, before: seq<seq<int>>, row: nat, col: nat)
    requires IsGrid(before, a.Length0, a.Length1) && row < a.Length0 && col < a.Length1
    requires a[row, col] == 1
    requires forall i, j :: 0 <= i < a.Length0 && 0 <= j < a.Length1 && (i, j) != (row, col) ==> a[i, j] == before[i][j]
    ensures Cells(a) == Set(before, row, col, 1)
  {
    var after := Cells(a);
    var set' := Set(before, row, col, 1);
    forall i | 0 <= i < a.Length0
      ensures after[i] == set'[i]
    {
      assert forall j :: 0 <= j < a.Length1 ==> after[i][j] == set'[i][j];
    }
  }

  /** The booking part of one pass on the hall array itself: when it books,
      it writes 1 into the chosen cell and changes nothing else. */
  method ApplyInPlace(h: Hall, rowIndices: map<string, int>, q: Request) returns (r: Outcome)
    requires q.Chosen? ==>
      IsNdArray(h) && q.typed in rowIndices && rowIndices[q.typed] < Rows(h) && 1 <= q.place <= Cols(h)
    modifies Frame(h)
    ensures r == Apply(h, rowIndices, q, old(Contents(h)))
    ensures r.Commit? ==> Contents(h) == Set(old(Contents(h)), r.row, r.col, 1)
    ensures !r.Commit? ==> Contents(h) == old(Contents(h))
  {
    ghost var cells := Contents(h);
    match q
    case Stopped(n, e) =>
      return Fail(n, e);
    case Refused(n) =>
      return Reject(n);
    case Chosen(n, typed, p) =>
      var index := rowIndices[typed];
      if index + Rows(h) < 0 {
        return Fail(n, IncorrectShape);
      }
      if h.TextArray? {
        return Fail(n, IncorrectArrayData);
      }
      var row := RowOf(index, Rows(h));
      var col := p - 1;
      if h.a[row, col] == 0 {
        h.a[row, col] := 1;
        SetCell(h.a, cells, row, col);
        r := Commit(n, typed, p, row, col);
      } else if h.a[row, col] == 1 {
        r := Reject(n);
      } else {
        r := Fail(n, IncorrectArrayData);
      }
  }

  /** One pass of book_seats' loop body on the hall array itself: it reads
      the row and place lines from pos on and, when it books, writes 1 into
      the chosen cell and changes nothing else. */
  method TrySeat(h: Hall, rowIndices: map<string, int>, lines: seq<string>, pos: nat) returns (r: Outcome)
    requires pos <= |lines|
    modifies Frame(h)
    ensures r == Attempt(h, rowIndices, lines, pos, old(Contents(h)))
    ensures r.Commit? ==> Contents(h) == Set(old(Contents(h)), r.row, r.col, 1)
    ensures !r.Commit? ==> Contents(h) == old(Contents(h))
  {
    var q := ReadSeat(h, rowIndices, lines, pos);
    r := ApplyInPlace(h, rowIndices, q);
  }

  /** book_seats: the loop run on the hall array itself, reading from line
      start on; the array ends as BookFrom's grid, and the status, booked
      places and next unread line are BookFrom's.  A completed booking goes
      on to print its summary, which cannot fail (BookedSeatsSummary), and
      returns the array. */
  method BookSeats(h: Hall, rowIndices: map<string, int>, numPlaces: int, lines: seq<string>, start: nat)
      returns (status: Status, places: seq<(string, int)>, next: nat)
    requires start <= |lines|
    modifies Frame(h)
    ensures var b := BookFrom(h, rowIndices, numPlaces, lines, start, old(Contents(h)), []);
      status == b.status && places == b.places && next == b.next && Contents(h) == b.cells
  {
    ghost var target := BookFrom(h, rowIndices, numPlaces, lines, start, Contents(h), []);
    places := [];
    var pos := start;
    while |places| != numPlaces
      invariant pos <= |lines|
      invariant BookFrom(h, rowIndices, numPlaces, lines, pos, Contents(h), places) == target
      decreases |lines| - pos
    {
      var r := TrySeat(h, rowIndices, lines, pos);
      match r
      case Fail(n, e) =>
        return Raised(e), places, n;
      case Reject(n) =>
        pos := n;
      case Commit(n, typed, p, _, _) =>
        places := places + [(typed, p)];
        pos := n;
    }
    status, next := Booked, pos;
  }
}
