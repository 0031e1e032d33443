# Cinema seat booking, modelled in Dafny

A terminal application for booking cinema seats. A curses menu lists the
movie titles found in a directory of saved halls. For the chosen title, the
hall is drawn as a grid of seats. ENTER starts a console dialogue that asks
how many seats to book, then asks for a row label and a seat number for each
seat. Each free seat chosen is marked taken in the hall array. The halls are
stored as CSV files with a three-line header: the title, a rule, and the
number of seats taken.

This project models the core of that program:

- `visualisation.py`:
  - the console validators;
  - the in-place booking loop `book_seats`;
  - the dispatch logic of `display_image` and `show_seats`.
- `load_save_data.py`: title repair, the CSV header, the batch creation of
  empty halls and the decisions of `save_csv_data`.
- `menu.py`: the cursor state machine and the layout arithmetic of the menu.
- `meta_data.py`: the rule that turns a file name back into a title.

Modules:

| file | module | what it holds |
|---|---|---|
| `py.dfy` | `Py` | Python values and exceptions; `str.strip`, `str.upper`, `str.split`, `str.join`, `int()` and `str()` |
| `halls.dfy` | `Halls` | the hall argument (a numeric numpy array, a numpy array of text, another object, None) and its grid |
| `validators.dfy` | `Validators` | `validate_row`, `validate_place`, `validate_num_places`, `display_chosen_seats` |
| `booking.dfy` | `Booking` | `book_seats`: one pass of the loop, the whole loop as a function, and the method that updates the array in place |
| `display.dfy` | `Display` | `display_image` and `show_seats`: the guards, the key loop, the count prompt, the hand-over to the booking |
| `storage.dfy` | `Storage` | `repair_title`, `create_txt_info`, `create_seats_array`, `save_csv_data` |
| `menu.dfy` | `Menu` | `main_menu` and `display_menu` |
| `metadata.dfy` | `MetaData` | `get_titles_dir` |

Console input is the finite sequence of lines still to be read. When it runs
out, `input()` raises EOFError (`EndOfInput`).

Key presses (`cv2.waitKey`, `getch`) are a finite sequence. When a dialogue
runs out of keys it ends in an "awaiting key" outcome, because the real
program blocks there.

The outcome of a file write is a parameter. It is either success, a missing
directory (FileNotFoundError) or a refused path (TypeError).

## Model

| member | source | states |
|---|---|---|
| Py.Strip | visualisation.py:269 | `str.strip()`: the result has no whitespace at either end and is no longer than the input; an already trimmed string comes back unchanged |
| Py.StripRemovesBlanks | visualisation.py:269 | what `str.strip()` keeps is a slice of the input with only whitespace before and after it, so `" a "` strips to `"a"` |
| Py.Upper | visualisation.py:195-199 | `str.upper()`: same length, and each character is upper-cased on its own |
| Py.NormalizeIdempotent | visualisation.py:195-199 | stripping and upper-casing a row label twice is the same as doing it once, so the validator's second normalization changes nothing |
| Py.Split | meta_data.py:61 | `str.split(sep)`: at least one piece, and no piece holds the separator |
| Py.JoinSplit | meta_data.py:61 | joining the pieces of a split with the separator restores the string |
| Py.SplitJoin | load_save_data.py:69 | splitting pieces joined with a separator that none of them holds gives the pieces back |
| Py.SplitAppend | meta_data.py:61 | the pieces of `a + sep + b` are the pieces of `a` followed by the pieces of `b` |
| Py.ParseIgnoresBlanks | visualisation.py:272 | `int()` reads a line the same way with or without the whitespace around it, and refuses a blank line |
| Py.ParseUnsigned | visualisation.py:272 | `int()` reads a string of decimal digits as its value |
| Py.ParseNegative | visualisation.py:95-96 | `int()` reads a minus sign followed by digits as the negated value |
| Py.ParseIntToString | visualisation.py:95-96 | `int(str(n)) == n` for every integer |
| Halls.Cells | visualisation.py:275-276 | the grid read from the array has the array's shape and holds its cells |
| Halls.Set | visualisation.py:276 | writing one cell changes that cell and nothing else, and keeps the shape |
| Halls.SumUpdate | load_save_data.py:69 | writing v over one cell changes `seats_array.sum()` by v minus the old value |
| Halls.ZerosSum | load_save_data.py:105 | a fresh hall of zeros has no taken seat |
| Halls.FreeIsZeroCount | visualisation.py:100-107 | when every cell is 0 or 1, size minus sum (the validator's free capacity) is exactly the number of free seats |
| Validators.ValidateRow | visualisation.py:168-202 | a hall of the wrong kind raises IncorrectArrayType; a list label raises TypeError; the answer is True exactly when the stripped, upper-cased label is a key whose index is below the number of rows |
| Validators.RowLabelIgnoresCaseAndBlanks | visualisation.py:195-199 | a row label is accepted or refused regardless of surrounding blanks and letter case |
| Validators.ValidatePlace | visualisation.py:205-234 | a hall of the wrong kind raises IncorrectArrayType; otherwise True exactly for an int between 1 and the number of seats in a row |
| Validators.ValidateNumPlaces | visualisation.py:68-118 | an unparsable string gives None before the hall is examined; a hall of the wrong kind raises IncorrectArrayType; a hall of text raises IncorrectArrayData; on a numeric hall an int is accepted exactly when it lies between 0 and the free capacity, and is refused with None otherwise |
| Validators.Answer | visualisation.py:95-112 | the answer to a typed line on a numeric hall: its number exactly when it parses and lies between 0 and the free capacity |
| Validators.AnswerIsValidated | visualisation.py:68-118 | on a numeric hall the validator's answer to a typed line is that answer |
| Validators.CountTextMatchesInt | visualisation.py:95-96 | typing a number gives the same answer as passing the number itself |
| Validators.AcceptedCountFitsFreeSeats | visualisation.py:100-112 | on a hall of 0s and 1s an accepted count never exceeds the number of free seats |
| Validators.SummarizeSeats | visualisation.py:57-63 | the summary fails with IncorrectlyChosenSeats exactly when some entry does not have length 2; otherwise it prints both items of each entry, in order |
| Validators.DisplayChosenSeats | visualisation.py:36-65 | None gives the "no seats" notice; a non-iterable raises IncorrectlyChosenSeats; otherwise it succeeds exactly when every entry is a pair |
| Validators.BookedSeatsSummary | visualisation.py:135-165 | the summary of the booked `(row, place)` tuples never raises and lists each seat's label and place in booking order |
| Booking.RowOf | visualisation.py:275 | numpy's reading of a row index: a negative index counts from the end, and stays in range when it is at least minus the number of rows |
| Booking.ReadSeat | visualisation.py:266-290 | the reading part of one attempt: EOFError at the end of input; IncorrectArrayType for a hall of the wrong kind; a chosen seat always names an accepted row and a place between 1 and the number of seats in a row, and consumes two lines |
| Booking.ChosenIsValidated | visualisation.py:269-273 | a seat is chosen only from a row line that `validate_row` accepts and a place line holding a number that `validate_place` accepts |
| Booking.ValidLinesAreChosen | visualisation.py:269-273 | conversely, a valid row line followed by a valid place line is chosen |
| Booking.Apply | visualisation.py:275-294 | a chosen cell holding 0 is booked at the row index numpy reads; one holding 1 is refused; any other value raises IncorrectArrayData; a row index below minus the number of rows raises IncorrectShape |
| Booking.Attempt | visualisation.py:266-294 | one pass of the loop body; it ends only with the loop's own exceptions, and books only a free cell in range |
| Booking.FreeSeatIsBooked | visualisation.py:275-279 | valid lines naming a free seat book it |
| Booking.TakenSeatIsRefused | visualisation.py:280-282 | valid lines naming a taken seat are refused, and the next attempt reads the following lines |
| Booking.CorruptCellRaises | visualisation.py:283-284 | IncorrectArrayData is raised only for a hall of text or a cell holding neither 0 nor 1 |
| Booking.CommitKeepsRecorded | visualisation.py:275-278 | booking a free seat keeps every booked place marked taken and all of them distinct |
| Booking.BookFrom | visualisation.py:266-294 | the loop ends Booked only with exactly the requested number of places, keeps the grid's shape and never reads backwards |
| Booking.BookingCountsSeats | visualisation.py:266-279 | the loop only appends to the booked places, and the hall's sum grows by one per booked seat |
| Booking.BookingTakesOnlyFreeSeats | visualisation.py:275-276 | the loop changes only free cells, and only to taken; the shape is kept |
| Booking.BookingKeepsRecorded | visualisation.py:275-278 | every booked place names a seat marked taken, and no seat is booked twice |
| Booking.BookingErrors | visualisation.py:289-294 | the loop raises only EOFError, IncorrectArrayType, IncorrectShape or IncorrectArrayData; a hall of the wrong kind is left unchanged, with nothing booked |
| Booking.BookingBooksFreeSeats | visualisation.py:275-279 | every seat the loop books was free when the loop started |
| Booking.CompletedBooking | visualisation.py:266-299 | a completed booking holds exactly the requested seats, each free before and taken after, none twice, and the sum grows by their number |
| Booking.FullHallBooksNothing | visualisation.py:266-294 | on a hall with no free seat the loop books nothing and can only end with an exception |
| Booking.ApplyInPlace | visualisation.py:275-284 | the booking step on the array itself: it returns Apply's outcome, writes 1 into the booked cell and changes nothing else |
| Booking.TrySeat | visualisation.py:266-294 | one pass of the loop body on the array itself: Attempt's outcome, with only the booked cell changed |
| Booking.BookSeats | visualisation.py:237-302 | `book_seats` on the array itself: the array ends as BookFrom's grid, and the status, places and next line are BookFrom's |
| Display.KeyCode | visualisation.py:632 | `key & 0xFF` lies between 0 and 255 and leaves a byte unchanged |
| Display.FirstDecisive | visualisation.py:628-636 | the first key press that is ESC or ENTER; every key before it only shows the hall again |
| Display.ReadCount | visualisation.py:647-652 | the count prompt: EOFError at the end of input, otherwise a count between 0 and the free seats and the line after it |
| Display.CountIsFirstAccepted | visualisation.py:647-652 | the count read is the first accepted answer, every earlier answer having been refused; EOFError means every remaining answer was refused |
| Display.Finish | visualisation.py:296-302 | an interrupted booking passes its exception on; a completed one reports its places |
| Display.Enter | visualisation.py:636-667 | the ENTER branch: a hall of text raises IncorrectArrayData; an accepted count of 0 returns None with the hall unchanged, and that happens exactly when the hall is not full and 0 is the first accepted answer; a positive count runs the booking loop from the next line and reports its outcome |
| Display.DisplayImageSpec | visualisation.py:584-667 | no movie returns None; a hall of the wrong kind raises IncorrectArrayType; a row map shorter than the hall raises IncorrectShape, all before any key is read |
| Display.EscapeLeavesHall | visualisation.py:633-635 | ESC before any ENTER returns None and leaves the hall unchanged |
| Display.FullHallIsRefused | visualisation.py:628-663 | ENTER on a full hall of 0s and 1s, after any number of key presses that are neither ESC nor ENTER, books nothing and leaves the hall unchanged |
| Display.EnterChangesOnlyByBooking | visualisation.py:636-667 | the ENTER branch raises only the booking loop's exceptions, and changes the hall only by turning free seats into taken ones |
| Display.DisplayChangesOnlyByBooking | visualisation.py:584-667 | `display_image` raises only its guards' and the loop's exceptions; every outcome other than a booking leaves the hall unchanged; a booking, even one cut short, only turns free seats into taken ones |
| Display.EnterBooksAcceptedCount | visualisation.py:647-658 | a booking in the ENTER branch holds exactly the count accepted at the prompt, each seat free before and taken after and none twice, and prints them in booking order |
| Display.DisplayBooksAcceptedCount | visualisation.py:584-667 | a booking through `display_image` holds exactly the accepted count, at least one seat, each free before and taken after, none twice; the hall's sum grows by that count |
| Display.BookingIsConfirmed | visualisation.py:296-302 | a completed booking is always confirmed: the summary cannot raise, so `display_image` never returns None after it |
| Display.WaitForKey | visualisation.py:628-636 | the key loop stops at the first ESC or ENTER |
| Display.AskCount | visualisation.py:647-652 | the count prompt asks `validate_num_places` about each line until it accepts one, giving ReadCount's result |
| Display.DisplayImage | visualisation.py:584-667 | `display_image` on the array itself: its result and the array's final contents are DisplayImageSpec's |
| Display.ShowSeatsSpec | visualisation.py:670-769 | None raises TypeError; an empty hall raises IncorrectArrayData; a screen with no height or width, and then no movie, return None with the hall unchanged; a row map shorter than the hall raises FileError |
| Display.ShowSeatsDefersToDisplayImage | visualisation.py:724-765 | on a non-empty numeric hall and a real screen, `show_seats` behaves as `display_image` when the row map covers the hall; otherwise it raises FileError where `display_image` raises IncorrectShape |
| Display.ShowSeats | visualisation.py:670-769 | `show_seats` on the array itself: its result and the array's final contents are ShowSeatsSpec's |
| Storage.CharRange | load_save_data.py:223 | the run of characters from lo to hi, in order |
| Storage.ValidCharsAre | load_save_data.py:223 | the allowed characters are exactly `-_.()[] `, the ASCII letters and the digits |
| Storage.FilterValid | load_save_data.py:225 | the repaired title is no longer than the input and holds only allowed characters |
| Storage.FilterItems | load_save_data.py:225-228 | filtering a list of titles fails with FileError exactly when some item is not a string |
| Storage.RepairTitle | load_save_data.py:203-228 | a string keeps only its allowed characters; a non-iterable raises FileError |
| Storage.FilterIsSubsequence | load_save_data.py:225 | the repaired title is a subsequence of the original: the kept characters keep their order |
| Storage.FilterCounts | load_save_data.py:225 | every allowed character is kept as often as it occurs, and every other character is dropped |
| Storage.FilterKeepsValidTitle | load_save_data.py:225 | a title made only of allowed characters is unchanged |
| Storage.RepairIdempotent | load_save_data.py:203-228 | repairing twice is repairing once |
| Storage.ColonIsDropped | load_save_data.py:225 | a colon is dropped and nothing around it changes |
| Storage.FilterAppend | load_save_data.py:225 | repairing a concatenation is concatenating the repairs |
| Storage.CharListFilter | load_save_data.py:225 | a list of one-character strings is repaired as the string they spell |
| Storage.CreateTxtInfo | load_save_data.py:43-71 | a header is produced exactly for a numeric hall, and it is the title line, the rule and the count line for the hall's sum; other kinds raise IncorrectArrayType and a hall of text raises IncorrectArrayData |
| Storage.HeaderLines | load_save_data.py:69 | the header splits into the title line, the rule and the count line, and the count reads back as the number of taken seats |
| Storage.CreateSeatsArraySpec | load_save_data.py:74-123 | non-int or non-positive dimensions raise IncorrectShape; a non-iterable stops the batch; a completed batch has one file per title; a stopped one has written nothing |
| Storage.BatchFilesAreEmptyHalls | load_save_data.py:102-115 | each file of a batch is the title's empty hall: the requested shape, zero taken seats, and a name made only of allowed characters |
| Storage.CreateSeatsArray | load_save_data.py:74-123 | `create_seats_array` as a loop over the titles gives CreateSeatsArraySpec's batch |
| Storage.SaveCsvData | load_save_data.py:161-200 | nothing happens without a movie or a hall; a hall of the wrong kind raises IncorrectArrayType; a hall of text fails with FileError; every other failure is a FileError; a write stores the hall's grid under the header for its sum at the given path |
| Storage.SavedHeaderCountsTakenSeats | load_save_data.py:161-200 | saving a numeric hall fails only on the write, and the saved header's count line reads back as the hall's sum |
| Menu.Move | menu.py:113-116 | UP moves the cursor up unless it is on the first title, DOWN down unless it is on the last; the cursor stays in range |
| Menu.RunMenu | menu.py:108-130 | the cursor stays in range, and ENTER returns the title last highlighted |
| Menu.MenuGuard | menu.py:96-104 | the menu is shown exactly for a list that exists and is not empty |
| Menu.MenuGuardAsWritten | menu.py:97 | the guard as written: a list gives whether it is non-empty |
| Menu.NoneListRaises | menu.py:97 | the two guards agree on every list, and differ on None, where the written one raises TypeError |
| Menu.MainMenuSpec | menu.py:68-130 | no titles returns None before any key is read; otherwise the first title is highlighted first, the cursor stays in range, and a chosen title is the one last highlighted |
| Menu.EnterPicksHighlighted | menu.py:117-124 | ENTER returns the highlighted title |
| Menu.EscapeExits | menu.py:125-126 | ESC returns None |
| Menu.OtherKeysRedraw | menu.py:113-129 | any other key moves the cursor as Move says, redraws, and the loop goes on |
| Menu.MainMenu | menu.py:68-130 | `main_menu` as a loop over the key presses gives MainMenuSpec's result and highlights |
| Menu.Layout | menu.py:47-58 | one placed title per title |
| Menu.LayoutIsCentred | menu.py:47-58 | exactly the selected title is highlighted (none for an index past the list); titles are drawn in order on consecutive rows; each title, and the block of titles, is centred to within one cell |
| Menu.DisplayMenu | menu.py:18-65 | `display_menu` as a loop places the titles as Layout says |
| MetaData.TitleWith | meta_data.py:61 | the stem rule shared by the written code (pieces joined with nothing) and the corrected one (pieces joined with `.`): a name without a dot gives the empty title |
| MetaData.AsWrittenDropsDots | meta_data.py:61 | no listed title holds a dot |
| MetaData.DottedTitleIsLost | meta_data.py:61 | a title holding a dot does not survive being saved and listed |
| MetaData.DotFreeTitleRoundTrip | meta_data.py:61 | with the rule as written, a title without a dot comes back from the file name title + ".csv" |
| MetaData.TitleIsStem | meta_data.py:61 | the corrected title is exactly the name before its last dot |
| MetaData.TitleOfFileName | meta_data.py:61 | the corrected rule gives back the title of a file named title + ".csv" |
| MetaData.GetTitlesDirAsWritten | meta_data.py:44-66 | `get_titles_dir` as written: None without a path or when the listing fails; otherwise entry k's title is the written stem of file name k, and none holds a dot |
| MetaData.GetTitlesDir | meta_data.py:44-66 | `get_titles_dir` with the corrected stem (pieces joined with `.`): None without a path or when the listing fails; otherwise entry k's title is the corrected stem of file name k |
| MetaData.ListedDotFreeTitlesRoundTrip | meta_data.py:44-66 | as written: listing a directory of title + ".csv" files gives the titles back, in listing order, when no title holds a dot |
| MetaData.ListedTitlesRoundTrip | meta_data.py:44-66 | with the corrected stem (pieces joined with `.`): listing a directory of title + ".csv" files gives every title back, in listing order |
| MetaData.SavedDotFreeTitleIsListed | load_save_data.py:110-114 | as written: a hall saved under a repaired title without a dot is listed under that title, and repairing it again, as the caller does before opening the file, changes nothing |
| MetaData.SavedTitleIsListed | load_save_data.py:110-114 | with the corrected stem (pieces joined with `.`): a hall saved under any repaired title is listed under that title, and repairing it again changes nothing |

## Left out

- Drawing:
  - the cv2 window, the rectangles and text of `show_seats`;
  - `display_text_info` with its IncorrectFont and IncorrectCoordinates;
  - the curses colours and `refresh` calls;
  - the fixed captions of `display_menu` at (2, 1) and (height - 2, 1).

  Only the outcome and the hall contents are modelled.
- Console output and pauses: `print` messages, `time.sleep`, `say_goodbye`.
- `display_menu` turns a `curses.error` into TooSmallScreen when a title does not fit the screen. The screen's extent is not modelled, so this exception is not either.
- File system:
  - the write in `np.savetxt` is the parameter `WriteOutcome`, and its text layout (`fmt`, delimiter, the `# ` header prefix) is not modelled;
  - `os.listdir` is the `listing` parameter.
- Storage.CreateSeatsArraySpec: every write in one batch is taken to end the same way. So a batch either completes or stops at its first title. A directory that disappears halfway through is not modelled.
- `create_seats_array` catches IncorrectArrayType around `create_txt_info`. That handler cannot be reached, because the hall there is always a fresh numeric array.
- `save_csv_data` catches IncorrectArrayType around `create_txt_info`. That handler cannot be reached either, because the kind of the hall is checked first.
- `get_csv_data`, `get_movie_titles`, `run.py`, `get_data.py` and `create_report_files.py` are not part of this model. They are the program's entry point, its network and CSV readers, and an older copy of the title list.
- Py.ParseInt: `int()` is modelled as surrounding whitespace, an optional sign and ASCII digits. Underscores between digits and non-ASCII digits, which Python also accepts, are read as errors.
- Py.Strip: the whitespace set is the ASCII one plus U+001C to U+001F, U+0085 and U+00A0. Python's wider Unicode whitespace is not modelled.
- Py.Upper: only ASCII letters are upper-cased.
- Halls.Hall: a numpy array of text is modelled only by its shape. Its sum raises, and its cells equal neither 0 nor 1. Other dtypes, such as float or bool, are not modelled.
- Halls.Hall: a list hall is taken to be a list of iterable rows. A list whose rows cannot be iterated (`[1, 2]`) makes `create_row` raise TypeError inside `show_seats`, which reports it as IncorrectFont. The model does not capture that case and answers IncorrectArrayType there.
- Key presses and console input are finite sequences. Where the program would block waiting for more, the model ends in AwaitingKey or EndOfInput.

## Findings

| source | as written | input that shows it | evidently intended | confidence | as-written member | corrected member |
|---|---|---|---|---|---|---|
| meta_data.py:61 | the pieces of the file name before its extension are joined with the empty string, so every dot inside the title is lost | a hall saved as `Mr. Robot.csv` (`repair_title` keeps dots) is listed as `Mr Robot`, and the caller then opens `./movies/Mr Robot.csv`, which does not exist | join the pieces with `.`, so the title is the name up to its last dot | high; not executed | MetaData.DottedTitleIsLost | MetaData.TitleOfFileName |
| menu.py:97 | `len()` is taken before the test for None, so a list that is None raises TypeError | `main_menu(screen, None)`; test_menu.py:15 expects None | test for None first, and return None for a missing list as for an empty one | high; not executed | Menu.NoneListRaises | Menu.MainMenuSpec |
