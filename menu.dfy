/**
 * The title menu of menu.py: main_menu moves a cursor over the titles with
 * the arrow keys until ENTER chooses the highlighted title or ESC leaves,
 * and display_menu lays the titles out centred on the screen with the
 * cursor's title highlighted.  Key presses are the finite sequence `keys`
 * of getch() results; drawing is the list of placed titles.
 */
module Menu {
  import opened Py

  const KEY_DOWN := 258
  const KEY_UP := 259
  const KEY_ENTER := 343
  const KEY_ESC := 27

  /** curses.KEY_ENTER, or the line feed or carriage return a terminal sends. */
  predicate IsEnterKey(key: int) {
    key == KEY_ENTER || key == 10 || key == 13
  }

  /** How the menu ended. */
  datatype Choice =
    | NoMovies              // nothing to show: None, before any key is read
    | Picked(title: string) // ENTER: the highlighted title
    | Exited                // ESC: None
    | AwaitingKey(cursor: nat)  // the key presses ran out; getch() blocks for ever

  /** The end of the menu and the highlighted index of every display_menu
      call made on the way, in order. */
  datatype MenuRun = MenuRun(choice: Choice, shown: seq<nat>)

  /** The cursor after a key that neither chooses nor leaves: UP moves it
      up unless it is on the first title, DOWN down unless it is on the
      last, and every other key leaves it where it is. */
  function Move(cursor: int, n: int, key: int): (c: int)
    ensures 0 <= cursor < n ==> 0 <= c < n
    ensures c == cursor - 1 <==> key == KEY_UP && cursor > 0
    ensures c == cursor + 1 <==> key == KEY_DOWN && cursor < n - 1
    ensures c != cursor ==> key == KEY_UP || key == KEY_DOWN
  {
    if key == KEY_UP && cursor > 0 then cursor - 1
    else if key == KEY_DOWN && cursor < n - 1 then cursor + 1
    else cursor
  }

  /** The key loop of main_menu from the k-th key on, with the cursor on
      title `cursor`. */
  function RunMenu(titles: seq<string>, keys: seq<int>, k: nat, cursor: nat): (r: MenuRun)
    requires cursor < |titles| && k <= |keys|
    ensures forall i :: 0 <= i < |r.shown| ==> r.shown[i] < |titles|
    ensures r.choice.Picked? ==>
      r.choice.title == titles[if r.shown == [] then cursor else r.shown[|r.shown| - 1]]
    ensures r.choice.AwaitingKey? ==> r.choice.cursor < |titles|
    ensures !r.choice.NoMovies?
    decreases |keys| - k
  {
    if k == |keys| then MenuRun(AwaitingKey(cursor), [])
    else
      var key := keys[k];
      if (key == KEY_UP && cursor > 0) || (key == KEY_DOWN && cursor < |titles| - 1) || (!IsEnterKey(key) && key != KEY_ESC) then
        var next := Move(cursor, |titles|, key);
        var rest := RunMenu(titles, keys, k + 1, next);
        MenuRun(rest.choice, [next] + rest.shown)
      else if IsEnterKey(key) then MenuRun(Picked(titles[cursor]), [])
      else MenuRun(Exited, [])
  }

  /** The guard of main_menu as written: len() is taken before the None
      test, so a None list raises TypeError. */
  function MenuGuardAsWritten(movies: Option<seq<string>>): (r: Result<bool>)
    ensures movies.Some? ==> r == Ok(|movies.value| != 0)
  {
    if movies.None? then Err(UncaughtTypeError) else Ok(|movies.value| != 0)
  }

  /** The guard as intended: a list that is None or empty shows nothing. */
  function MenuGuard(movies: Option<seq<string>>): (show: bool)
    ensures show <==> movies.Some? && |movies.value| > 0
  {
    movies.Some? && |movies.value| != 0
  }

  /** The two guards differ only on None: the intended one returns None
      there, the written one raises. */
  lemma NoneListRaises(movies: Option<seq<string>>)
    ensures movies.Some? ==> MenuGuardAsWritten(movies) == Ok(MenuGuard(movies))
    ensures MenuGuardAsWritten(None) == Err(UncaughtTypeError) && !MenuGuard(None)
  {
  }

  /** main_menu: no titles returns None at once; otherwise the menu is shown
      with the cursor on the first title and the key loop runs. */
  function MainMenuSpec(movies: Option<seq<string>>, keys: seq<int>): (r: MenuRun)
    ensures !MenuGuard(movies) ==> r == MenuRun(NoMovies, [])
    ensures MenuGuard(movies) ==> |r.shown| > 0 && r.shown[0] == 0
    ensures MenuGuard(movies) ==> forall i :: 0 <= i < |r.shown| ==> r.shown[i] < |movies.value|
    ensures r.choice.Picked? ==> r.choice.title == movies.value[r.shown[|r.shown| - 1]]
  {
    if !MenuGuard(movies) then MenuRun(NoMovies, [])
    else
      var r := RunMenu(movies.value, keys, 0, 0);
      MenuRun(r.choice, [0] + r.shown)
  }

  /** ENTER chooses the highlighted title. */
  lemma EnterPicksHighlighted(titles: seq<string>, keys: seq<int>, k: nat, cursor: nat)
    requires cursor < |titles| && k < |keys| && IsEnterKey(keys[k])
    ensures RunMenu(titles, keys, k, cursor) == MenuRun(Picked(titles[cursor]), [])
  {
  }

  /** ESC leaves with None. */
  lemma EscapeExits(titles: seq<string>, keys: seq<int>, k: nat, cursor: nat)
    requires cursor < |titles| && k < |keys| && keys[k] == KEY_ESC
    ensures RunMenu(titles, keys, k, cursor).choice == Exited
  {
  }

  /** Any other key redraws the menu with the cursor moved by Move, and the
      loop goes on. */
  lemma OtherKeysRedraw(titles: seq<string>, keys: seq<int>, k: nat, cursor: nat)
    requires cursor < |titles| && k < |keys| && !IsEnterKey(keys[k]) && keys[k] != KEY_ESC
    ensures var r := RunMenu(titles, keys, k, cursor);
      var next := Move(cursor, |titles|, keys[k]);
      r.shown == [next] + RunMenu(titles, keys, k + 1, next).shown &&
      r.choice == RunMenu(titles, keys, k + 1, next).choice
  {
  }

  /** main_menu on the key presses, step by step. */
  method MainMenu(movies: Option<seq<string>>, keys: seq<int>) returns (choice: Choice, shown: seq<nat>)
    ensures MenuRun(choice, shown) == MainMenuSpec(movies, keys)
  {
    if !MenuGuard(movies) {
      return NoMovies, [];
    }
    var titles := movies.value;
    var cursor := 0;
    shown := [0];
    var k := 0;
    while k < |keys|
      invariant k <= |keys| && cursor < |titles|
      invariant var r := RunMenu(titles, keys, k, cursor);
        MenuRun(r.choice, shown + r.shown) == MainMenuSpec(movies, keys)
      decreases |keys| - k
    {
      var key := keys[k];
      ghost var r := RunMenu(titles, keys, k + 1, Move(cursor, |titles|, key));
      if key == KEY_UP && cursor > 0 {
        cursor := cursor - 1;
      } else if key == KEY_DOWN && cursor < |titles| - 1 {
        cursor := cursor + 1;
      } else if IsEnterKey(key) {
        return Picked(titles[cursor]), shown;
      } else if key == KEY_ESC {
        return Exited, shown;
      }
      assert shown + ([cursor] + r.shown) == (shown + [cursor]) + r.shown;
      shown := shown + [cursor];
      k := k + 1;
    }
    choice := AwaitingKey(cursor);
  }

  /** A title drawn by display_menu: its row, column, text and whether it
      is highlighted. */
  datatype Placed = Placed(y: int, x: int, text: string, highlighted: bool)

  /** Where display_menu puts each title on a screen of the given height
      and width: title i on row height//2 - n//2 + i, starting at column
      width//2 - len(title)//2, highlighted when i is the selected index. */
  function Layout(height: nat, width: nat, selected: int, titles: seq<string>): (r: seq<Placed>)
    ensures |r| == |titles|
  {
    seq(|titles|, i requires 0 <= i < |titles| =>
      Placed(height / 2 - |titles| / 2 + i, width / 2 - |titles[i]| / 2, titles[i], i == selected))
  }

  /** Exactly the selected title is highlighted, none when the index is
      past the list; titles are drawn in order on consecutive rows, and each
      title and the block of titles are centred to within one cell. */
  lemma LayoutIsCentred(height: nat, width: nat, selected: int, titles: seq<string>)
    ensures var r := Layout(height, width, selected, titles);
      (forall i :: 0 <= i < |r| ==> r[i].text == titles[i] && (r[i].highlighted <==> i == selected)) &&
      (selected < 0 || selected >= |titles| ==> forall i :: 0 <= i < |r| ==> !r[i].highlighted) &&
      (forall i :: 0 < i < |r| ==> r[i].y == r[i - 1].y + 1) &&
      (forall i :: 0 <= i < |r| ==> width - 1 <= 2 * r[i].x + |titles[i]| <= width + 1) &&
      (|r| > 0 ==> height - 1 <= 2 * r[0].y + |titles| <= height + 1)
  {
  }

  /** display_menu: the titles placed one by one. */
  method DisplayMenu(height: nat, width: nat, selected: int, titles: seq<string>) returns (placed: seq<Placed>)
    ensures placed == Layout(height, width, selected, titles)
  {
    placed := [];
    for i := 0 to |titles|
      invariant placed == Layout(height, width, selected, titles)[..i]
    {
      var x := width / 2 - |titles[i]| / 2;
      var y := height / 2 - |titles| / 2 + i;
      placed := placed + [Placed(y, x, titles[i], i == selected)];
    }
  }
}
