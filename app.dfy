/** The application object and its key handling (mirro-rs/src/app/mod.rs).

    The behaviour of every operation is first given as a function on
    `AppModel`, the value of all fields of an `App`; the `App` class then
    updates its fields in place and each method is proved to move the model
    exactly as that function says. */
module Application {
  import opened Common
  import opened AppStates
  import opened ActionTable
  import opened Catalog
  import Render

  datatype AppReturn = Exit | Continue

  datatype ScrollableTables = AllMirrors | SavedMirrors

  /** A `chrono::DateTime<Local>`; the model never looks inside it. */
  datatype DateTime = DateTime(nanos: int)

  /** An entry of the selection list: the country, the filter text in force
      when it was picked and its row in the filtered table. */
  datatype SelectedCountry = SelectedCountry(country: Url, searchItem: string, index: nat)

  /** `Url::default()`. */
  const NO_COUNTRY: Url := Url("", "", [])

  /** Every field of an `App` except the IO channel. A `TableState` is
      reduced to its selected row. */
  datatype AppModel = AppModel(
    isLoading: bool,
    actions: Actions,
    state: AppState,
    mirrors: ArchMirrors,
    countryFilter: string,
    clock: DateTime,
    table: Option<nat>,
    selectedCountries: seq<SelectedCountry>,
    selectedTable: Option<nat>,
    focusedCountry: Url)

  /** The state after a key and what the loop is told to do next. */
  datatype Step = Step(next: AppModel, ret: AppReturn)

  /** The table installed once the catalog is loaded. */
  const INITIALIZED_ACTIONS: seq<Action> := [
    Quit, Sleep, Focus(CountryFilter), Focus(Protocols), Focus(Mirrors),
    Focus(SelectedCountries), Action.Action, SimpleExport, RateExport]

  // ---------------------------------------------------------------------
  // Cursors

  /** A cursor that is unset or points at one of `len` rows. */
  predicate CursorIn(cursor: Option<nat>, len: nat) {
    cursor.None? || cursor.value < len
  }

  /** `scroll_prev` (bound to Down and `j`): one row further, wrapping to the
      top after the last row; an unset cursor goes to the top. On an empty
      table the cursor stays unset. */
  function PrevCursor(cursor: Option<nat>, items: nat): (r: Option<nat>)
    ensures r.None? <==> items == 0
    ensures items > 0 && cursor.None? ==> r == Some(0)
    ensures items > 0 && cursor.Some? && cursor.value < items ==> r == Some((cursor.value + 1) % items)
    ensures CursorIn(cursor, items) ==> CursorIn(r, items)
  {
    if items == 0 then None
    else
      match cursor
      case None => Some(0)
      case Some(i) =>
        if i >= items - 1 then
          ModUnique(items, items, 1, 0); Some(0)
        else
          ModUnique(i + 1, items, 0, i + 1); Some(i + 1)
  }

  /** `scroll_next` (bound to Up and `k`): one row back, wrapping to the
      last row from the top; an unset cursor goes to the top. On an empty
      table the cursor stays unset. */
  function NextCursor(cursor: Option<nat>, items: nat): (r: Option<nat>)
    ensures r.None? <==> items == 0
    ensures items > 0 && cursor.None? ==> r == Some(0)
    ensures items > 0 && cursor.Some? && cursor.value < items ==> r == Some((cursor.value + items - 1) % items)
    ensures CursorIn(cursor, items) ==> CursorIn(r, items)
  {
    if items == 0 then None
    else
      match cursor
      case None => Some(0)
      case Some(i) =>
        if i == 0 then
          ModUnique(items - 1, items, 0, items - 1); Some(items - 1)
        else if i < items then
          ModUnique(i + items - 1, items, 1, i - 1); Some(i - 1)
        else
          Some(i - 1)
  }

  /** On a non-empty table the two scrolls undo each other. */
  lemma ScrollsAreInverse(i: nat, items: nat)
    requires i < items
    ensures NextCursor(PrevCursor(Some(i), items), items) == Some(i)
    ensures PrevCursor(NextCursor(Some(i), items), items) == Some(i)
  {
  }

  /** `k` presses of `scroll_prev` from row `i`. */
  function PrevTimes(cursor: Option<nat>, items: nat, k: nat): Option<nat> {
    if k == 0 then cursor else PrevCursor(PrevTimes(cursor, items, k - 1), items)
  }

  function NextTimes(cursor: Option<nat>, items: nat, k: nat): Option<nat> {
    if k == 0 then cursor else NextCursor(NextTimes(cursor, items, k - 1), items)
  }

  /** `k` presses move the cursor `k` rows, modulo the table length. */
  lemma {:induction false} PrevTimesWraps(i: nat, items: nat, k: nat)
    requires i < items
    ensures PrevTimes(Some(i), items, k) == Some((i + k) % items)
    decreases k
  {
    if k > 0 {
      PrevTimesWraps(i, items, k - 1);
      var j := (i + k - 1) % items;
      assert (j + 1) % items == (i + k) % items by {
        ModSucc(i + k - 1, items);
      }
    }
  }

  lemma {:induction false} MulAtLeast(d: nat, n: nat)
    requires d >= 1
    ensures d * n >= n
    decreases d
  {
    if d > 1 {
      MulAtLeast(d - 1, n);
      assert d * n == (d - 1) * n + n;
    }
  }

  /** The remainder is the unique `s` in `[0, n)` with `a == q * n + s`. */
  lemma ModUnique(a: int, n: int, q: int, s: int)
    requires n > 0 && 0 <= s < n && a == q * n + s
    ensures a % n == s
  {
    var q0, s0 := a / n, a % n;
    assert a == q0 * n + s0;
    var d := q - q0;
    assert d * n == s0 - s by {
      assert q * n - q0 * n == (q - q0) * n;
    }
    if d > 0 {
      MulAtLeast(d, n);
    } else if d < 0 {
      MulAtLeast(-d, n);
    }
  }

  lemma ModSucc(a: nat, n: nat)
    requires n > 0
    ensures (a % n + 1) % n == (a + 1) % n
  {
    var q, r := a / n, a % n;
    assert a == q * n + r;
    if r + 1 < n {
      ModUnique(r + 1, n, 0, r + 1);
      ModUnique(a + 1, n, q, r + 1);
    } else {
      ModUnique(r + 1, n, 1, 0);
      assert a + 1 == (q + 1) * n;
      ModUnique(a + 1, n, q + 1, 0);
    }
  }

  /** Scrolling `k` rows down and then `k` rows up on a non-empty table
      returns to the starting row. */
  lemma {:induction false} ScrollThereAndBack(i: nat, items: nat, k: nat)
    requires i < items
    ensures NextTimes(PrevTimes(Some(i), items, k), items, k) == Some(i)
    decreases k
  {
    if k > 0 {
      var before := PrevTimes(Some(i), items, k - 1);
      PrevTimesInRange(Some(i), items, k - 1);
      var after := PrevCursor(before, items);
      ShiftNext(after, items, k - 1);
      ScrollsAreInverse(before.value, items);
      ScrollThereAndBack(i, items, k - 1);
    }
  }

  lemma {:induction false} PrevTimesInRange(c: Option<nat>, items: nat, k: nat)
    requires items > 0 && CursorIn(c, items)
    ensures CursorIn(PrevTimes(c, items, k), items)
    ensures c.Some? || k > 0 ==> PrevTimes(c, items, k).Some?
    decreases k
  {
    if k > 0 {
      PrevTimesInRange(c, items, k - 1);
    }
  }

  /** `NextTimes` counted from the first press instead of the last. */
  lemma {:induction false} ShiftNext(c: Option<nat>, items: nat, k: nat)
    ensures NextTimes(NextCursor(c, items), items, k) == NextCursor(NextTimes(c, items, k), items)
    decreases k
  {
    if k > 0 {
      ShiftNext(c, items, k - 1);
    }
  }

  // ---------------------------------------------------------------------
  // The cursors as written: `usize` arithmetic of a release build

  const USIZE_LIMIT: int := U64_LIMIT
  type usize = x: int | 0 <= x < USIZE_LIMIT

  /** `a - b` on `usize` without overflow checks. */
  function WrappingSub(a: usize, b: usize): (r: usize)
    ensures a >= b ==> r == a - b
    ensures a < b ==> r == a - b + USIZE_LIMIT
  {
    (a - b) % USIZE_LIMIT
  }

  /** mod.rs:125-139 as written: the row `scroll_prev` selects, with no
      guard for an empty table. */
  function PrevCursorAsWritten(cursor: Option<usize>, items: usize): usize {
    match cursor
    case None => 0
    case Some(i) => if i >= WrappingSub(items, 1) then 0 else i + 1
  }

  /** mod.rs:141-155 as written. */
  function NextCursorAsWritten(cursor: Option<usize>, items: usize): usize {
    match cursor
    case None => 0
    case Some(i) => if i == 0 then WrappingSub(items, 1) else i - 1
  }

  /** On a non-empty table the written code and the guarded cursors agree. */
  lemma CursorsAgreeOnNonEmptyTable(cursor: Option<usize>, items: usize)
    requires items > 0
    ensures PrevCursor(if cursor.Some? then Some(cursor.value) else None, items) == Some(PrevCursorAsWritten(cursor, items))
    ensures NextCursor(if cursor.Some? then Some(cursor.value) else None, items) == Some(NextCursorAsWritten(cursor, items))
  {
  }

  /** On an empty table the written code selects rows that do not exist:
      the first Down selects row 0, the second row 1, and Up from row 0
      selects row `usize::MAX`; the guarded cursors stay unset. */
  lemma EmptyTableCursorEscapes()
    ensures PrevCursorAsWritten(None, 0) == 0
    ensures PrevCursorAsWritten(Some(0), 0) == 1
    ensures NextCursorAsWritten(Some(0), 0) == USIZE_LIMIT - 1
    ensures PrevCursor(None, 0).None? && PrevCursor(Some(0), 0).None? && NextCursor(Some(0), 0).None?
  {
  }

  // ---------------------------------------------------------------------
  // Removing from the selection list

  /** mod.rs:269-281 as written: `Vec::remove` at the cursor, then the cursor
      is put back on the same index. `Vec::remove` panics for an index not
      below the length. */
  function RemoveAtCursorAsWritten(list: seq<SelectedCountry>, cursor: Option<nat>)
    : Result<(seq<SelectedCountry>, Option<nat>), Panic>
  {
    match cursor
    case None => Ok((list, cursor))
    case Some(index) =>
      if list == [] then Ok((list, cursor))
      else if index >= |list| then Err(IndexOutOfBounds)
      else
        var rest := list[..index] + list[index + 1..];
        Ok((rest, if rest != [] then Some(index) else None))
  }

  /** The removal with the cursor clamped to the new last row: it removes
      exactly the entry under the cursor, keeps the others in order, and
      leaves a cursor that points at a row or is unset. */
  function RemoveAtCursor(list: seq<SelectedCountry>, cursor: Option<nat>)
    : (r: (seq<SelectedCountry>, Option<nat>))
    ensures CursorIn(cursor, |list|) ==> CursorIn(r.1, |r.0|)
    ensures cursor.Some? && cursor.value < |list| ==>
              |r.0| == |list| - 1 &&
              (forall j :: 0 <= j < cursor.value ==> r.0[j] == list[j]) &&
              (forall j :: cursor.value <= j < |r.0| ==> r.0[j] == list[j + 1]) &&
              (r.1.None? <==> r.0 == [])
    ensures cursor.Some? && cursor.value < |list| && |list| > 1 ==>
              r.1 == Some(if cursor.value < |list| - 1 then cursor.value else |list| - 2)
    ensures cursor.None? || cursor.value >= |list| ==> r == (list, cursor)
  {
    match cursor
    case None => (list, cursor)
    case Some(index) =>
      if index >= |list| then (list, cursor)
      else
        var rest := list[..index] + list[index + 1..];
        (rest, if rest == [] then None else Some(if index < |rest| then index else |rest| - 1))
  }

  /** Away from the last row the written removal and the clamped one agree. */
  lemma RemovalsAgreeBeforeLastRow(list: seq<SelectedCountry>, cursor: Option<nat>)
    requires cursor.None? || cursor.value + 1 < |list|
    ensures RemoveAtCursorAsWritten(list, cursor) == Ok(RemoveAtCursor(list, cursor))
  {
  }

  /** Removing the last of two entries leaves the written cursor one past
      the end, and the next Enter makes `Vec::remove` panic; the clamped
      cursor moves to the remaining entry and a second Enter empties the list. */
  lemma LastRowRemovalPanics(a: SelectedCountry, b: SelectedCountry)
    ensures RemoveAtCursorAsWritten([a, b], Some(1)) == Ok(([a], Some(1)))
    ensures RemoveAtCursorAsWritten([a], Some(1)) == Err(IndexOutOfBounds)
    ensures RemoveAtCursor([a, b], Some(1)) == ([a], Some(0))
    ensures RemoveAtCursor([a], Some(0)) == ([], None)
  {
    assert [a, b][..1] + [a, b][2..] == [a];
    assert [a][..0] + [a][1..] == [];
  }

  /** The empty-table cursor of the written `scroll_prev` survives into a
      panic: two Downs on an empty selection list leave row 1 selected, and
      once one country has been added, Enter removes at index 1 of a
      one-entry list. */
  lemma EmptySelectionScrollThenRemovePanics(e: SelectedCountry)
    ensures PrevCursorAsWritten(Some(PrevCursorAsWritten(None, 0)), 0) == 1
    ensures RemoveAtCursorAsWritten([e], Some(1)) == Err(IndexOutOfBounds)
  {
  }

  // ---------------------------------------------------------------------
  // The model of the handler

  predicate SelectedNamesDistinct(list: seq<SelectedCountry>) {
    forall i, j :: 0 <= i < j < |list| ==> list[i].country.country != list[j].country.country
  }

  /** What the handler keeps true of an `App`: the selection list never
      names a country twice, and each table's cursor points at one of its
      rows or is unset. */
  predicate Invariant(m: AppModel) {
    && SelectedNamesDistinct(m.selectedCountries)
    && CursorIn(m.selectedTable, |m.selectedCountries|)
    && CursorIn(m.table, |m.mirrors.countries|)
  }

  /** The key handler reaches a `todo!()` for `RateExport`, and for the
      generic action while `Protocols` has focus; the model is stated for
      the other cases. */
  predicate Handled(m: AppModel, action: Action) {
    m.state.FocusedWidget().Some? ==>
      action != RateExport && !(action.Action? && m.state.FocusedWidget() == Some(Protocols))
  }

  /** The key reaches a handled case once looked up in the table. */
  predicate KeyHandled(m: AppModel, key: Key) {
    m.actions.Find(key).Some? ==> Handled(m, m.actions.Find(key).value)
  }

  /** `App::new`. */
  function NewModel(clock: DateTime): AppModel {
    AppModel(false, Actions([Quit]), Default(), EMPTY_CATALOG, "", clock, None, [], None, NO_COUNTRY)
  }

  /** `App::initialized`. */
  function InitializedModel(m: AppModel): AppModel {
    m.(actions := Actions(INITIALIZED_ACTIONS), state := DefaultInitialized())
  }

  /** `String::pop`: drops the last character, if any. */
  function PopChar(s: string): (r: string)
    ensures s == [] ==> r == []
    ensures s != [] ==> r + [s[|s| - 1]] == s
  {
    if s == [] then s else s[..|s| - 1]
  }

  function Items(m: AppModel, t: ScrollableTables): nat {
    match t
    case AllMirrors => |m.mirrors.countries|
    case SavedMirrors => |m.selectedCountries|
  }

  function Cursor(m: AppModel, t: ScrollableTables): Option<nat> {
    match t
    case AllMirrors => m.table
    case SavedMirrors => m.selectedTable
  }

  function WithCursor(m: AppModel, t: ScrollableTables, c: Option<nat>): AppModel {
    match t
    case AllMirrors => m.(table := c)
    case SavedMirrors => m.(selectedTable := c)
  }

  /** `update_mirrors_widget`: scrolling the selection list focuses the
      country under the cursor. */
  function MirrorsWidgetUpdated(m: AppModel, t: ScrollableTables, index: nat): AppModel {
    match t
    case AllMirrors => m
    case SavedMirrors =>
      if index < |m.selectedCountries| then m.(focusedCountry := m.selectedCountries[index].country) else m
  }

  /** The effect of a scroll whose new cursor is `c`. */
  function Scrolled(m: AppModel, t: ScrollableTables, c: Option<nat>): AppModel {
    var m' := WithCursor(m, t, c);
    if c.Some? then MirrorsWidgetUpdated(m', t, c.value) else m'
  }

  function ScrolledPrev(m: AppModel, t: ScrollableTables): AppModel {
    Scrolled(m, t, PrevCursor(Cursor(m, t), Items(m, t)))
  }

  function ScrolledNext(m: AppModel, t: ScrollableTables): AppModel {
    Scrolled(m, t, NextCursor(Cursor(m, t), Items(m, t)))
  }

  /** Some entry of the selection list carries this country name. */
  predicate AlreadySelected(list: seq<SelectedCountry>, name: string) {
    exists w :: w in list && w.country.country == name
  }

  /** Enter or space on the mirrors table: the country under the cursor in
      the filtered view joins the selection list unless its name is there. */
  function SelectedAtCursor(m: AppModel): AppModel {
    match m.table
    case None => m
    case Some(index) =>
      var inner := Render.FilteredCountries(m.mirrors.countries, m.countryFilter);
      if index < |inner| then
        var f := inner[index];
        if AlreadySelected(m.selectedCountries, f.country) then m
        else m.(selectedCountries := m.selectedCountries + [SelectedCountry(f, m.countryFilter, index)])
      else m
  }

  /** Enter or space on the selection list. */
  function RemovedAtCursor(m: AppModel): AppModel {
    var (list, cursor) := RemoveAtCursor(m.selectedCountries, m.selectedTable);
    m.(selectedCountries := list, selectedTable := cursor)
  }

  /** The generic action while the filter has focus. */
  function FilterAction(m: AppModel, key: Key): AppModel {
    match key
    case Backspace => m.(countryFilter := PopChar(m.countryFilter), table := None)
    case Char(ch) => m.(countryFilter := m.countryFilter + [ch], table := None)
    case Ctrl(c) => if c == 'a' then m.(state := m.state.UpdateFocusedWidget(Mirrors)) else m
    case _ => m
  }

  /** The generic action while the mirrors table has focus. */
  function MirrorsAction(m: AppModel, key: Key): AppModel {
    if key == Enter || key == Char(' ') then SelectedAtCursor(m)
    else if key == Up || key == Char('k') then ScrolledNext(m, AllMirrors)
    else if key == Down || key == Char('j') then ScrolledPrev(m, AllMirrors)
    else m
  }

  /** The generic action while the selection list has focus. */
  function SelectedAction(m: AppModel, key: Key): AppModel {
    if key == Enter || key == Char(' ') then RemovedAtCursor(m)
    else if key == Up || key == Char('k') then ScrolledNext(m, SavedMirrors)
    else if key == Down || key == Char('j') then ScrolledPrev(m, SavedMirrors)
    else m
  }

  /** `key_handler`: nothing happens before a widget has focus; `Quit` ends
      the loop and every other action continues it. `Sleep` sends an IO
      event, which leaves the loading flag set when the send succeeds. */
  function KeyHandlerStep(m: AppModel, action: Action, key: Key, sendOk: bool): Step
    requires Handled(m, action)
  {
    match m.state.FocusedWidget()
    case None => Step(m, Continue)
    case Some(focused) =>
      match action
      case Quit => Step(m, Exit)
      case Sleep => Step(m.(isLoading := sendOk), Continue)
      case Focus(w) => Step(m.(state := m.state.UpdateFocusedWidget(w)), Continue)
      case Action =>
        (match focused
         case CountryFilter => Step(FilterAction(m, key), Continue)
         case Protocols => Step(m, Continue)
         case Mirrors => Step(MirrorsAction(m, key), Continue)
         case SelectedCountries => Step(SelectedAction(m, key), Continue))
      case SimpleExport => Step(m, Continue)
      case RateExport => Step(m, Continue)
  }

  /** `do_action`: the key goes to the handler with the action the table
      finds for it, and is ignored when there is none. */
  function DoActionStep(m: AppModel, key: Key, sendOk: bool): Step
    requires KeyHandled(m, key)
  {
    match m.actions.Find(key)
    case None => Step(m, Continue)
    case Some(action) => KeyHandlerStep(m, action, key, sendOk)
  }

  // ---------------------------------------------------------------------
  // Properties of the handler

  /** Before a widget has focus every action is ignored, `Quit` included. */
  lemma InitIgnoresEveryAction(m: AppModel, action: Action, key: Key, sendOk: bool)
    requires m.state == Init
    ensures KeyHandlerStep(m, action, key, sendOk) == Step(m, Continue)
  {
  }

  /** A fresh `App` ignores every key, even Ctrl-c. */
  lemma NewAppIgnoresEveryKey(clock: DateTime, key: Key, sendOk: bool)
    ensures KeyHandled(NewModel(clock), key)
    ensures DoActionStep(NewModel(clock), key, sendOk) == Step(NewModel(clock), Continue)
  {
  }

  /** The loop is told to exit exactly for `Quit` once a widget has focus,
      and exiting changes nothing. */
  lemma ExitOnlyOnQuit(m: AppModel, action: Action, key: Key, sendOk: bool)
    requires Handled(m, action)
    ensures KeyHandlerStep(m, action, key, sendOk).ret == Exit <==> action == Quit && m.state.IsInitialized()
    ensures KeyHandlerStep(m, action, key, sendOk).ret == Exit ==> KeyHandlerStep(m, action, key, sendOk).next == m
  {
  }

  /** A key no action of the table owns changes nothing. */
  lemma UnboundKeyIsIgnored(m: AppModel, key: Key, sendOk: bool)
    requires forall a :: a in m.actions.list ==> key !in a.Keys()
    ensures KeyHandled(m, key)
    ensures DoActionStep(m, key, sendOk) == Step(m, Continue)
  {
  }

  /** No key moves the focus onto the selection list: the action that would
      is never found in the table. So the selection-list keys are reached
      only from a model already focused there. */
  lemma SelectionNeverGainsFocus(m: AppModel, key: Key, sendOk: bool)
    requires KeyHandled(m, key)
    requires m.state.FocusedWidget() != Some(SelectedCountries)
    ensures DoActionStep(m, key, sendOk).next.state.FocusedWidget() != Some(SelectedCountries)
  {
    FindSkipsUnlistedActions(m.actions, key);
    if m.actions.Find(key).Some? {
      HandlerKeepsFocusOff(m, m.actions.Find(key).value, key, sendOk);
    }
  }

  lemma HandlerKeepsFocusOff(m: AppModel, action: Action, key: Key, sendOk: bool)
    requires Handled(m, action) && action != Focus(SelectedCountries)
    requires m.state.FocusedWidget() != Some(SelectedCountries)
    ensures KeyHandlerStep(m, action, key, sendOk).next.state.FocusedWidget() != Some(SelectedCountries)
  {
    var next := KeyHandlerStep(m, action, key, sendOk).next;
    if m.state.FocusedWidget().Some? {
      if action.Focus? {
        assert next.state == m.state.UpdateFocusedWidget(action.widget);
      } else if action.Action? {
        var focused := m.state.FocusedWidget().value;
        if focused == CountryFilter {
          FilterActionFocus(m, key);
        } else if focused == Mirrors {
          MirrorsActionKeepsState(m, key);
        }
      }
    }
  }

  /** The filter's handler changes the state only when Ctrl-a focuses the
      mirrors table. */
  lemma FilterActionFocus(m: AppModel, key: Key)
    ensures FilterAction(m, key).state == m.state ||
            FilterAction(m, key).state == m.state.UpdateFocusedWidget(Mirrors)
  {
  }

  lemma MirrorsActionKeepsState(m: AppModel, key: Key)
    ensures MirrorsAction(m, key).state == m.state
  {
    ScrollsKeepState(m, AllMirrors);
  }

  lemma ScrollsKeepState(m: AppModel, t: ScrollableTables)
    ensures ScrolledPrev(m, t).state == m.state && ScrolledNext(m, t).state == m.state
  {
  }

  /** Upper-case letters never reach the handler, so they never edit the
      filter. */
  lemma UpperCaseIsIgnored(m: AppModel, c: char, sendOk: bool)
    requires 'A' <= c <= 'Z'
    ensures KeyHandled(m, Char(c))
    ensures DoActionStep(m, Char(c), sendOk) == Step(m, Continue)
  {
    UpperCaseTriggersNothing(m.actions, c);
  }

  /** With the filter focused, a character key that the table gives to the
      generic action is appended to the filter; the mirrors-table cursor is
      cleared and nothing else changes. After `App::initialized` every
      lower-case letter and space is such a key (InitializedTableFindsAction). */
  lemma TypingAppendsToFilter(m: AppModel, key: Key, sendOk: bool)
    requires key.Char? && m.actions.Find(key) == Some(Action.Action)
    requires m.state.FocusedWidget() == Some(CountryFilter)
    ensures KeyHandled(m, key)
    ensures DoActionStep(m, key, sendOk) == Step(m.(countryFilter := m.countryFilter + [key.c], table := None), Continue)
  {
    assert Handled(m, Action.Action);
  }

  /** With the filter focused and Backspace bound to the generic action,
      Backspace removes the last character of the filter; the mirrors-table
      cursor is cleared and nothing else changes. */
  lemma BackspacePopsFilter(m: AppModel, sendOk: bool)
    requires m.actions.Find(Backspace) == Some(Action.Action)
    requires m.state.FocusedWidget() == Some(CountryFilter)
    ensures KeyHandled(m, Backspace)
    ensures DoActionStep(m, Backspace, sendOk) == Step(m.(countryFilter := PopChar(m.countryFilter), table := None), Continue)
  {
    assert Handled(m, Action.Action);
  }

  /** In the full table, letters, space and the named editing keys all go to
      the generic action. */
  lemma InitializedTableFindsAction(k: Key)
    requires (k.Char? && ('a' <= k.c <= 'z' || k.c == ' ')) || k == Backspace
    ensures Actions(INITIALIZED_ACTIONS).Find(k) == Some(Action.Action)
  {
    ActionOwns(k);
    FindReturnsOwner(Actions(INITIALIZED_ACTIONS), Action.Action, k);
  }

  /** Once initialized, typing a character into the focused filter and
      then pressing Backspace gives back the filter, with the table cursor
      cleared. */
  lemma TypeThenBackspaceRestores(m: AppModel, c: char, sendOk: bool)
    requires m.actions == Actions(INITIALIZED_ACTIONS)
    requires m.state.FocusedWidget() == Some(CountryFilter)
    requires 'a' <= c <= 'z' || c == ' '
    ensures KeyHandled(m, Char(c))
    ensures var m1 := DoActionStep(m, Char(c), sendOk).next;
            KeyHandled(m1, Backspace) && DoActionStep(m1, Backspace, sendOk).next == m.(table := None)
  {
    assert m.actions.Find(Char(c)) == Some(Action.Action) by {
      InitializedTableFindsAction(Char(c));
    }
    assert m.actions.Find(Backspace) == Some(Action.Action) by {
      InitializedTableFindsAction(Backspace);
    }
    TypingAppendsToFilter(m, Char(c), sendOk);
    var m1 := m.(countryFilter := m.countryFilter + [c], table := None);
    BackspacePopsFilter(m1, sendOk);
    PushThenPopRestores(m.countryFilter, c);
  }

  /** Pushing a character and popping it again restores the filter. */
  lemma PushThenPopRestores(s: string, ch: char)
    ensures PopChar(s + [ch]) == s
  {
  }

  /** Enter on the mirrors table adds at most one entry, at the end, and only
      one whose name was not yet selected and which is the filtered row under
      the cursor. */
  lemma SelectionAddsAtMostOne(m: AppModel)
    ensures var after := SelectedAtCursor(m).selectedCountries;
            after == m.selectedCountries ||
            (m.table.Some? &&
             var inner := Render.FilteredCountries(m.mirrors.countries, m.countryFilter);
             m.table.value < |inner| &&
             after == m.selectedCountries + [SelectedCountry(inner[m.table.value], m.countryFilter, m.table.value)] &&
             !AlreadySelected(m.selectedCountries, inner[m.table.value].country))
    ensures var inner := Render.FilteredCountries(m.mirrors.countries, m.countryFilter);
            m.table.Some? && m.table.value < |inner| &&
            !AlreadySelected(m.selectedCountries, inner[m.table.value].country) ==>
              SelectedAtCursor(m).selectedCountries ==
                m.selectedCountries + [SelectedCountry(inner[m.table.value], m.countryFilter, m.table.value)]
    ensures SelectedAtCursor(m).(selectedCountries := m.selectedCountries) == m
  {
  }

  /** Selecting the same row twice adds it once. */
  lemma SelectingTwiceAddsOnce(m: AppModel)
    ensures SelectedAtCursor(SelectedAtCursor(m)) == SelectedAtCursor(m)
  {
    var m1 := SelectedAtCursor(m);
    if m1 != m {
      var index := m.table.value;
      var inner := Render.FilteredCountries(m.mirrors.countries, m.countryFilter);
      var e := m1.selectedCountries[|m1.selectedCountries| - 1];
      assert e in m1.selectedCountries && e.country.country == inner[index].country;
    }
  }

  /** Adding a country keeps the names of the selection list distinct. */
  lemma SelectionKeepsNamesDistinct(m: AppModel)
    requires SelectedNamesDistinct(m.selectedCountries)
    ensures SelectedNamesDistinct(SelectedAtCursor(m).selectedCountries)
  {
    var list := m.selectedCountries;
    var after := SelectedAtCursor(m).selectedCountries;
    if after != list {
      forall i, j | 0 <= i < j < |after| ensures after[i].country.country != after[j].country.country {
        if j == |list| {
          assert after[i] == list[i];
          assert list[i] in list;
        }
      }
    }
  }

  /** Removing the only selected entry empties the list and unsets its cursor. */
  lemma RemovingSoleEntryClearsCursor(m: AppModel, e: SelectedCountry)
    requires m.selectedCountries == [e] && m.selectedTable == Some(0)
    ensures RemovedAtCursor(m).selectedCountries == []
    ensures RemovedAtCursor(m).selectedTable.None?
  {
  }

  lemma RemovalKeepsInvariant(m: AppModel)
    requires Invariant(m)
    ensures Invariant(RemovedAtCursor(m))
  {
    var list, cursor := m.selectedCountries, m.selectedTable;
    var after := RemovedAtCursor(m).selectedCountries;
    if cursor.Some? {
      var k := cursor.value;
      forall i, j | 0 <= i < j < |after| ensures after[i].country.country != after[j].country.country {
        var i', j' := if i < k then i else i + 1, if j < k then j else j + 1;
        assert after[i] == list[i'] && after[j] == list[j'];
      }
    }
  }

  /** Scrolling only moves a cursor within its table and may focus a
      selected country. */
  lemma ScrollKeeps(m: AppModel, t: ScrollableTables)
    requires Invariant(m)
    ensures Invariant(ScrolledPrev(m, t)) && ScrolledPrev(m, t).state == m.state
    ensures Invariant(ScrolledNext(m, t)) && ScrolledNext(m, t).state == m.state
  {
    var items := Items(m, t);
    assert t == SavedMirrors ==> CursorIn(Cursor(m, t), items);
  }

  lemma FilterActionKeeps(m: AppModel, key: Key)
    requires Invariant(m) && m.state.IsInitialized()
    ensures Invariant(FilterAction(m, key)) && FilterAction(m, key).state.IsInitialized()
  {
  }

  lemma MirrorsActionKeeps(m: AppModel, key: Key)
    requires Invariant(m)
    ensures Invariant(MirrorsAction(m, key)) && MirrorsAction(m, key).state == m.state
  {
    if key == Enter || key == Char(' ') {
      SelectionKeepsNamesDistinct(m);
    } else {
      ScrollKeeps(m, AllMirrors);
    }
  }

  lemma SelectedActionKeeps(m: AppModel, key: Key)
    requires Invariant(m)
    ensures Invariant(SelectedAction(m, key)) && SelectedAction(m, key).state == m.state
  {
    if key == Enter || key == Char(' ') {
      RemovalKeepsInvariant(m);
    } else {
      ScrollKeeps(m, SavedMirrors);
    }
  }

  /** Every handled step keeps the invariant, and no step brings an
      initialized state back to `Init`. */
  lemma StepKeepsInvariant(m: AppModel, action: Action, key: Key, sendOk: bool)
    requires Handled(m, action)
    requires Invariant(m)
    ensures Invariant(KeyHandlerStep(m, action, key, sendOk).next)
    ensures m.state.IsInitialized() ==> KeyHandlerStep(m, action, key, sendOk).next.state.IsInitialized()
  {
    var next := KeyHandlerStep(m, action, key, sendOk).next;
    if m.state.FocusedWidget().Some? && action.Action? {
      var focused := m.state.FocusedWidget().value;
      match focused {
        case CountryFilter =>
          FilterActionKeeps(m, key);
          assert next == FilterAction(m, key);
        case Protocols =>
        case Mirrors =>
          MirrorsActionKeeps(m, key);
          assert next == MirrorsAction(m, key);
        case SelectedCountries =>
          SelectedActionKeeps(m, key);
          assert next == SelectedAction(m, key);
      }
    }
  }

  /** The table installed by `initialized` builds: its actions are distinct. */
  lemma InitializedTableBuilds()
    ensures !HasClash(INITIALIZED_ACTIONS)
  {
    DistinctActionsNeverClash(INITIALIZED_ACTIONS);
  }

  /** Loading a catalog and initializing: the state is initialized with the
      filter focused, the catalog is in place, and Ctrl-c then ends the loop
      whichever widget has focus. */
  lemma StartThenQuit(clock: DateTime, catalog: ArchMirrors, w: Widgets, sendOk: bool)
    ensures var m := InitializedModel(NewModel(clock).(mirrors := catalog));
            m.state.IsInitialized() && m.state.FocusedWidget() == Some(CountryFilter) &&
            m.mirrors == catalog &&
            KeyHandled(m, Ctrl('c')) && DoActionStep(m, Ctrl('c'), sendOk).ret == Exit
    ensures var m := InitializedModel(NewModel(clock).(mirrors := catalog)).(state := DefaultInitialized().UpdateFocusedWidget(w));
            KeyHandled(m, Ctrl('c')) && DoActionStep(m, Ctrl('c'), sendOk).ret == Exit
  {
    var m := InitializedModel(NewModel(clock).(mirrors := catalog));
    FindReturnsOwner(m.actions, Quit, Ctrl('c'));
  }

  // ---------------------------------------------------------------------
  // The application object

  class App {
    var isLoading: bool
    var actions: Actions
    var state: AppState
    var mirrors: ArchMirrors
    var countryFilter: string
    var clock: DateTime
    var table: Option<nat>
    var selectedCountries: seq<SelectedCountry>
    var selectedTable: Option<nat>
    var focusedCountry: Url

    function Model(): AppModel
      reads this
    {
      AppModel(isLoading, actions, state, mirrors, countryFilter, clock, table,
               selectedCountries, selectedTable, focusedCountry)
    }

    /** `App::new`: the clock is read by the caller. */
    constructor (now: DateTime)
      ensures Model() == NewModel(now)
      ensures Invariant(Model())
    {
      DistinctActionsNeverClash([Quit]);
      var built := From([Quit]);
      actions := built.value;
      isLoading := false;
      state := Default();
      mirrors := EMPTY_CATALOG;
      countryFilter := "";
      clock := now;
      table := None;
      selectedTable := None;
      selectedCountries := [];
      focusedCountry := NO_COUNTRY;
    }

    /** `do_action`. */
    method DoAction(key: Key, sendOk: bool) returns (r: AppReturn)
      requires KeyHandled(Model(), key)
      modifies this
      ensures Step(Model(), r) == DoActionStep(old(Model()), key, sendOk)
    {
      var found := actions.Find(key);
      match found {
        case None => r := Continue;
        case Some(action) => r := KeyHandler(action, key, sendOk);
      }
    }

    /** `update_on_tick`: a placeholder that changes nothing. */
    method UpdateOnTick() returns (r: AppReturn)
      ensures r == Continue
    {
      r := Continue;
    }

    /** `dispatch`: the loading flag is raised and dropped again when the
        channel refuses the event. */
    method Dispatch(sendOk: bool)
      modifies this
      ensures Model() == old(Model()).(isLoading := sendOk)
    {
      isLoading := true;
      if !sendOk {
        isLoading := false;
      }
    }

    /** `initialized`: installs the full action table and the initial
        focused state. */
    method Initialized()
      modifies this
      ensures Model() == InitializedModel(old(Model()))
    {
      InitializedTableBuilds();
      var built := From(INITIALIZED_ACTIONS);
      actions := built.value;
      state := DefaultInitialized();
    }

    method Loaded()
      modifies this
      ensures Model() == old(Model()).(isLoading := false)
    {
      isLoading := false;
    }

    method Slept()
      modifies this
      ensures Model() == old(Model()).(state := old(state).IncrSleep())
    {
      state := state.IncrSleep();
    }

    method UpdateClock(now: DateTime)
      modifies this
      ensures Model() == old(Model()).(clock := now)
    {
      clock := now;
    }

    method UpdateMirrors(catalog: ArchMirrors)
      modifies this
      ensures Model() == old(Model()).(mirrors := catalog)
    {
      mirrors := catalog;
    }

    /** `table_info`: the cursor of the table and its number of rows. */
    method TableInfo(t: ScrollableTables) returns (cursor: Option<nat>, items: nat)
      ensures cursor == Cursor(Model(), t) && items == Items(Model(), t)
    {
      match t {
        case AllMirrors => cursor, items := table, |mirrors.countries|;
        case SavedMirrors => cursor, items := selectedTable, |selectedCountries|;
      }
    }

    method Select(t: ScrollableTables, c: Option<nat>)
      modifies this
      ensures Model() == WithCursor(old(Model()), t, c)
    {
      match t {
        case AllMirrors => table := c;
        case SavedMirrors => selectedTable := c;
      }
    }

    method UpdateMirrorsWidget(t: ScrollableTables, index: nat)
      modifies this
      ensures Model() == MirrorsWidgetUpdated(old(Model()), t, index)
    {
      match t {
        case AllMirrors =>
        case SavedMirrors =>
          if index < |selectedCountries| {
            focusedCountry := selectedCountries[index].country;
          }
      }
    }

    /** `scroll_prev`, with the empty table left unselected. */
    method ScrollPrev(t: ScrollableTables)
      modifies this
      ensures Model() == ScrolledPrev(old(Model()), t)
    {
      var cursor, items := TableInfo(t);
      var i := PrevCursor(cursor, items);
      Select(t, i);
      if i.Some? {
        UpdateMirrorsWidget(t, i.value);
      }
    }

    /** `scroll_next`, with the empty table left unselected. */
    method ScrollNext(t: ScrollableTables)
      modifies this
      ensures Model() == ScrolledNext(old(Model()), t)
    {
      var cursor, items := TableInfo(t);
      var i := NextCursor(cursor, items);
      Select(t, i);
      if i.Some? {
        UpdateMirrorsWidget(t, i.value);
      }
    }

    /** Enter or space on the mirrors table. */
    method SelectCountry()
      modifies this
      ensures Model() == SelectedAtCursor(old(Model()))
    {
      if table.Some? {
        var index := table.value;
        var inner := Render.FilteredCountries(mirrors.countries, countryFilter);
        if index < |inner| {
          var f := inner[index];
          var present := false;
          var i := 0;
          while i < |selectedCountries|
            invariant 0 <= i <= |selectedCountries|
            invariant present <==> exists w :: w in selectedCountries[..i] && w.country.country == f.country
          {
            if selectedCountries[i].country.country == f.country {
              present := true;
            }
            assert selectedCountries[..i + 1] == selectedCountries[..i] + [selectedCountries[i]];
            i := i + 1;
          }
          assert selectedCountries[..i] == selectedCountries;
          if !present {
            selectedCountries := selectedCountries + [SelectedCountry(f, countryFilter, index)];
          }
        }
      }
    }

    /** Enter or space on the selection list. */
    method RemoveSelected()
      modifies this
      ensures Model() == RemovedAtCursor(old(Model()))
    {
      if selectedTable.Some? {
        var index := selectedTable.value;
        if index < |selectedCountries| {
          selectedCountries := selectedCountries[..index] + selectedCountries[index + 1..];
          if selectedCountries == [] {
            selectedTable := None;
          } else if index >= |selectedCountries| {
            selectedTable := Some(|selectedCountries| - 1);
          }
        }
      }
    }

    method FilterKey(key: Key)
      modifies this
      ensures Model() == FilterAction(old(Model()), key)
    {
      match key {
        case Backspace =>
          countryFilter := PopChar(countryFilter);
          table := None;
        case Char(ch) =>
          countryFilter := countryFilter + [ch];
          table := None;
        case Ctrl(c) =>
          if c == 'a' {
            state := state.UpdateFocusedWidget(Mirrors);
          }
        case _ =>
      }
    }

    method MirrorsKey(key: Key)
      modifies this
      ensures Model() == MirrorsAction(old(Model()), key)
    {
      if key == Enter || key == Char(' ') {
        SelectCountry();
      } else if key == Up || key == Char('k') {
        ScrollNext(AllMirrors);
      } else if key == Down || key == Char('j') {
        ScrollPrev(AllMirrors);
      }
    }

    method SelectedKey(key: Key)
      modifies this
      ensures Model() == SelectedAction(old(Model()), key)
    {
      if key == Enter || key == Char(' ') {
        RemoveSelected();
      } else if key == Up || key == Char('k') {
        ScrollNext(SavedMirrors);
      } else if key == Down || key == Char('j') {
        ScrollPrev(SavedMirrors);
      }
    }

    /** `key_handler`. */
    method KeyHandler(action: Action, key: Key, sendOk: bool) returns (r: AppReturn)
      requires Handled(Model(), action)
      modifies this
      ensures Step(Model(), r) == KeyHandlerStep(old(Model()), action, key, sendOk)
    {
      var focused := state.FocusedWidget();
      if focused.None? {
        return Continue;
      }
      match action {
        case Quit => r := Exit;
        case Sleep =>
          Dispatch(sendOk);
          r := Continue;
        case Focus(w) =>
          state := state.UpdateFocusedWidget(w);
          r := Continue;
        case Action =>
          match focused.value {
            case CountryFilter => FilterKey(key);
            case Mirrors => MirrorsKey(key);
            case SelectedCountries => SelectedKey(key);
          }
          r := Continue;
        case SimpleExport => r := Continue;
      }
    }

    function FocusedCountry(): (c: Url)
      reads this
      ensures c == Model().focusedCountry
    {
      focusedCountry
    }
  }

  /** From start-up to exit: a new `App` loads a catalog, is initialized,
      and exits on Ctrl-c. */
  method EndToEnd(now: DateTime, catalog: ArchMirrors) returns (r: AppReturn, app: App)
    ensures r == Exit
    ensures app.state.IsInitialized() && app.state.FocusedWidget() == Some(CountryFilter)
    ensures app.mirrors == catalog
  {
    app := new App(now);
    app.UpdateMirrors(catalog);
    app.Initialized();
    StartThenQuit(now, catalog, CountryFilter, false);
    r := app.DoAction(Ctrl('c'), false);
  }
}
