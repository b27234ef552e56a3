# mirro-rs core in Dafny

mirro-rs is a terminal program for choosing Arch Linux package mirrors. It
downloads the mirror status feed from archlinux.org and groups the mirrors
by country. It then shows a filterable table of countries, lets the user
collect countries into a selection list, and exports the selected mirrors.

This project models the program's core:

- `actions.dfy` (module `ActionTable`): the action table of
  `mirro-rs/src/app/actions.rs`. Each action owns a fixed list of keys.
  Building a table fails when two listed actions share a key. `Find` picks the
  first action, in the fixed iteration order, that is in the table and owns
  the key.
- `state.dfy` (module `AppStates`): the `AppState` lifecycle of
  `mirro-rs/src/app/state.rs`. The state is `Init` or `Initialized` with a
  sleep duration, two counters and the focused widget.
- `app.dfy` (module `Application`): the `App` of `mirro-rs/src/app/mod.rs`.
  It is a class whose fields mirror the Rust struct. Every method is proved
  against a value-level specification: `AppModel` with `KeyHandlerStep` and
  `DoActionStep`. The lemmas about that specification carry the properties:
  - only `Quit` exits
  - unbound keys are ignored
  - the filter is edited by letters, space and backspace
  - a country is selected at most once
  - every key keeps the table cursors inside their tables
- `catalog.dfy` (module `Catalog`): the conversion of the raw status feed
  into per-country groups, `From<ArchLinuxMirrors> for ArchMirrors` in
  `linux-mirrors/src/archlinux/response.rs`. It is imperative: a loop fills a
  map, then a second pass builds one entry per country.
- `ui.dfy` (module `Render`): the pure helpers of `mirro-rs/src/app/ui.rs`:
  - the case-insensitive country filter, with the unnamed country shown as
    "misc"
  - `rgb_from_hex` and the colour fallbacks built on it
  - the terminal size check
- `common.dfy` (module `Common`): `Option`, `Result`, the panic kinds and the
  unsigned integer ranges.

Integer arithmetic follows a release build. `u32` and `u64` counters and
`usize` subtraction wrap around instead of panicking. Rust panics that the
model does reach are values. The as-written removal from the selection list
returns `Result<_, Panic>`, with `IndexOutOfBounds` for `Vec::remove` past the
end. `From` for the action table returns the set of clashing keys where the
source panics, and the terminal size check returns a `SizeError`. The outcome of sending on the I/O channel is a boolean
parameter `sendOk`. The clock is an opaque `DateTime` value.

## Model

| member | source | states |
|---|---|---|
| AppStates.AppState.IncrSleep | mirro-rs/src/app/state.rs:38-42 | Leaves `Init` unchanged. On an initialized state it bumps only the sleep counter (wrapping at 2^32) and keeps the tick counter, duration and focus |
| AppStates.AppState.IncrTick | mirro-rs/src/app/state.rs:44-48 | Leaves `Init` unchanged. On an initialized state it bumps only the tick counter (wrapping at 2^64) and keeps everything else |
| AppStates.AppState.UpdateFocusedWidget | mirro-rs/src/app/state.rs:85-95 | Always yields an initialized state focused on the widget, with the 1 s duration and both counters reset to 0 |
| AppStates.WrappingIncr32 | mirro-rs/src/app/state.rs:38-42 | `+= 1` on a u32 gives c+1 below the maximum and 0 at the maximum |
| AppStates.WrappingIncr64 | mirro-rs/src/app/state.rs:44-48 | `+= 1` on a u64 gives c+1 below the maximum and 0 at the maximum |
| AppStates.Default | mirro-rs/src/app/state.rs:98-102 | The default state is not initialized and every getter answers None |
| AppStates.DefaultInitialized | mirro-rs/src/app/state.rs:22-32 | `initialized()` has duration 1 s, both counters 0, and focus on the country filter |
| AppStates.GettersAnswerIffInitialized | mirro-rs/src/app/state.rs:50-83 | Each of the four getters returns Some exactly when the state is initialized |
| AppStates.AppState.IsInitialized | mirro-rs/src/app/state.rs:34-36 | Whether a widget has focus. Stated by AppStates.GettersAnswerIffInitialized and AppStates.NoTransitionBackToInit |
| AppStates.AppState.CountSleep | mirro-rs/src/app/state.rs:50-56 | The sleep counter of an initialized state. Stated by AppStates.GettersAnswerIffInitialized |
| AppStates.AppState.CountTick | mirro-rs/src/app/state.rs:58-64 | The tick counter of an initialized state. Stated by AppStates.GettersAnswerIffInitialized |
| AppStates.AppState.GetDuration | mirro-rs/src/app/state.rs:66-71 | The sleep duration of an initialized state. Stated by AppStates.GettersAnswerIffInitialized |
| AppStates.AppState.FocusedWidget | mirro-rs/src/app/state.rs:73-83 | The focused widget of an initialized state. Stated by AppStates.GettersAnswerIffInitialized and AppStates.AppState.UpdateFocusedWidget |
| AppStates.NoTransitionBackToInit | mirro-rs/src/app/state.rs:38-95 | No transition takes an initialized state back to `Init` |
| AppStates.FocusChangeResetsCounters | mirro-rs/src/app/state.rs:85-95 | Changing focus forgets earlier sleeps and ticks. Focusing the country filter gives exactly `initialized()` |
| ActionTable.LetterKeys | mirro-rs/src/app/actions.rs:41-66 | The 26 letter keys of `Action::Action`, 'a' to 'z' in order |
| ActionTable.Action.Keys | mirro-rs/src/app/actions.rs:33-75 | The key list of each action, in source order. Stated by ActionTable.LetterKeys, ActionTable.KeysDistinct, ActionTable.DisjointKeys and ActionTable.KeyOwnerIsUnique |
| ActionTable.Iterator | mirro-rs/src/app/actions.rs:20-30 | The six iterated actions in source order. Stated by ActionTable.FindSkipsUnlistedActions and ActionTable.FindReturnsOwner |
| ActionTable.Actions.Find | mirro-rs/src/app/actions.rs:100-104 | Some(a) means a is in the table, in the iteration order and owns the key, and no earlier action of the iteration order does. None means no action of the iteration order that is in the table owns the key |
| ActionTable.FirstMatch | mirro-rs/src/app/actions.rs:101-103 | The filtered `find` returns the first candidate that is in the table and owns the key, or None when no candidate does |
| ActionTable.From | mirro-rs/src/app/actions.rs:113-144 | Succeeds exactly when no two listed actions share a key, and then wraps the list unchanged. Otherwise it fails with the non-empty set of keys owned by two or more actions |
| ActionTable.ActionOwns | mirro-rs/src/app/actions.rs:40-73 | The generic action owns exactly the lower-case letters, space, Up, Enter, Down, Backspace and Esc |
| ActionTable.KeysDistinct | mirro-rs/src/app/actions.rs:33-75 | No action lists the same key twice |
| ActionTable.DisjointKeys | mirro-rs/src/app/actions.rs:33-75 | Two different actions never share a key |
| ActionTable.KeyOwnerIsUnique | mirro-rs/src/app/actions.rs:33-75 | Every key an action declares has that action as its only possible owner |
| ActionTable.ClashIffRepeatedAction | mirro-rs/src/app/actions.rs:113-140 | A list clashes exactly when some action that owns keys occurs twice in it |
| ActionTable.DistinctActionsNeverClash | mirro-rs/src/app/actions.rs:113-143 | A list without repeated actions always builds a table |
| ActionTable.AddKeysGet | mirro-rs/src/app/actions.rs:117-124 | Pushing an action under each of its keys appends it to exactly those keys' vectors |
| ActionTable.KeyIndexOwners | mirro-rs/src/app/actions.rs:115-125 | The key map built by the loop sends each key to the actions owning it, in list order, and holds only keys somebody owns |
| ActionTable.OwnersAreCounted | mirro-rs/src/app/actions.rs:115-128 | The length of a key's vector is the number of list entries owning that key |
| ActionTable.CountTrueAtLeastOne | mirro-rs/src/app/actions.rs:126-128 | Counting: at least one owner exactly when some entry owns the key |
| ActionTable.CountTrueAtLeastTwo | mirro-rs/src/app/actions.rs:126-128 | Counting: at least two owners exactly when two distinct positions own the key |
| ActionTable.ErrorsAreClashingKeys | mirro-rs/src/app/actions.rs:126-140 | The keys whose vectors are longer than one are exactly the clashing keys. There are none exactly when the list has no clash |
| ActionTable.FindReturnsOwner | mirro-rs/src/app/actions.rs:100-104 | A key owned by an iterated action that is in the table finds that action |
| ActionTable.FindSkipsUnlistedActions | mirro-rs/src/app/actions.rs:20-30 | Actions outside the six of `iterator()` are never found |
| ActionTable.UpperCaseTriggersNothing | mirro-rs/src/app/actions.rs:33-104 | An upper-case letter finds no action in any table |
| ActionTable.CtrlNeverTriggersAction | mirro-rs/src/app/actions.rs:40-73 | No Ctrl key belongs to the generic action |
| ActionTable.FindExamples | mirro-rs/src/app/actions.rs:100-104 | With `[Quit, Sleep]`, Ctrl-c finds Quit and Alt-w finds nothing |
| ActionTable.FromExamples | mirro-rs/src/app/actions.rs:113-140 | The five focus/quit/sleep actions build a table. A list repeating Sleep and Quit clashes |
| Catalog.FirstWithCountry | linux-mirrors/src/archlinux/response.rs:137-142 | `find` returns the earliest record of the country. It returns None exactly when no record has that country |
| Catalog.ToMirror | linux-mirrors/src/archlinux/response.rs:91-125 | The field-by-field conversion of one feed record, dropping its country and code. Stated by Catalog.RecordLandsInItsGroup and Catalog.MirrorsOfContains |
| Catalog.MirrorsOf | linux-mirrors/src/archlinux/response.rs:90-127 | The converted records of one country in feed order: what the map holds for that country. Stated by Catalog.GroupByCountry, Catalog.MirrorsOfContains and Catalog.MirrorsOfAbsent |
| Catalog.GroupByCountry | linux-mirrors/src/archlinux/response.rs:90-127 | The map's keys are exactly the feed's country names. Each key holds that country's records, converted and in feed order |
| Catalog.GroupStep | linux-mirrors/src/archlinux/response.rs:90-127 | Pushing one more record onto its country's entry (created empty if absent) gives exactly the grouping of the longer prefix: keys are the names seen, each holding its records in order |
| Catalog.CountryEntry | linux-mirrors/src/archlinux/response.rs:130-146 | An entry keeps the country name and its mirrors. Its code is the first matching record's code, or "" when there is none |
| Catalog.CollectCountries | linux-mirrors/src/archlinux/response.rs:128-147 | One entry per map key, in any order: names distinct and equal to the key set, and each entry's mirrors and code as above |
| Catalog.CollectStep | linux-mirrors/src/archlinux/response.rs:128-147 | Taking one remaining country out of the map adds a correct entry and keeps the collected names distinct and disjoint from the rest |
| Catalog.FromExternal | linux-mirrors/src/archlinux/response.rs:88-158 | The result is normalised. The header fields are copied, each feed country has exactly one entry, and every entry holds that country's mirrors and first code |
| Catalog.MirrorsOfAbsent | linux-mirrors/src/archlinux/response.rs:109-111 | A country absent from the feed has no mirrors |
| Catalog.GroupingConservesMirrors | linux-mirrors/src/archlinux/response.rs:88-158 | The grouped catalog holds exactly as many mirrors as the feed has records |
| Catalog.RecordLandsInItsGroup | linux-mirrors/src/archlinux/response.rs:109-126 | Every feed record appears, converted, in an entry of its country. Exactly one entry has that name, and its code is the code of a record of that country at or before this one |
| Catalog.CountNamedCoversAll | linux-mirrors/src/archlinux/response.rs:90-127 | Records are partitioned by country: counting per entry covers every record once |
| Catalog.TotalIsCountNamed | linux-mirrors/src/archlinux/response.rs:128-147 | The total of the entries' mirror counts is the per-country record count |
| Catalog.MirrorsOfContains | linux-mirrors/src/archlinux/response.rs:109-126 | Each record's mirror is in its country's group |
| Catalog.DistinctNamesCount | linux-mirrors/src/archlinux/response.rs:128-147 | With distinct names, the number of entries equals the number of countries |
| Catalog.GroupingExample | linux-mirrors/src/archlinux/response.rs:88-158 | Two FR records and one unnamed record give two entries: FR with both mirrors in order, and "" with one |
| Render.FilteredCountries | mirro-rs/src/app/ui.rs:350-355 | Keeps exactly the countries whose lower-cased name contains the lower-cased filter, and never more than there were. That catalog order is kept is stated by Render.FilterDistributes |
| Render.DisplayName | mirro-rs/src/app/ui.rs:356-359 | A displayed name is never empty, and a non-empty name is shown as is |
| Render.AvailableRows | mirro-rs/src/app/ui.rs:350-364 | The one-pass `filter_map` yields, row for row, the filtered countries with their display name and mirror count |
| Render.ContainsIsSubstring | mirro-rs/src/app/ui.rs:351-354 | `contains` is true exactly when the needle occurs at some position of the haystack |
| Render.FilterDistributes | mirro-rs/src/app/ui.rs:350-364 | Filtering a concatenation filters each part, so the kept countries stay in catalog order |
| Render.EmptyFilterKeepsAll | mirro-rs/src/app/ui.rs:350-364 | The empty filter shows every country |
| Render.UnnamedShownIffFilterEmpty | mirro-rs/src/app/ui.rs:350-359 | The unnamed country is listed exactly when the filter is empty, and it is shown as "misc" |
| Render.FilterNarrowsOnPush | mirro-rs/src/app/ui.rs:350-355 | Typing one more filter character never lets in a country that was hidden |
| Render.LowerIdempotent | mirro-rs/src/app/ui.rs:353-354 | Lower-casing twice is lower-casing once |
| Render.FilterIgnoresCase | mirro-rs/src/app/ui.rs:353-354 | A filter and its lower-cased form show the same countries |
| Render.DigitsValue | mirro-rs/src/app/ui.rs:699-701 | A digit string has a value exactly when every character is a hex digit |
| Render.ParsePair | mirro-rs/src/app/ui.rs:699-701 | `u8::from_str_radix` on two characters succeeds exactly when the second is a hex digit and the first is a hex digit or `+`. It gives 16·hi+lo, or the second digit's value after `+` |
| Render.FromStrRadix16 | mirro-rs/src/app/ui.rs:699-701 | `u8::from_str_radix(_, 16)`: an optional leading `+`, then hex digits whose value is below 256. Stated by Render.DigitsValue and Render.ParsePair |
| Render.RgbFromHex | mirro-rs/src/app/ui.rs:697-721 | Three two-character slices parsed in turn, or white for a length other than six. Stated by Render.RgbFromHexWrongLength, Render.RgbFromHexSix, Render.RgbFromHexDigits, Render.HexRoundTrip and Render.HexRoundTripBack |
| Render.RgbFromHexWrongLength | mirro-rs/src/app/ui.rs:697-720 | A value not 6 characters long gives white (255,255,255), not an error |
| Render.RgbFromHexSix | mirro-rs/src/app/ui.rs:697-717 | A 6-character value parses exactly when each of its three pairs is two hex digits or `+` followed by one, and then gives the three pair values (so "+a+b+c" gives (10, 11, 12)) |
| Render.RgbFromHexDigits | mirro-rs/src/app/ui.rs:697-717 | Six hex digits give their three byte values |
| Render.HexDigit | mirro-rs/src/app/ui.rs:699-701 | The lower-case digit written for d is a hex digit of value d |
| Render.HexColour | mirro-rs/src/app/ui.rs:697-698 | A written colour is always six characters |
| Render.HexRoundTrip | mirro-rs/src/app/ui.rs:697-721 | Parsing the hex spelling of any colour gives that colour back |
| Render.HexRoundTripBack | mirro-rs/src/app/ui.rs:697-721 | Six lower-case hex digits parse, and writing the parsed colour gives back the same text |
| Render.SpellBack | mirro-rs/src/app/ui.rs:697-721 | The same round trip stated for six named lower-case digits |
| Render.ColourOrFallsBack | mirro-rs/src/app/ui.rs:723-734 | A configured colour falls back exactly when it is missing or does not parse. Otherwise it is the parsed RGB |
| Render.ColourHelpersFallBack | mirro-rs/src/app/ui.rs:682-847 | `action_key_colour` is white, and each of the ten other helpers is blue, exactly when its setting is missing or unparsable |
| Render.ActionKeyColour | mirro-rs/src/app/ui.rs:682-696 | `action_key_colour`: the configured colour, or white when it is missing or unparsable. Stated by Render.ColourHelpersFallBack |
| Render.HeadingColour | mirro-rs/src/app/ui.rs:723-734 | `heading_colour`: the configured colour, or blue when it is missing or unparsable. Stated by Render.ColourHelpersFallBack |
| Render.BorderColourMirrors | mirro-rs/src/app/ui.rs:735-747 | `border_colour_mirrors`: the configured colour, or blue when it is missing or unparsable. Stated by Render.ColourHelpersFallBack |
| Render.BorderColourCountries | mirro-rs/src/app/ui.rs:748-759 | `border_colour_countries`: the configured colour, or blue when it is missing or unparsable. Stated by Render.ColourHelpersFallBack |
| Render.HeadingColourCountries | mirro-rs/src/app/ui.rs:760-772 | `heading_colour_countries`: the configured colour, or blue when it is missing or unparsable. Stated by Render.ColourHelpersFallBack |
| Render.OsHeader | mirro-rs/src/app/ui.rs:773-784 | `os_header`: the configured colour, or blue when it is missing or unparsable. Stated by Render.ColourHelpersFallBack |
| Render.CountriesHeader | mirro-rs/src/app/ui.rs:785-796 | `countries_header`: the configured colour, or blue when it is missing or unparsable. Stated by Render.ColourHelpersFallBack |
| Render.MirrorsHeader | mirro-rs/src/app/ui.rs:797-809 | `mirrors_header`: the configured colour, or blue when it is missing or unparsable. Stated by Render.ColourHelpersFallBack |
| Render.LastCheckedHeader | mirro-rs/src/app/ui.rs:810-822 | `last_checked_header`: the configured colour, or blue when it is missing or unparsable. Stated by Render.ColourHelpersFallBack |
| Render.NowHeader | mirro-rs/src/app/ui.rs:823-835 | `now_header`: the configured colour, or blue when it is missing or unparsable. Stated by Render.ColourHelpersFallBack |
| Render.AppName | mirro-rs/src/app/ui.rs:836-847 | `app_name`: the configured colour, or blue when it is missing or unparsable. Stated by Render.ColourHelpersFallBack |
| Render.WrongLengthPaintsWhite | mirro-rs/src/app/ui.rs:697-721 | A configured colour of the wrong length paints white even where the fallback is blue |
| Render.CheckSize | mirro-rs/src/app/ui.rs:673-680 | Accepts exactly the areas at least 52 wide and 28 high. Width is checked first, and each rejection carries the offending value |
| Application.PrevCursor | mirro-rs/src/app/mod.rs:125-139 | Corrected `scroll_prev` cursor: None exactly on an empty table, 0 from no selection, otherwise i+1 wrapping to 0. It stays inside the table |
| Application.NextCursor | mirro-rs/src/app/mod.rs:141-155 | Corrected `scroll_next` cursor: None exactly on an empty table, 0 from no selection, otherwise i-1 wrapping to the last row. It stays inside the table |
| Application.ScrollsAreInverse | mirro-rs/src/app/mod.rs:125-155 | On a non-empty table, Down then Up, and Up then Down, return to the same row |
| Application.PrevTimesWraps | mirro-rs/src/app/mod.rs:125-139 | k scrolls down from row i land on (i+k) mod items |
| Application.ScrollThereAndBack | mirro-rs/src/app/mod.rs:125-155 | k scrolls down followed by k scrolls up return to the starting row |
| Application.PrevTimesInRange | mirro-rs/src/app/mod.rs:125-139 | Repeated scrolling never leaves the table |
| Application.WrappingSub | mirro-rs/src/app/mod.rs:129 | Release-build `usize` subtraction: exact when a >= b, otherwise wraps by 2^64 |
| Application.CursorsAgreeOnNonEmptyTable | mirro-rs/src/app/mod.rs:125-155 | On a non-empty table the code as written and the corrected cursors agree |
| Application.EmptyTableCursorEscapes | mirro-rs/src/app/mod.rs:125-155 | As written, scrolling an empty table selects row 0, then row 1, or row 2^64-1. The corrected cursors select nothing |
| Application.PrevCursorAsWritten | mirro-rs/src/app/mod.rs:125-139 | `scroll_prev` as written, with `usize` wrap-around. Stated by Application.EmptyTableCursorEscapes and Application.CursorsAgreeOnNonEmptyTable |
| Application.NextCursorAsWritten | mirro-rs/src/app/mod.rs:141-155 | `scroll_next` as written, with `usize` wrap-around. Stated by Application.EmptyTableCursorEscapes and Application.CursorsAgreeOnNonEmptyTable |
| Application.RemoveAtCursor | mirro-rs/src/app/mod.rs:269-281 | Corrected removal: drops exactly the row under the cursor and keeps the order. The cursor keeps its index, clamped to the new last row, and clears on an empty list, so it stays inside the list. With no cursor, or one past the end, nothing changes |
| Application.RemovalsAgreeBeforeLastRow | mirro-rs/src/app/mod.rs:269-281 | The code as written and the corrected removal agree unless the cursor is on the last row |
| Application.LastRowRemovalPanics | mirro-rs/src/app/mod.rs:269-281 | As written, removing the last of two rows leaves the cursor at 1 on a one-row list, and the next removal is out of bounds. The corrected removal moves the cursor to 0 and then clears it |
| Application.RemoveAtCursorAsWritten | mirro-rs/src/app/mod.rs:269-281 | The removal as written, with the `Vec::remove` panic as `IndexOutOfBounds`. Stated by Application.LastRowRemovalPanics, Application.RemovalsAgreeBeforeLastRow and Application.EmptySelectionScrollThenRemovePanics |
| Application.EmptySelectionScrollThenRemovePanics | mirro-rs/src/app/mod.rs:125-281 | As written, scrolling the empty selection twice selects row 1. After one country is selected, removal then panics |
| Application.PopChar | mirro-rs/src/app/mod.rs:219 | `String::pop` drops the last character and leaves the empty string alone |
| Application.PushThenPopRestores | mirro-rs/src/app/mod.rs:219-225 | Typing a character and then Backspace restores the filter |
| Application.InitIgnoresEveryAction | mirro-rs/src/app/mod.rs:182-300 | Before initialization, every action changes nothing and continues |
| Application.NewAppIgnoresEveryKey | mirro-rs/src/app/mod.rs:47-75 | A fresh app ignores every key |
| Application.ExitOnlyOnQuit | mirro-rs/src/app/mod.rs:182-301 | A handled action exits exactly when it is Quit on an initialized state, and exiting changes nothing |
| Application.UnboundKeyIsIgnored | mirro-rs/src/app/mod.rs:67-75 | A key that no action in the table owns changes nothing and continues |
| Application.UpperCaseIsIgnored | mirro-rs/src/app/mod.rs:67-75 | Upper-case letters are ignored whatever the state |
| Application.SelectionNeverGainsFocus | mirro-rs/src/app/mod.rs:182-300 | No key moves the focus onto the selection list, because the table never finds `Focus(SelectedCountries)`. The selection-list branch is reached only from a model already focused there |
| Application.HandlerKeepsFocusOff | mirro-rs/src/app/mod.rs:182-300 | Any handled action other than `Focus(SelectedCountries)` leaves the focus off the selection list when it starts off it |
| Application.InitializedTableFindsAction | mirro-rs/src/app/mod.rs:92-107 | After initialization, letters, space and Backspace find the generic action |
| Application.InitializedTableBuilds | mirro-rs/src/app/mod.rs:94-105 | The nine actions installed by `initialized` do not clash, so the `into()` cannot panic |
| Application.TypingAppendsToFilter | mirro-rs/src/app/mod.rs:215-229 | With the filter focused, a character key bound to the generic action is appended to the filter, the table cursor is cleared, and nothing else changes |
| Application.BackspacePopsFilter | mirro-rs/src/app/mod.rs:215-223 | With the filter focused and Backspace bound to the generic action, Backspace drops the filter's last character, clears the table cursor, and changes nothing else |
| Application.TypeThenBackspaceRestores | mirro-rs/src/app/mod.rs:217-229 | Typing a character and then Backspace gives back the original filter with the table cursor cleared |
| Application.SelectionAddsAtMostOne | mirro-rs/src/app/mod.rs:236-264 | Enter on the mirrors table adds at most one country, at the end. It adds the row under the cursor exactly when the cursor is on a filtered row whose country is not yet selected, and touches no other field |
| Application.SelectingTwiceAddsOnce | mirro-rs/src/app/mod.rs:249-261 | Selecting the same row twice is the same as selecting it once |
| Application.SelectionKeepsNamesDistinct | mirro-rs/src/app/mod.rs:249-261 | The selection list never holds a country twice |
| Application.RemovingSoleEntryClearsCursor | mirro-rs/src/app/mod.rs:272-278 | Removing the only selected country empties the list and clears its cursor |
| Application.RemovalKeepsInvariant | mirro-rs/src/app/mod.rs:269-281 | The corrected removal keeps both cursors inside their tables and the selected names distinct |
| Application.ScrollKeeps | mirro-rs/src/app/mod.rs:125-166 | Scrolling either table keeps the invariant and the state machine |
| Application.FilterActionKeeps | mirro-rs/src/app/mod.rs:217-234 | Filter editing keeps the invariant and an initialized state |
| Application.MirrorsActionKeeps | mirro-rs/src/app/mod.rs:236-267 | The mirrors-table keys keep the invariant and the state |
| Application.SelectedActionKeeps | mirro-rs/src/app/mod.rs:269-287 | The selection-table keys keep the invariant and the state |
| Application.StepKeepsInvariant | mirro-rs/src/app/mod.rs:182-301 | Every handled key keeps both cursors inside their tables and the selection names distinct. An initialized app stays initialized |
| Application.NewModel | mirro-rs/src/app/mod.rs:47-65 | The fields of `App::new`. Stated by Application.NewAppIgnoresEveryKey and Application.App.constructor |
| Application.InitializedModel | mirro-rs/src/app/mod.rs:92-107 | The nine actions and the initialized state of `App::initialized`. Stated by Application.InitializedTableBuilds, Application.InitializedTableFindsAction and Application.StartThenQuit |
| Application.SelectedAtCursor | mirro-rs/src/app/mod.rs:237-263 | Enter on the mirrors table. Stated by Application.SelectionAddsAtMostOne, Application.SelectingTwiceAddsOnce and Application.SelectionKeepsNamesDistinct |
| Application.RemovedAtCursor | mirro-rs/src/app/mod.rs:269-281 | Enter on the selection list, with the corrected removal. Stated by Application.RemoveAtCursor and Application.RemovalKeepsInvariant |
| Application.FilterAction | mirro-rs/src/app/mod.rs:217-234 | The generic action with the filter focused. Stated by Application.TypingAppendsToFilter, Application.BackspacePopsFilter, Application.FilterActionFocus and Application.FilterActionKeeps |
| Application.FilterActionFocus | mirro-rs/src/app/mod.rs:230-232 | The filter handler changes the state only by focusing the mirrors table |
| Application.MirrorsAction | mirro-rs/src/app/mod.rs:236-267 | The generic action with the mirrors table focused. Stated by Application.MirrorsActionKeepsState, Application.MirrorsActionKeeps and Application.SelectionAddsAtMostOne |
| Application.MirrorsActionKeepsState | mirro-rs/src/app/mod.rs:236-267 | The mirrors-table keys never change the state machine |
| Application.SelectedAction | mirro-rs/src/app/mod.rs:269-287 | The generic action with the selection list focused. Stated by Application.SelectedActionKeeps |
| Application.KeyHandlerStep | mirro-rs/src/app/mod.rs:182-301 | `key_handler`. Stated by Application.ExitOnlyOnQuit, Application.InitIgnoresEveryAction, Application.StepKeepsInvariant and Application.HandlerKeepsFocusOff |
| Application.DoActionStep | mirro-rs/src/app/mod.rs:67-75 | `do_action`: look the key up, then handle or ignore it. Stated by Application.UnboundKeyIsIgnored, Application.UpperCaseIsIgnored, Application.SelectionNeverGainsFocus and Application.TypeThenBackspaceRestores |
| Application.StartThenQuit | mirro-rs/src/app/mod.rs:92-214 | After loading and initializing, Ctrl-c exits from any focus |
| Application.App.constructor | mirro-rs/src/app/mod.rs:47-65 | A new app has only Quit bound, the `Init` state, an empty catalog, filter and selection, and no cursors. It satisfies the invariant |
| Application.App.DoAction | mirro-rs/src/app/mod.rs:67-75 | The new state and the return value are those of `DoActionStep`: look the key up, then run the key handler or continue |
| Application.App.KeyHandler | mirro-rs/src/app/mod.rs:182-301 | The new state and the return value are those of `KeyHandlerStep` |
| Application.App.UpdateOnTick | mirro-rs/src/app/mod.rs:77-80 | Always continues and changes nothing |
| Application.App.Dispatch | mirro-rs/src/app/mod.rs:83-90 | Loading is set, then cleared again when the send fails. Nothing else changes |
| Application.App.Initialized | mirro-rs/src/app/mod.rs:92-107 | Installs the nine actions and the initialized state |
| Application.App.Loaded | mirro-rs/src/app/mod.rs:109-111 | Clears the loading flag only |
| Application.App.Slept | mirro-rs/src/app/mod.rs:113-115 | Bumps the sleep counter only |
| Application.App.UpdateClock | mirro-rs/src/app/mod.rs:117-119 | Replaces the clock only |
| Application.App.UpdateMirrors | mirro-rs/src/app/mod.rs:121-123 | Replaces the catalog only |
| Application.App.TableInfo | mirro-rs/src/app/mod.rs:168-175 | Returns the chosen table's cursor and its row count: the catalog's countries or the selection |
| Application.App.Select | mirro-rs/src/app/mod.rs:137 | `TableState::select` on the chosen table: sets that cursor and nothing else |
| Application.App.ScrollPrev | mirro-rs/src/app/mod.rs:125-139 | Moves the chosen table's cursor by the corrected down-scroll and updates the focused country |
| Application.App.ScrollNext | mirro-rs/src/app/mod.rs:141-155 | Moves the chosen table's cursor by the corrected up-scroll and updates the focused country |
| Application.App.UpdateMirrorsWidget | mirro-rs/src/app/mod.rs:157-166 | On the selection table, focuses the selected country at the index if there is one. Otherwise nothing changes |
| Application.App.SelectCountry | mirro-rs/src/app/mod.rs:237-263 | The filtered row under the cursor is appended with the filter and index, unless its country is already selected |
| Application.App.RemoveSelected | mirro-rs/src/app/mod.rs:270-281 | Performs the corrected removal at the selection cursor |
| Application.App.FilterKey | mirro-rs/src/app/mod.rs:217-234 | Edits the filter or moves focus to the mirrors table, as `FilterAction` states |
| Application.App.MirrorsKey | mirro-rs/src/app/mod.rs:236-267 | Selects or scrolls the mirrors table, as `MirrorsAction` states |
| Application.App.SelectedKey | mirro-rs/src/app/mod.rs:269-287 | Removes from or scrolls the selection, as `SelectedAction` states |
| Application.App.FocusedCountry | mirro-rs/src/app/mod.rs:177-179 | Returns the focused country field |
| Application.EndToEnd | mirro-rs/src/app/mod.rs:47-185 | A new app that loads a catalog, initializes and gets Ctrl-c exits, focused on the country filter and holding that catalog |

## Left out

- I/O and concurrency are not modelled. This covers the tokio channel, the I/O handler thread, the event loop and terminal drawing (`draw`, `get_os_name`, `start_ui`, `mirro-rs/src/io`, `mirro-rs/src/inputs`). The send in `dispatch` is reduced to its success flag, and `Local::now()` to an opaque clock value.
- Logging (`trace!`, `error!`) has no observable effect on state and is not modelled.
- `export::export_mirrors` without rating spawns a task that appends the selected mirrors' URLs to a file. The model keeps only its return value, `Continue`.
- Application.KeyHandlerStep: `RateExport`, and the generic action while Protocols has focus, reach `todo!()`. They are excluded by the precondition `Handled`, and `KeyHandled` for a key.
- `mirro-rs/src/inputs/key.rs` is not part of this model. `Key` follows the usual key set of the tui application template: named keys, `F(n)`, `Char`, `Ctrl`, `Alt` and `Unknown`. Only some of them are bound.
- ActionTable.Action.Keys: the key lists of `Focus(SelectedCountries)`, `SimpleExport` and `RateExport` are not defined in `mirro-rs/src/app/actions.rs`, which lists four actions. They are taken as empty, and `Iterator()` keeps the six actions listed at lines 20-30, so those three are never found.
- `TableState`'s scroll offset is not modelled. Only the selected row is.
- Render.Lower: lower-casing is ASCII-only. Rust's `to_lowercase` also folds non-ASCII letters.
- Render.RgbFromHex slices by characters where Rust slices by bytes. On a 6-character value containing multi-byte characters Rust may panic at a char boundary, where the model gives None.
- Render.AvailableRows shows the mirror count as a number, not its decimal string.
- `f64` statistics of a mirror are carried as bit patterns and never computed with. `DateTime` is opaque.
- Catalog.CollectCountries: `HashMap` iteration order is unspecified. The model picks each next country nondeterministically and proves only order-free facts.
- SelectedCountry's `index` is a `nat`. The conversion `index.try_into().unwrap()` at `mirro-rs/src/app/mod.rs:259` assumes the target type, which is not part of this model, holds every table index.
- Debug builds panic on integer overflow. The model follows a release build, where counters and `usize` subtraction wrap.
- Application.WrappingSub: `usize` is taken as 64 bits wide, so the as-written cursor on an empty table reaches 2^64-1. On a 32-bit target it would be 2^32-1.
- AppStates.AppState.IncrSleep: the in-place `&mut self` updates of `AppState` are value-returning functions; the `App.state` field is reassigned with the result.
- Render.CheckSize returns the panic it would raise as a `SizeError` value instead of aborting.

## Findings

`App` uses the corrected cursor functions. After `remove(index)` the code at `mirro-rs/src/app/mod.rs:274-275` calls `select(Some(index))` while the list is non-empty. When the removed row was the last one, that index is now the length of the list, and the next Enter passes it to `Vec::remove`, which panics when the index is not below the length. The corrected removal moves the cursor to the new last row instead.

Reachability: `Focus(SelectedCountries)` has no keys in `mirro-rs/src/app/actions.rs`, so no key moves the focus onto the selection list (Application.SelectionNeverGainsFocus). The selection-list examples of both findings, and the second finding as a whole, are therefore reachable only once a key binds `Focus(SelectedCountries)`. The first finding is reachable today on the mirrors table: with Mirrors focused and an empty catalog, Down selects row 0 and Up then selects 2^64-1.

| source | as written | input that shows it | evidently intended | confidence | as-written member | corrected member |
|---|---|---|---|---|---|---|
| mirro-rs/src/app/mod.rs:125-155 | `scroll_prev`/`scroll_next` select a row even when the table has no rows, and compute `items - 1` on an empty table (a panic in debug, `usize::MAX` in release) | Down twice on an empty selection list selects row 1. Up with row 0 selected on an empty table selects 2^64-1 | An empty table keeps no selection | not executed | Application.PrevCursorAsWritten, Application.NextCursorAsWritten, Application.EmptyTableCursorEscapes, Application.EmptySelectionScrollThenRemovePanics | Application.PrevCursor, Application.NextCursor, Application.ScrollKeeps |
| mirro-rs/src/app/mod.rs:269-281 | After removing row `index`, the cursor stays at `index` even when that was the last row, so it points past the end and the next Enter panics in `Vec::remove` | Selection [a, b] with the cursor on 1: Enter leaves [a] with cursor 1, and a second Enter removes at 1 from a one-element list | The cursor moves to the new last row | not executed | Application.RemoveAtCursorAsWritten, Application.LastRowRemovalPanics | Application.RemoveAtCursor, Application.RemovalKeepsInvariant |
