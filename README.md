# make_filterable in Dafny

A model of `make_filterable.js`, a jQuery plugin that adds incremental text
filtering to a `<select>` field or to a `<table>`. Timers are abstracted, and so
is the DOM: what a jQuery call reads or writes becomes a sequence or a field.

- **Matching** (`matching.dfy`). The search text is trimmed. Every regular-expression
  metacharacter in it is escaped. The pattern is compiled with the `i` flag and matched
  against the text of an item. `Literal` gives the meaning of patterns made only of literal
  characters and identity escapes. `EscapeIsLiteral` proves that escaping always
  produces such a pattern, and that the pattern denotes the query itself. So a match is
  a case-insensitive substring test (`MatchesIsSubstring`).
- **Key classification** (`keys.dfy`). These are the `switch` statements of
  `filterDropdown` and `filterTable`.
- **Debounce** (`debounce.dfy`). Each controller keeps `filterTimer`, the handle of the
  latest scheduled pass. It also keeps the set of handles the event loop still holds.
  The invariant `OnlyLatestPending` says that at most one filter pass is ever pending.
- **Dispatch** (`settings.dfy`). `makeFilterable` merges defaults with the caller's
  options the way `$.extend` does. A select gets a `FilterableSelect`. A table gets a
  `FilterableTable` only when a search field is given.
- **The dropdown** (`dropdown.dfy`). The class `FilterableSelect` holds:
  - the bound field's options, value and change notifications;
  - the popup's open flag, its items (text, hidden value, shown or hidden) and the selected index;
  - the search text, the no-match message and the list's scrollTop;
  - the timer state.

  Each method is proved against a specification function: `Listed`, `FilterPass`,
  `Down`/`Up` and `ScrollTarget`.
- **The table** (`table.dfy`). The class `FilterableTable` holds the body rows. Each row
  is a sequence of cells, and each cell records whether the `valueSelector` picks it.
  `FilterResults` is proved against `TablePass`.

`EditSearch` (in both classes) stands for the user typing in the search field. It
models no function of the plugin; it only sets the text that a later filter pass reads.

Behaviour of the code that the model keeps:
- Opening one popup does not close another: the toggle button stops the click's
  propagation (make_filterable.js:108-111), so an open popup's document listener never
  sees that click. Each controller is modelled on its own.
- Up and Down look only at the adjacent sibling (`next(':visible')`,
  `prev(':visible')`). They do not look for the next shown item. `DownStopsAtHiddenSibling`
  shows the effect: if a hidden item lies between two shown ones, Down never reaches the
  second shown item, and Up no longer undoes Down. `UpUndoesDown` and `DownUndoesUp`
  prove that the two do undo each other when the shown items form one block.
- Closing the popup does not cancel a pending filter pass. `toggleDropdown` never
  touches `filterTimer`, so the pass still fires, on the emptied list.

## Model

| member | source | states |
|---|---|---|
| Matching.TrimStart | make_filterable.js:193 | the result is empty exactly for a blank string, and otherwise starts with a non-whitespace character |
| Matching.TrimEnd | make_filterable.js:193 | the result is empty exactly for a blank string, and otherwise ends with a non-whitespace character and keeps the first one |
| Matching.Trim | make_filterable.js:193 | `$.trim` yields a string that is empty exactly when the input is all whitespace, and otherwise neither starts nor ends with whitespace |
| Matching.TrimStartIsSuffix | make_filterable.js:193 | trimming the start removes exactly a run of leading whitespace |
| Matching.TrimEndIsPrefix | make_filterable.js:193 | trimming the end removes exactly a run of trailing whitespace |
| Matching.TrimCutsOnlyWhitespace | make_filterable.js:365 | the trimmed text is the slice of the input between its leading and trailing whitespace |
| Matching.TrimOfTrimmed | make_filterable.js:365 | a string with no whitespace at either end is unchanged by trimming |
| Matching.TrimIdempotent | make_filterable.js:365 | trimming twice is trimming once |
| Matching.Escape | make_filterable.js:197 | escaping at most doubles the query's length and keeps the empty query empty |
| Matching.EscapeIsLiteral | make_filterable.js:369 | the escaped query is a pattern of literal characters and identity escapes, and it denotes exactly the query |
| Matching.Fold | make_filterable.js:197 | the `i` flag's fold maps each upper-case ASCII letter to its own lower-case letter (code point plus 32) and keeps every other character |
| Matching.Matches | make_filterable.js:193-202 | the trim, escape, compile-with-`i` and test step: a blank query matches every text, and a match needs a text at least as long as the trimmed query |
| Matching.MatchesIsSubstring | make_filterable.js:197-202 | an item matches iff its text contains the trimmed query as a case-insensitive substring |
| Matching.ContainsInfix | make_filterable.js:202 | a string is found in any text that contains it verbatim |
| Matching.MatchesContainingText | make_filterable.js:369-373 | any text containing the trimmed query verbatim matches it |
| Matching.MatchesIgnoresCase | make_filterable.js:197 | two texts equal up to case match the same queries |
| Matching.DotIsLiteral | make_filterable.js:197-202 | the query "a.b" matches the text "a.b" but not "axb" |
| Matching.DotQueryTrimmed | make_filterable.js:193 | the query "a.b" is its own trim |
| Matching.EscapeOfDot | make_filterable.js:197 | escaping "a.b" prefixes only the dot with a backslash |
| Matching.MatchesSingleChar | make_filterable.js:197-202 | a one-character query matches exactly the texts that hold that character, up to case |
| Matching.FirstCharAbsent | make_filterable.js:197-202 | a text lacking the query's first character in either case does not match |
| Keys.DropdownKeyAction | make_filterable.js:165-186 | Escape toggles the popup, the ten navigation and modifier keys are ignored, every other key reschedules the filter |
| Keys.TableKeyAction | make_filterable.js:340-360 | the table never toggles; it ignores the navigation and modifier keys and Escape, and reschedules on every other key |
| Keys.KeyActionsDifferOnlyOnEscape | make_filterable.js:343-355 | the two switches agree on every key except Escape, which the dropdown acts on and the table ignores |
| Debounce.AtMostOnePending | make_filterable.js:182-184 | when only the latest scheduled pass may be pending, at most one pass is pending |
| Settings.Extend | make_filterable.js:51-56 | the merged settings hold every default and every option that is not undefined; an option overrides its default |
| Settings.Attach | make_filterable.js:48-68 | a select gets a select controller whose four class and message settings are the caller's or the defaults; a table gets a table controller iff its search field is neither null nor undefined, with `valueSelector` defaulting to `td`; a table without one gets only the log message; any other element is untouched |
| Settings.MakeFilterable | make_filterable.js:44-69 | under Internet Explorer 6 or 7 no element is touched; otherwise every element of the selection is handled on its own |
| Settings.DefaultsWithoutOptions | make_filterable.js:51-65 | with no options, a select gets exactly the four defaults and a table gets no controller |
| Settings.CallerOverridesDefault | make_filterable.js:51-56 | a given `noMatchMessage` replaces "No Matches"; an undefined one leaves the default |
| Settings.NullSearchFieldIsMissing | make_filterable.js:62-66 | a null search field is treated like a missing one |
| Dropdown.Listed | make_filterable.js:141-148 | every listed item is shown and has a non-blank value, every item comes from some option, and every option whose value is not blank appears |
| Dropdown.KeptIndices | make_filterable.js:145 | the positions of the options whose trimmed value is not empty, strictly ascending: a position is kept iff its option's value is not blank |
| Dropdown.ListedSelectsInOrder | make_filterable.js:141-148 | the list has exactly one item per kept position, in order: the k-th item is the option at the k-th kept position |
| Dropdown.ListedAppend | make_filterable.js:141-148 | listing keeps the options' order: listing a concatenation concatenates the lists |
| Dropdown.ListedExample | make_filterable.js:145-146 | an option with a blank value is skipped and the other options are listed in order |
| Dropdown.FirstVisible | make_filterable.js:233-235 | the first shown item, or none exactly when no item is shown |
| Dropdown.LastVisible | make_filterable.js:237-239 | the last shown item, or none exactly when no item is shown |
| Dropdown.NextSibling | make_filterable.js:242 | `next('li:visible')`: only the item right after the selection, and only when it is shown; nothing when that item is hidden |
| Dropdown.PrevSibling | make_filterable.js:246 | `prev('li:visible')`: only the item right before the selection, and only when it is shown; nothing when that item is hidden |
| Dropdown.Down | make_filterable.js:264-269 | after Down the cursor is on a shown item, and it is empty only when no item is shown |
| Dropdown.Up | make_filterable.js:257-262 | after Up the cursor is on a shown item, and it is empty only when no item is shown |
| Dropdown.DownWraps | make_filterable.js:265-266 | Down with no selection, or from the last shown item, selects the first shown item |
| Dropdown.UpWraps | make_filterable.js:258-259 | Up with no selection, or from the first shown item, selects the last shown item |
| Dropdown.UpUndoesDown | make_filterable.js:258-268 | when the shown items form one block, Up after Down returns to the same item |
| Dropdown.DownUndoesUp | make_filterable.js:258-268 | when the shown items form one block, Down after Up returns to the same item |
| Dropdown.DownStopsAtHiddenSibling | make_filterable.js:265-269 | with shown, hidden, shown items, Down from the first stays on the first, and Up after that goes to the third |
| Dropdown.Refiltered | make_filterable.js:199-208 | each item keeps its text and value and is shown iff the query is blank or matches its text |
| Dropdown.FilterPass | make_filterable.js:188-214 | a blank query shows every item and selects nothing; otherwise each item is shown iff it matches, the first match is selected, and the no-match message is shown iff nothing matches |
| Dropdown.FilterPassIdempotent | make_filterable.js:188-214 | a second pass with the same query changes nothing |
| Dropdown.FruitMatchingA | make_filterable.js:197-202 | of Apple, Banana, Cherry, Date, Elderberry exactly Apple, Banana and Date match the query "a" |
| Dropdown.FruitQueryA | make_filterable.js:188-214 | on Apple, Banana, Cherry, Date, Elderberry the query "a" shows Apple, Banana and Date and selects Apple |
| Dropdown.FruitQueryXyz | make_filterable.js:209-213 | on the same list, "xyz" shows nothing, selects nothing and shows the no-match message |
| Dropdown.ScrollTarget | make_filterable.js:279-288 | an item below the window ends with its bottom at the window's bottom, an item above it with its top at the window's top, and a visible item leaves scrollTop alone; an item no taller than the list ends inside the window |
| Dropdown.ScrollSettles | make_filterable.js:284-288 | scrolling again to the same item, once its offset has moved with the list, leaves scrollTop unchanged |
| Dropdown.ScrolledTo | make_filterable.js:277-288 | with no selected item scrollTop is unchanged; otherwise a selected item no taller than the list ends wholly inside the window |
| Dropdown.FilterableSelect.constructor | make_filterable.js:74-114 | the controller starts closed, with no items, no selection, an empty search field and no pending pass |
| Dropdown.FilterableSelect.ToggleDropdown | make_filterable.js:116-135 | both directions clear the search text, the selection and the no-match message; opening lists exactly `Listed` of the options, and closing removes every item |
| Dropdown.FilterableSelect.PopulateDropdown | make_filterable.js:137-150 | appends `Listed` of the options to the list |
| Dropdown.FilterableSelect.FilterDropdown | make_filterable.js:165-186 | Escape toggles the popup; an ignored key changes nothing; any other key replaces the pending pass with a fresh one, leaving exactly one pending |
| Dropdown.FilterableSelect.FilterTimerFired | make_filterable.js:184 | firing the pending pass empties the queue and performs `FilterPass` |
| Dropdown.FilterableSelect.FilterResults | make_filterable.js:188-216 | items, selection and no-match message become those of `FilterPass`, and the afterFilter callback runs once if configured |
| Dropdown.FilterableSelect.ShowMatching | make_filterable.js:198-208 | for a non-blank query, exactly the matching items are shown, texts and values kept, and it reports whether any item matched |
| Dropdown.FilterableSelect.ApplySelection | make_filterable.js:218-226 | with a selection, the field takes the item's hidden value, one change is fired and the popup closes; without one, nothing changes |
| Dropdown.FilterableSelect.SelectItem | make_filterable.js:228-231 | the given item, or none, becomes the only selected one |
| Dropdown.FilterableSelect.SelectFirstItem | make_filterable.js:233-235 | selects the first shown item |
| Dropdown.FilterableSelect.SelectLastItem | make_filterable.js:237-239 | selects the last shown item |
| Dropdown.FilterableSelect.SelectNextItem | make_filterable.js:241-243 | selects the adjacent next item if it is shown, otherwise nothing |
| Dropdown.FilterableSelect.SelectPreviousItem | make_filterable.js:245-247 | selects the adjacent previous item if it is shown, otherwise nothing |
| Dropdown.FilterableSelect.NavigateDropdown | make_filterable.js:249-272 | Enter applies the selection; Up and Down set the selection to `Up`/`Down` and scroll it into view; other keys change nothing; the selected item stays a shown one |
| Dropdown.FilterableSelect.ScrollToSelectedResult | make_filterable.js:274-290 | scrollTop becomes `ScrollTarget` for the selected item, and is unchanged when nothing is selected |
| Dropdown.FilterableSelect.ItemClicked | make_filterable.js:292-296 | clicking a shown item writes its value to the field, fires change and closes the popup |
| Dropdown.FilterableSelect.DocumentClicked | make_filterable.js:303-307 | a click outside an open popup closes it; any other click changes nothing |
| Table.RowMatches | make_filterable.js:372-376 | only a selected cell can make a row match; for a blank query a row matches iff it has a selected cell |
| Table.TablePass | make_filterable.js:362-378 | a blank query shows every row; otherwise a row is shown iff one of its selected cells matches; cells are unchanged |
| Table.TablePassIdempotent | make_filterable.js:362-378 | a second pass with the same query changes nothing |
| Table.ExcludedCellsIgnored | make_filterable.js:370-377 | rows that agree on their selected cells are shown alike, whatever their other cells hold |
| Table.MatchOutsideSelectorHides | make_filterable.js:372-375 | a row that matches only in a cell outside the selector stays hidden |
| Table.DefaultSelectorUsesEveryCell | make_filterable.js:60 | with every cell selected, as with `td`, a row is shown iff some cell matches |
| Table.FilterableTable.constructor | make_filterable.js:330-338 | the controller starts over the given rows and search field with no pending pass |
| Table.FilterableTable.FilterTable | make_filterable.js:340-360 | an ignored key, Escape included, changes nothing; any other key replaces the pending pass with a fresh one, leaving exactly one pending |
| Table.FilterableTable.FilterTimerFired | make_filterable.js:358 | firing the pending pass empties the queue and performs `TablePass` |
| Table.FilterableTable.FilterResults | make_filterable.js:362-380 | rows become `TablePass` of the rows and the query, and the afterFilter callback runs once if configured |

## Left out

- `positionDropdown` and `windowResized` are left out, and with them the `resizeTimer` debounce. They compute CSS pixel positions from measurements of the page.
- `getRandomId` and the popup's element id are left out. The id comes from `Math.random`.
- DOM construction, event binding and unbinding, `focus`, `preventDefault` and `stopPropagation` are left out. Which listeners are bound is represented by the popup's open flag.
- Click-target detection is left out. `DocumentClicked` takes as a parameter whether the click fell inside the popup.
- The layout of the list is given as a `Layout` parameter. It holds the page offsets and heights the browser would report. Values are integers, although a browser may report fractions.
- The model does not clamp scrollTop to the list's scrollable range, as a browser does.
- Event key codes arrive already resolved: `which`, or `keyCode` when `which` is unset.
- HTML escaping of the option text is left out. The item's text is the option's text.
- The option value is interpolated unescaped into markup that is then parsed as HTML (make_filterable.js:146). The model assumes the hidden input's value equals `$(option).val()`. That fails in three cases:
  - A double quote ends the attribute early.
  - Character references such as `&amp;` or `&lt;` are decoded.
  - CR and CRLF are normalised to LF.
- Case folding is ASCII only (`Fold`). The `i` flag's full Unicode case folding is left out.
- `Literal` does not interpret regular expressions outside the literal fragment. The escaped query never falls outside it.
- The afterFilter callback and the field's change handlers are counted, not run. Their effects on the page are left out.
- The legacy-browser check is the parameter `legacyBrowser`. Browser sniffing itself is left out.
- The log message for a table without a search field is the `MissingSearchField` result.
- Nested tables are left out. In the code, `find(valueSelector)` can reach cells of an inner table, and `parents('tr')` shows every enclosing row. In the model each row owns its cells, and a cell's selector flag is given.
- Head rows are left out. Only `tbody tr` rows are filtered.
