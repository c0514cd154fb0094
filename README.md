# network-cataloger: text box and host catalog, modelled in Dafny

This project models two parts of the network cataloger.

**The text box of `textpad.py`.** `Textbox` is a curses text-entry widget with Emacs-like keys. Every key code is bound to a callback through a table. `do_command` looks a key up in that table. An unbound printable key is inserted at the cursor. `edit` feeds keys to `do_command` until a callback returns false, then returns `gather()`.

**The in-memory catalog of `catalog.py`.** `Catalog` is a dictionary of host records keyed by lowercased hostname. `fetch_hosts` fills it from the rows of the `hosts` table. `hosts` lists the keys in sorted order. `catalog[key]` looks a record up by position or by name.

The project has four modules:

- `curses.dfy` (module `Curses`) is the part of the curses library the text box relies on. It holds a `Window` class, whose cells are stored row by row as a `seq<int>` and which has a cursor. Each window primitive (`move`, `inch`, `addch`, `delch`, `clrtoeol`, `deleteln`, `insertln`) states its effect on the cells and the cursor. It also holds the standard-library helper `_end_of_line`. These are stated contracts: the library code is not part of this model.
- `editing.dfy` (module `Editing`) is the editing state machine as functions. It covers:
  - what every callback does to the cells and the cursor;
  - dispatch (`DoCommand`), the `edit` loop over a key stream (`Run`), and `gather`;
  - the properties proved about them.
- `textpad.dfy` (module `Textpad`) is the `Textbox` class itself. Its fields are the window, the last row and column, the two flags, `lastcmd` and the command table. Every callback, `register_key`, `do_command`, `gather` and the inherited `edit` is a method that works on the window step by step. Each method is proved to leave the window as the matching `Editing` function says. It also holds the loops of the inherited standard-library helpers, `_end_of_line`, `_insert_printable_char` and the base `gather`. That library code is not part of the repository, so these loops are stated from its documented behaviour, not checked against its code.
- `catalog.dfy` (module `Catalog`) covers the catalog. It holds:
  - the grouping loop of `fetch_hosts`, as a `Catalog` class method and as the function `Group` it is proved to compute;
  - the sorted `hosts` listing;
  - the position and name lookup of `__getitem__`;
  - the `reviewed` flag normalisation of `add_host`.

Points where the code is easy to misread:

- `_end_of_line` always scans the row for its last non-blank cell. It is `end_of_line` and `move_left` that choose the last column instead when `stripspaces` is off. `move_down`, `move_up` and `clear_to_end_of_line` use the scan whatever the flag says.
- `stripspaces` is not a constructor argument. The base class switches it on, and callers may reassign it.
- `gather` applies Python's `str.strip()` to the whole text, which removes whitespace only at the two ends of the whole text. With `stripspaces` on, the base `gather` skips a row whose `_end_of_line` is 0. From every other row it keeps the cells up to and including column `_end_of_line`: one blank after the row's last non-blank cell stays, and the blanks after it are dropped. So an inner line of the result keeps one trailing blank.
- Key codes are bound by value. The comment at `textpad.py:47` says `^P`, but the key bound there is `STX`, that is `^B`.

## Model

| member | source | states |
|---|---|---|
| Textpad.Textbox.constructor | textpad.py:30-50 | `__init__` leaves exactly the default bindings in the table, `stripspaces` on, no last key, and the box sized to its window |
| Editing.DefaultCommands | textpad.py:33-50 | the eighteen default bindings; no printable key and not key 0 is bound, `BEL` ends editing and `NL` is newline |
| Textpad.Textbox.RegisterKey | textpad.py:52-68 | the table afterwards is the old one with `key` rebound to the callback and every other binding kept; nothing else changes |
| Textpad.Textbox.DoCommand | textpad.py:70-83 | `lastcmd` becomes the key; the window and the returned flag are those of `Editing.DoCommand`; the table and `stripspaces` are unchanged |
| Editing.DoCommand | textpad.py:70-83 | an unbound key always continues editing; an unbound key that is not printable changes nothing, and neither does any unbound key in the bottom right cell |
| Curses.IsPrint | textpad.py:79 | `curses.ascii.isprint`: a printable key is its own ASCII character, and no control character (below 32) or code past 126 is printable |
| Editing.Effect | textpad.py:92-201 | `end`, `ignore` and `refresh` change nothing; only `del_left`, `clear_to_end_of_line`, `delch` and `insertln` change cells, and the last three keep the cursor where it was |
| Editing.Continues | textpad.py:92-201 | a callback returns false exactly when it is `end`, or `newline` in a one-row window |
| Editing.DefaultPrintableKeys | textpad.py:79-83 | with the default table, a printable key inserts at the cursor unless the cursor is in the bottom right cell, where nothing happens, and editing goes on |
| Textpad.Textbox.Call | textpad.py:76-77 | running the callback bound to a key has that command's `Effect` on the window and returns its `Continues` flag |
| Textpad.Textbox.Gather | textpad.py:85-89 | the text returned is `Editing.Gather`: the base result, stripped at both ends when `stripspaces` is on, unchanged otherwise |
| Editing.Strip | textpad.py:89 | `strip()` returns text that is empty or starts and ends with a non-whitespace character, and is no longer than its input |
| Editing.StripSlice | textpad.py:89 | `strip()` removes only whitespace and only at the two ends: the result is one slice of the input, and everything outside it is whitespace |
| Editing.StripIdempotent | textpad.py:89 | stripping a stripped text changes nothing |
| Textpad.Textbox.BaseGatherText | textpad.py:88 | the base `gather` loop over the rows returns `BaseGather` of the window's cells |
| Textpad.Textbox.GatherLine | textpad.py:88 | one row of the base `gather`: nothing for a row that `_end_of_line` finds empty when blanks are stripped, else the row's text and a newline unless the window has one row |
| Textpad.Textbox.RowText | textpad.py:88 | the inner loop of the base `gather` reads the row's characters up to and including `_end_of_line` with `stripspaces`, and the whole row without it |
| Editing.BaseGatherRows | textpad.py:88 | without `stripspaces`, row `z` of the window is exactly line `z` of the gathered text, which is every cell's character in order followed by a newline when there are several rows |
| Editing.BaseGatherLength | textpad.py:88 | without `stripspaces`, the gathered text has the same number of characters for every row |
| Editing.BaseGatherPrefix | textpad.py:88 | the text of the first `m` rows is the start of the text of the first `n >= m` rows |
| Editing.GatherSkipsBlankRows | textpad.py:88 | with `stripspaces` and more than one column, a row adds nothing to the text exactly when every one of its cells is blank |
| Editing.OneColumnGathersNothing | textpad.py:88 | with `stripspaces` in a one-column window, the base `gather` returns the empty text whatever the cells hold |
| Editing.GatherHi | textpad.py:85-89 | a one-row box holding "hi  " gathers to "hi" |
| Editing.GatherRow | textpad.py:88 | one row of the base `gather` gives at most its cells and a newline; with `stripspaces` it gives nothing exactly when the row's `_end_of_line` is 0, and without it at least every cell |
| Editing.BaseGatherBound | textpad.py:88 | the base `gather` (`BaseGather`) over `n` rows returns at most `n` rows of cells and `n` newlines |
| Editing.Gather | textpad.py:85-89 | with `stripspaces` the text returned is empty or starts and ends with a non-whitespace character; without it, each row gives all its cells, and a newline when the window has several rows; it is never longer than the cells and a newline per row |
| Editing.TypeHiEditReturnsHi | textpad.py:70-89 | typing "h", "i" and ^G into a blank one-row box in insert mode makes `edit()` return "hi" |
| Textpad.Textbox.BeginningOfLine | textpad.py:92-96 | `beginning_of_line` moves the cursor to column 0 of its row, changes no cell and continues |
| Editing.OnBeginningOfLine | textpad.py:92-96 | the cursor goes to column 0 of its row and no cell changes |
| Textpad.Textbox.MoveLeft | textpad.py:98-109 | `move_left` does what `Editing.OnMoveLeft` says: one column left; at column 0 to the end of the previous row, which is `_end_of_line` with `stripspaces` and the last column without it; nothing at the top left corner |
| Editing.OnMoveLeft | textpad.py:98-109 | nothing at the top left corner; otherwise one cell back in reading order (the cell `addch` would advance from), except that from column 0 with `stripspaces` it goes to the row above, with every cell after the new column blank; no cell changes |
| Editing.MoveLeftStopsAtTextEnd | textpad.py:105-106 | from column 0 with `stripspaces`, `move_left` lands where the text of the row above ends (`Curses.TextEnd`), and at no other column |
| Editing.MoveRightThenLeft | textpad.py:98-136 | away from the last column, right then left returns to the same screen |
| Editing.MoveLeftThenRight | textpad.py:98-136 | away from column 0, left then right returns to the same screen |
| Editing.WrapRightThenLeft | textpad.py:98-136 | from the last column of a row that is not the last, right then left comes back exactly when `stripspaces` is off or the row's `_end_of_line` is its last column |
| Editing.CornersStop | textpad.py:101-133 | left at the top left corner and right at the bottom right corner change nothing |
| Textpad.Textbox.DelLeft | textpad.py:111-116 | `del_left` is `move_left` followed by `delch` at wherever the cursor then is |
| Editing.OnDelLeft | textpad.py:111-116 | `del_left` leaves the cursor where `move_left` puts it |
| Editing.DelLeftAtOrigin | textpad.py:111-116 | at the top left corner, `del_left` still deletes the cell under the cursor |
| Textpad.Textbox.EndOfLine | textpad.py:118-125 | `end_of_line` moves to `_end_of_line` of the row with `stripspaces` and to the last column without it, changes no cell and continues |
| Editing.OnEndOfLine | textpad.py:118-125 | the cursor stays on its row; with `stripspaces` every cell after it is blank; without `stripspaces` it goes to the last column; no cell changes |
| Editing.EndOfLineStopsAtTextEnd | textpad.py:118-122 | with `stripspaces`, `end_of_line` lands where the text of the cursor's row ends (`Curses.TextEnd`), and at no other column |
| Textpad.Textbox.MoveRight | textpad.py:127-136 | `move_right` goes one column right, wraps to column 0 of the next row from the last column, and does nothing at the bottom right corner |
| Editing.OnMoveRight | textpad.py:127-136 | nothing at the bottom right corner; otherwise the cursor advances one cell in reading order, as `addch` does; no cell changes |
| Textpad.Textbox.End | textpad.py:138-141 | `end` returns false, which stops editing |
| Textpad.Textbox.Ignore | textpad.py:143-146 | `ignore` returns true |
| Textpad.Textbox.Newline | textpad.py:148-155 | `newline` returns false exactly in a one-row window; otherwise it moves to column 0 of the next row, or stays on the last row |
| Editing.OnNewline | textpad.py:148-155 | no cell changes, and the cursor either stays or goes to column 0 of the next row |
| Editing.NewlineStopsOnlyOneRow | textpad.py:148-155 | newline stops editing if and only if the window has one row; below the last row it goes to the start of the next row, and on the last row it changes nothing |
| Editing.OneRowNewlineStops | textpad.py:148-152 | in a one-row window, the default newline key ends `edit` at once with the screen unchanged |
| Textpad.Textbox.ClearToEndOfLine | textpad.py:157-167 | `clear_to_end_of_line` deletes the row at column 0 of a row whose `_end_of_line` is 0, and otherwise blanks the row from the cursor on; the cursor stays |
| Editing.OnClearToEndOfLine | textpad.py:157-167 | the cursor stays where it was and the screen stays valid |
| Textpad.Textbox.ClearRow | textpad.py:161-166 | the two endings of `clear_to_end_of_line`: `deleteln`, or `move(y, x)` followed by `clrtoeol` |
| Editing.ClearDeletesBlankRow | textpad.py:161-162 | when the row is deleted, the rows above are kept, the rows below move up one, and the bottom row turns blank |
| Editing.ClearBlanksToEnd | textpad.py:163-166 | otherwise, the cursor's row keeps its cells before the cursor and is blank from the cursor on, and every other row is kept |
| Textpad.Textbox.MoveDown | textpad.py:169-174 | `move_down` as evidently intended (see Findings): one row down, the column clamped to the new row's `_end_of_line` |
| Editing.OnMoveDown | textpad.py:169-174 | on the last row nothing changes; otherwise the cursor goes one row down to a column no greater than before and no greater than that row's `_end_of_line`; no cell changes |
| Editing.MoveDownKeepsColumn | textpad.py:169-174 | moving down goes one row down, never past the new row's `_end_of_line`, and keeps the column whenever it is within it |
| Editing.OnMoveDownAsWritten | textpad.py:169-174 | `move_down` as written: when the column is not clamped, the cursor stays where the scan of `_end_of_line` left it |
| Editing.MoveDownAsWrittenAgrees | textpad.py:169-174 | the written `move_down` agrees with the intended one exactly when the column is clamped or equals the column of the new row's last non-blank cell |
| Editing.MoveDownAsWrittenCounterexample | textpad.py:169-174 | in a 2 by 5 window whose second row reads "abc", Down from (0, 0) lands at (1, 2) as written and at (1, 0) as intended |
| Textpad.Textbox.MoveUp | textpad.py:176-183 | `move_up` as evidently intended: one row up, the column clamped to that row's `_end_of_line` |
| Editing.OnMoveUp | textpad.py:176-183 | on the first row nothing changes; otherwise the cursor goes one row up to a column no greater than before and no greater than that row's `_end_of_line`; no cell changes |
| Editing.MoveUpKeepsColumn | textpad.py:176-183 | moving up goes one row up, never past that row's `_end_of_line`, and keeps the column whenever it is within it |
| Editing.OnMoveUpAsWritten | textpad.py:176-183 | `move_up` as written, with the cursor left at the scan stop when the column is not clamped |
| Editing.MoveUpAsWrittenCounterexample | textpad.py:176-183 | in a 2 by 5 window whose first row reads "abc", Up from (1, 0) lands at (0, 2) as written and at (0, 0) as intended |
| Textpad.Textbox.Delch | textpad.py:185-189 | `delch` deletes the cell under the cursor and continues; the cursor stays |
| Editing.OnDelch | textpad.py:185-189 | the cursor stays where it was and the screen stays valid |
| Editing.DelchRows | textpad.py:188 | after `delch`, the rest of the cursor's row has moved one cell left and its last cell is blank; every other row is kept |
| Textpad.Textbox.Insertln | textpad.py:191-195 | `insertln` inserts a blank row at the cursor's row and continues; the cursor stays |
| Editing.OnInsertln | textpad.py:191-195 | the cursor stays where it was and the screen stays valid |
| Editing.InsertlnRows | textpad.py:194 | after `insertln`, the rows above the cursor are kept, the cursor's row is blank, and each row below holds the row that was above it, so the bottom row is lost |
| Textpad.Textbox.Refresh | textpad.py:197-201 | `refresh` returns true and changes no model state |
| Textpad.Textbox.InsertPrintableChar | textpad.py:79-81 | `_insert_printable_char` leaves the window as `Editing.InsertPrintable` says |
| Editing.InsertPrintable | textpad.py:79-81 | the key lands in the cell under the cursor, the cells before it and the bottom right cell are kept, and the cursor advances one cell |
| Editing.ShiftStop | textpad.py:81 | the last cell the insertion writes lies between the cursor's cell and the cell before the bottom right corner |
| Curses.Window.Inch | textpad.py:81 | `inch()` inside `_insert_printable_char` returns the cell under the cursor |
| Textpad.Textbox.WriteAndCarry | textpad.py:81 | the loop of `_insert_printable_char` writes the key at the cursor. In insert mode it carries each overwritten printable cell one cell on and stops after overwriting a non-printable cell or the cell before the bottom right corner. It records where to put the cursor back |
| Textpad.Textbox.Put | textpad.py:81 | one pass of that loop reads the old cell in insert mode, then writes the carried one and advances the cursor |
| Editing.InsertPrintableCells | textpad.py:79-81 | an insertion puts the key under the cursor and moves the cells up to the stopping cell one place on. Cells before the cursor and after the stop are kept, only the stopping cell's old value is lost, and the bottom right cell never changes |
| Editing.CarriedIsShift | textpad.py:81 | the cell-by-cell writes of the insert loop add up to one shift of the run of cells |
| Editing.ShiftEnd | textpad.py:81 | the insert loop stops at the first cell from the cursor that is not printable, or at the cell before the bottom right corner |
| Editing.ShiftEndAt | textpad.py:81 | that stopping cell is the only one with those two properties |
| Textpad.Textbox.LineEndOf | textpad.py:172-173 | the `_end_of_line` scan returns one past the last non-blank cell of the row, capped at the last column, and 0 for a blank row |
| Curses.LineEnd | textpad.py:172-173 | `_end_of_line` is the column just after the row's last non-blank cell (0 for a blank row), or the last column when that cell is the last one |
| Curses.ScanStop | textpad.py:172-173 | the scan of `_end_of_line` stops on the row's last non-blank cell, or at column 0 for a blank row |
| Curses.Window.CellAt | textpad.py:172-173 | the `inch(y, x)` read inside `_end_of_line` and the base `gather` returns the cell at row `y`, column `x` of the row-major cells; its cursor move is left out |
| Curses.Ascii | textpad.py:88 | `curses.ascii.ascii` keeps the low seven bits: the result is an ASCII code, and an ASCII code is returned unchanged |
| Curses.LineEndSpec | textpad.py:172-173 | `_end_of_line` is pinned down: blanks after it; a blank at it and a non-blank before it unless it is the last column; 0 exactly for a blank row or a one-column window |
| Curses.LineEndIsTextEnd | textpad.py:122 | `_end_of_line` is the one column where the row's text ends: the cells after it are blank, the cell at it is blank unless it is the last column, and it is column 0 or the cell before it or at it is not blank |
| Curses.LineEndScan | textpad.py:172-173 | the backward scan's answer can be read off the first non-blank cell it meets |
| Textpad.Textbox.Edit | textpad.py:12 | the inherited `edit` skips key 0, passes every other key to `do_command` until a callback returns false or the keys run out, and returns `gather()` of the final window |
| Editing.Run | textpad.py:12 | the inherited `edit` loop keeps the screen valid; `lastcmd` ends as it began or as a non-zero key of the stream; when a command stopped the loop, the last key is bound to a command that returns false |
| Editing.RunConcat | textpad.py:12 | editing two key streams in turn is editing their concatenation |
| Editing.EndStopsAtOnce | textpad.py:138-141 | a key bound to `end` stops `edit` at once, and nothing after it is read |
| Editing.RunStep | textpad.py:70-83 | a non-zero key whose command continues hands the rest of the stream to `edit` from the new screen |
| Editing.TypeHiThenEnd | textpad.py:79-81 | typing "hi" and ^G into a blank one-row box in insert mode leaves "hi" at the start of the row, with the cursor after it |
| Curses.Window.Move | textpad.py:95 | `move(y, x)` moves the cursor and changes no cell |
| Curses.Window.AddCh | textpad.py:81 | `addch` writes the cell under the cursor and advances the cursor, wrapping to the next row |
| Curses.Window.Delch | textpad.py:188 | `delch` applies `DelchCells` at the cursor, which stays |
| Curses.DelchRow | textpad.py:188 | `DelchCells` read row by row: the cursor's row loses one cell and gains a blank at its end, and every other row is kept |
| Curses.Window.Clrtoeol | textpad.py:166 | `clrtoeol` applies `ClrtoeolCells` at the cursor, which stays |
| Curses.ClrtoeolRow | textpad.py:166 | `ClrtoeolCells` read row by row |
| Curses.Window.Deleteln | textpad.py:162 | `deleteln` applies `DeletelnCells` to the cursor's row, and the cursor stays |
| Curses.DeletelnRow | textpad.py:162 | `DeletelnCells` read row by row |
| Curses.Window.Insertln | textpad.py:194 | `insertln` applies `InsertlnCells` to the cursor's row, and the cursor stays |
| Curses.InsertlnRow | textpad.py:194 | `InsertlnCells` read row by row |
| Catalog.Catalog.constructor | catalog.py:7-16 | a new catalog holds `Group` of the rows the query returns |
| Catalog.Catalog.FetchHosts | catalog.py:37-53 | after `fetch_hosts`, the catalog is `Group` of the rows, whatever it held before |
| Catalog.Step | catalog.py:44-53 | one row keeps every key lower case and adds exactly the row's lowered hostname to the keys |
| Catalog.Group | catalog.py:41-53 | the catalog built from the rows in order has only lower-case keys |
| Catalog.Lower | catalog.py:45 | `hostname.lower()` keeps the length and maps each character on its own: A to Z to a to z, every other character unchanged |
| Catalog.StepAppends | catalog.py:44-46 | a row whose hostname, as spelled, is already a key appends its ip and mac to that record; `hostname` and `reviewed` stay those of the first row, and no other record changes |
| Catalog.StepReplaces | catalog.py:47-53 | a row whose hostname, as spelled, is not a key puts a new record with one-element lists under the lowered hostname, and no other record changes |
| Catalog.MixedCaseReplaces | catalog.py:44-48 | a hostname with a capital letter never passes the membership test, so its row always replaces |
| Catalog.MixedCaseExample | catalog.py:44-53 | two rows for `Web` keep only the second address under `web`; the same rows spelled `web` keep both |
| Catalog.GroupKeys | catalog.py:41-48 | a string is a key after the reload if and only if it is the lowered hostname of some row |
| Catalog.GroupAligned | catalog.py:45-51 | every record's hostname lowers to its key, and its `ip` and `mac` lists are non-empty and of equal length; position `j` of the two holds the pair of one row filed under that key |
| Catalog.LowerIdempotent | catalog.py:45 | lowering a lowered hostname changes nothing |
| Catalog.Before | catalog.py:35 | Python's `<` on strings: a proper prefix comes first |
| Catalog.BeforeIrreflexive | catalog.py:35 | no string comes before itself |
| Catalog.BeforeAsymmetric | catalog.py:35 | two strings are never each before the other |
| Catalog.BeforeTransitive | catalog.py:35 | the order is transitive |
| Catalog.BeforeTotal | catalog.py:35 | of two different strings one comes before the other |
| Catalog.Least | catalog.py:35 | the first key `sorted` picks is one of the keys |
| Catalog.LeastIsLeast | catalog.py:35 | that key comes before every other key |
| Catalog.SortedKeys | catalog.py:35 | `sorted` on the keys lists each key exactly once, nothing else, in ascending order |
| Catalog.Hosts | catalog.py:31-35 | `hosts` lists every key exactly once, nothing else, in ascending Python string order |
| Catalog.AscendingUnique | catalog.py:35 | there is only one ascending listing of a set of keys, so `hosts` is determined by the keys |
| Catalog.HostsRank | catalog.py:21-26 | the keys that come before the host at position `n` of `hosts` are exactly the first `n` listed |
| Catalog.HostsOfGroupCaseInsensitive | catalog.py:21-22 | after a reload every listed key is lower case, so the code-point sort is also the case-insensitive one the docstring promises |
| Catalog.Get | catalog.py:18-29 | a name finds its record or raises `KeyError`; a position raises `IndexError` exactly outside `-len..len-1` and otherwise finds the record of the host listed there |
| Catalog.GetNegative | catalog.py:25-26 | a negative position counts from the end of `hosts` |
| Catalog.GetPositionIsName | catalog.py:25-27 | looking up position `n` is looking up the hostname listed at `n` |
| Catalog.GetAfterFetch | catalog.py:28-29 | after a reload, a name finds a record exactly when some row's hostname lowers to it, and that record carries at least one address |
| Catalog.StoredReviewed | catalog.py:58 | the stored flag is 0 or 1, and it is 1 exactly when the given value is truthy |
| Catalog.Truthy | catalog.py:58 | a value is falsy exactly when it is `None`, `False`, `0` or the empty string |
| Catalog.StoredReviewedStable | catalog.py:55-58 | storing a stored flag again gives the same flag, and the default `False` stores 0 |

## Left out

- Terminal input and output are not modelled. `getch` is replaced by a finite key sequence given to `Textpad.Textbox.Edit`. `refresh` repaints nothing. The `__main__` demo (`textpad.py:204-215`) with `curses.wrapper`, `newwin` and `rectangle` is left out.
- The `validate` hook of the inherited `edit` calls arbitrary caller code. Keys are taken as already validated.
- `register_key` accepts any callable. The model binds keys only to the callbacks of this class (`Editing.Command`), so user-defined callbacks such as the docstring's `debug_key` are not modelled.
- Curses itself is stated, not verified. Cells are plain integers, and character attributes, colours, wide characters and scrolling are not modelled. A write into the bottom right cell never happens in the modelled code (`_insert_printable_char` stops before it), so its curses error is not modelled. The window's size is fixed, so `_update_max_yx` is a constant.
- Textpad.Textbox.LineEndOf: reads cells without moving the cursor. The real `inch(y, x)` moves it. This only matters for `move_down` and `move_up` (see Findings). `move_left` and `end_of_line` move the cursor afterwards, and so does the `clrtoeol` branch of `clear_to_end_of_line`. In its `deleteln` branch nothing moves the cursor, but the scan stops at column 0 there, which is where the cursor already was.
- Textpad.Textbox.Gather: does not model that the base `gather` leaves the cursor at the last cell it read. The method changes nothing, and `edit` returns right after it.
- Textpad.Textbox.MoveDown: models the corrected move (see Findings). The move as written is `Editing.OnMoveDownAsWritten`, a function only.
- Textpad.Textbox.MoveUp: models the corrected move (see Findings). The move as written is `Editing.OnMoveUpAsWritten`, a function only.
- The callbacks are modelled for the cursor position `do_command` passes them. Each method requires that `(y, x)` is the window's cursor.
- `textpad.py:189`, `:195` and `:201` return `True`. The other callbacks return 0 or 1: `end` always returns 0 (`textpad.py:141`), and `newline` returns 0 in a one-row window (`textpad.py:151-152`). `True` and 1 are modelled as `true`, 0 as `false`.
- All SQL in `catalog.py` is left out: the connection, `CREATE TABLE`, the `SELECT` with its `ORDER BY` collation, `add_host`'s `INSERT`, `del_host`, `get_host_by_mac`, `commit` and `lastrowid`. `fetch_hosts` and the constructor take the query's rows as a parameter.
- Catalog.Lower: lowers ASCII letters only. Python's `str.lower` also lowers other Unicode letters.
- NULL columns (`None` hostnames) are not modelled. Rows carry strings and an integer `reviewed`.
- Catalog.Get: does not model that a `bool` key counts as an `int` position in Python.
- Catalog.Get: does not model dictionary methods the catalog inherits other than the ones above.
- Catalog.StoredReviewed: covers `None`, booleans, integers and strings. The truthiness of other Python objects is not modelled.
- Catalog.Hosts: is a ghost function that picks keys in order. It is not an executable sort.

## Findings

| source | as written | input that shows it | evidently intended | confidence | as-written member | corrected member |
|---|---|---|---|---|---|---|
| textpad.py:169-183 | `move_down` and `move_up` move to `(y±1, x)` and then call `_end_of_line`, whose `inch(y, i)` reads move the cursor. When `x` is within the row's text, nothing moves the cursor back, so it ends on the row's last non-blank cell. `clear_to_end_of_line` undoes the same effect explicitly (`textpad.py:164-165`) | a 2-row, 5-column box with `stripspaces`, second row "abc  ", cursor at (0, 0), key Down: the cursor lands at (1, 2). With the first row "abc  " instead, cursor at (1, 0), key Up: it lands at (0, 2) | the cursor lands at (1, 0), or at (0, 0) for Up, keeping its column | not executed; medium (it depends on the standard-library `_end_of_line` reading cells with `inch(y, x)`) | Editing.OnMoveDownAsWritten, Editing.MoveDownAsWrittenCounterexample, Editing.OnMoveUpAsWritten, Editing.MoveUpAsWrittenCounterexample | Editing.OnMoveDown, Editing.MoveDownKeepsColumn, Editing.OnMoveUp, Editing.MoveUpKeepsColumn |
