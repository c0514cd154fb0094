/** The text box's editing state machine, as functions: what each command does to the
    window's cells and cursor, how `do_command` dispatches a key, how `edit` consumes a
    stream of keys, and what `gather` returns.  The class `Textpad.Textbox` carries out
    the same steps on a real window and is proved to agree with these functions. */
module Editing {
  import opened Curses

  datatype Option<T> = None | Some(value: T)

  // Key codes bound by default (curses.ascii and curses.KEY_*).
  const SOH: int := 1            // ^A
  const STX: int := 2            // ^B
  const EOT: int := 4            // ^D
  const ENQ: int := 5            // ^E
  const ACK: int := 6            // ^F
  const BEL: int := 7            // ^G
  const BS: int := 8             // ^H
  const NL: int := 10            // ^J
  const VT: int := 11            // ^K
  const FF: int := 12            // ^L
  const SO: int := 14            // ^N
  const SI: int := 15            // ^O
  const DLE: int := 16           // ^P
  const KeyDown: int := 258
  const KeyUp: int := 259
  const KeyLeft: int := 260
  const KeyRight: int := 261
  const KeyBackspace: int := 263

  /** The callbacks a key can be bound to. */
  datatype Command =
    | BeginningOfLine | MoveLeft | DelLeft | EndOfLine | MoveRight | End | Ignore
    | Newline | ClearToEndOfLine | MoveDown | MoveUp | Delch | Insertln | Refresh

  /** The bindings `Textbox.__init__` registers. */
  function DefaultCommands(): (t: map<int, Command>)
    ensures forall k :: k in t ==> !IsPrint(k) && k != 0
    ensures BEL in t && t[BEL] == End && NL in t && t[NL] == Newline
  {
    map[KeyBackspace := DelLeft, KeyDown := MoveDown, KeyLeft := MoveLeft,
        KeyRight := MoveRight, KeyUp := MoveUp, ACK := MoveRight, BEL := End,
        BS := DelLeft, DLE := MoveUp, ENQ := EndOfLine, EOT := Delch, FF := Refresh,
        NL := Newline, SOH := BeginningOfLine, STX := MoveLeft, VT := ClearToEndOfLine,
        SO := MoveDown, SI := Insertln]
  }

  /** The fixed settings of a text box: last row and column, and the two flags. */
  datatype Config = Config(maxy: nat, maxx: nat, insertMode: bool, stripspaces: bool)

  /** What the commands read and change: the cells, row-major, and the cursor. */
  datatype Screen = Screen(cells: seq<int>, cursor: Pos)

  /** The number of cells: `maxy + 1` rows of `maxx + 1` columns. */
  function Size(c: Config): (n: nat)
    ensures n == (c.maxy + 1) * (c.maxx + 1)
  {
    RowStartIsProduct(c.maxy + 1, c.maxx + 1);
    RowStart(c.maxy + 1, c.maxx + 1)
  }

  /** The cells fill the grid and the cursor is on it. */
  predicate Valid(c: Config, s: Screen)
  {
    |s.cells| == Size(c) && s.cursor.y <= c.maxy && s.cursor.x <= c.maxx
  }

  /** Row `y` of the grid. */
  function RowOf(c: Config, cells: seq<int>, y: nat): (r: seq<int>)
    requires |cells| == Size(c) && y <= c.maxy
    ensures RowStart(y, c.maxx + 1) + c.maxx + 1 <= |cells|
    ensures r == cells[RowStart(y, c.maxx + 1) .. RowStart(y, c.maxx + 1) + c.maxx + 1]
    ensures |r| == c.maxx + 1
  {
    RowFits(c.maxy + 1, c.maxx + 1, y);
    Row(cells, c.maxx + 1, y)
  }

  /** `_end_of_line(y)`. */
  function LineEndAt(c: Config, cells: seq<int>, y: nat): (e: nat)
    requires |cells| == Size(c) && y <= c.maxy
    ensures e <= c.maxx
  {
    LineEnd(RowOf(c, cells, y))
  }

  function MoveTo(s: Screen, y: nat, x: nat): (r: Screen)
  {
    s.(cursor := Pos(y, x))
  }

  // ---------------------------------------------------------------------------------
  // The callbacks.  Each one runs at the cursor `do_command` read, (y, x) below.

  /** `beginning_of_line`: to column 0 of the cursor's row. */
  function OnBeginningOfLine(c: Config, s: Screen): (r: Screen)
    requires Valid(c, s)
    ensures Valid(c, r) && r.cells == s.cells
    ensures r.cursor == Pos(s.cursor.y, 0)
  {
    MoveTo(s, s.cursor.y, 0)
  }

  /** `move_left`: one cell back in reading order, except that from column 0 with
      `stripspaces` it goes to the end of the previous row's text instead. */
  function OnMoveLeft(c: Config, s: Screen): (r: Screen)
    requires Valid(c, s)
    ensures Valid(c, r) && r.cells == s.cells
    ensures s.cursor == Pos(0, 0) ==> r == s
    ensures s.cursor != Pos(0, 0) && (s.cursor.x > 0 || !c.stripspaces) ==>
      Advance(r.cursor, c.maxx) == s.cursor
    ensures s.cursor.x == 0 && s.cursor.y > 0 && c.stripspaces ==>
      r.cursor.y == s.cursor.y - 1 &&
      forall i :: r.cursor.x < i <= c.maxx ==> IsBlank(RowOf(c, s.cells, r.cursor.y)[i])
  {
    var (y, x) := (s.cursor.y, s.cursor.x);
    if x > 0 then MoveTo(s, y, x - 1)
    else if y == 0 then s
    else if c.stripspaces then
      LineEndSpec(RowOf(c, s.cells, y - 1));
      MoveTo(s, y - 1, LineEndAt(c, s.cells, y - 1))
    else MoveTo(s, y - 1, c.maxx)
  }

  /** `end_of_line`: along the row to the end of its text with `stripspaces`, to the
      last column without. */
  function OnEndOfLine(c: Config, s: Screen): (r: Screen)
    requires Valid(c, s)
    ensures Valid(c, r) && r.cells == s.cells && r.cursor.y == s.cursor.y
    ensures c.stripspaces ==>
      forall i :: r.cursor.x < i <= c.maxx ==> IsBlank(RowOf(c, s.cells, s.cursor.y)[i])
    ensures !c.stripspaces ==> r.cursor.x == c.maxx
  {
    var y := s.cursor.y;
    LineEndSpec(RowOf(c, s.cells, y));
    if c.stripspaces then MoveTo(s, y, LineEndAt(c, s.cells, y)) else MoveTo(s, y, c.maxx)
  }

  /** From column 0 with `stripspaces`, `move_left` lands where the text of the row
      above ends, and that column is the only one where it does. */
  lemma MoveLeftStopsAtTextEnd(c: Config, s: Screen)
    requires Valid(c, s) && s.cursor.x == 0 && s.cursor.y > 0 && c.stripspaces
    ensures TextEnd(RowOf(c, s.cells, s.cursor.y - 1), OnMoveLeft(c, s).cursor.x)
    ensures var row := RowOf(c, s.cells, s.cursor.y - 1);
      forall e: nat :: TextEnd(row, e) ==> e == OnMoveLeft(c, s).cursor.x
  {
    LineEndIsTextEnd(RowOf(c, s.cells, s.cursor.y - 1));
  }

  /** With `stripspaces`, `end_of_line` lands where the text of the cursor's row
      ends, and that column is the only one where it does. */
  lemma EndOfLineStopsAtTextEnd(c: Config, s: Screen)
    requires Valid(c, s) && c.stripspaces
    ensures TextEnd(RowOf(c, s.cells, s.cursor.y), OnEndOfLine(c, s).cursor.x)
    ensures forall e: nat :: TextEnd(RowOf(c, s.cells, s.cursor.y), e) ==>
      e == OnEndOfLine(c, s).cursor.x
  {
    LineEndIsTextEnd(RowOf(c, s.cells, s.cursor.y));
  }

  /** `move_right`: one cell on in reading order, as `addch` advances, and nothing at
      the bottom right corner. */
  function OnMoveRight(c: Config, s: Screen): (r: Screen)
    requires Valid(c, s)
    ensures Valid(c, r) && r.cells == s.cells
    ensures s.cursor == Pos(c.maxy, c.maxx) ==> r == s
    ensures s.cursor != Pos(c.maxy, c.maxx) ==> r.cursor == Advance(s.cursor, c.maxx)
  {
    var (y, x) := (s.cursor.y, s.cursor.x);
    if x < c.maxx then MoveTo(s, y, x + 1)
    else if y == c.maxy then s
    else MoveTo(s, y + 1, 0)
  }

  /** `newline` when it continues: down to the start of the next row, or nowhere on the
      last row.  (With one row it stops editing instead; see `Continues`.) */
  function OnNewline(c: Config, s: Screen): (r: Screen)
    requires Valid(c, s)
    ensures Valid(c, r) && r.cells == s.cells
    ensures r == s || r.cursor == Pos(s.cursor.y + 1, 0)
  {
    var y := s.cursor.y;
    if c.maxy == 0 then s
    else if y < c.maxy then MoveTo(s, y + 1, 0)
    else s
  }

  /** `move_down`, as its code evidently intends: one row down, the column clamped to
      the end of the new row's content. */
  function OnMoveDown(c: Config, s: Screen): (r: Screen)
    requires Valid(c, s)
    ensures Valid(c, r) && r.cells == s.cells
    ensures s.cursor.y == c.maxy ==> r == s
    ensures s.cursor.y < c.maxy ==>
      r.cursor.y == s.cursor.y + 1 && r.cursor.x <= s.cursor.x &&
      r.cursor.x <= LineEndAt(c, s.cells, s.cursor.y + 1)
  {
    var (y, x) := (s.cursor.y, s.cursor.x);
    if y < c.maxy then
      var e := LineEndAt(c, s.cells, y + 1);
      MoveTo(s, y + 1, if x > e then e else x)
    else s
  }

  /** `move_down` as written: `_end_of_line(y + 1)` scans the row with `inch(y + 1, i)`,
      which moves the cursor, so when the column is not clamped the cursor stays where
      the scan stopped. */
  function OnMoveDownAsWritten(c: Config, s: Screen): (r: Screen)
    requires Valid(c, s)
    ensures Valid(c, r) && r.cells == s.cells
  {
    var (y, x) := (s.cursor.y, s.cursor.x);
    if y < c.maxy then
      var e := LineEndAt(c, s.cells, y + 1);
      MoveTo(s, y + 1, if x > e then e else ScanStop(RowOf(c, s.cells, y + 1)))
    else s
  }

  /** `move_up`, as its code evidently intends (see `OnMoveDown`). */
  function OnMoveUp(c: Config, s: Screen): (r: Screen)
    requires Valid(c, s)
    ensures Valid(c, r) && r.cells == s.cells
    ensures s.cursor.y == 0 ==> r == s
    ensures s.cursor.y > 0 ==>
      r.cursor.y == s.cursor.y - 1 && r.cursor.x <= s.cursor.x &&
      r.cursor.x <= LineEndAt(c, s.cells, s.cursor.y - 1)
  {
    var (y, x) := (s.cursor.y, s.cursor.x);
    if y > 0 then
      var e := LineEndAt(c, s.cells, y - 1);
      MoveTo(s, y - 1, if x > e then e else x)
    else s
  }

  /** `move_up` as written (see `OnMoveDownAsWritten`). */
  function OnMoveUpAsWritten(c: Config, s: Screen): (r: Screen)
    requires Valid(c, s)
    ensures Valid(c, r) && r.cells == s.cells
  {
    var (y, x) := (s.cursor.y, s.cursor.x);
    if y > 0 then
      var e := LineEndAt(c, s.cells, y - 1);
      MoveTo(s, y - 1, if x > e then e else ScanStop(RowOf(c, s.cells, y - 1)))
    else s
  }

  /** `delch`: the cell under the cursor is deleted; the cursor stays. */
  function OnDelch(c: Config, s: Screen): (r: Screen)
    requires Valid(c, s)
    ensures Valid(c, r) && r.cursor == s.cursor
  {
    var y := s.cursor.y;
    RowFits(c.maxy + 1, c.maxx + 1, y);
    s.(cells := DelchCells(s.cells, c.maxx + 1, y, s.cursor.x))
  }

  /** `del_left`: `move_left`, then `delch` wherever that left the cursor. */
  function OnDelLeft(c: Config, s: Screen): (r: Screen)
    requires Valid(c, s)
    ensures Valid(c, r) && r.cursor == OnMoveLeft(c, s).cursor
  {
    OnDelch(c, OnMoveLeft(c, s))
  }

  /** `clear_to_end_of_line`: at column 0 of a row whose `_end_of_line` is 0 the row is
      deleted; otherwise the row is blanked from the cursor on.  The cursor stays. */
  function OnClearToEndOfLine(c: Config, s: Screen): (r: Screen)
    requires Valid(c, s)
    ensures Valid(c, r) && r.cursor == s.cursor
  {
    var (y, x) := (s.cursor.y, s.cursor.x);
    RowFits(c.maxy + 1, c.maxx + 1, y);
    if x == 0 && LineEndAt(c, s.cells, y) == 0 then
      s.(cells := DeletelnCells(s.cells, c.maxx + 1, y))
    else
      s.(cells := ClrtoeolCells(s.cells, c.maxx + 1, y, x))
  }

  /** `insertln`: a blank row is inserted at the cursor's row; the cursor stays. */
  function OnInsertln(c: Config, s: Screen): (r: Screen)
    requires Valid(c, s)
    ensures Valid(c, r) && r.cursor == s.cursor
  {
    RowFits(c.maxy + 1, c.maxx + 1, s.cursor.y);
    s.(cells := InsertlnCells(s.cells, c.maxx + 1, s.cursor.y))
  }

  /** The change a command makes.  `end`, `ignore` and `refresh` change nothing. */
  function Effect(cmd: Command, c: Config, s: Screen): (r: Screen)
    requires Valid(c, s)
    ensures Valid(c, r)
    ensures cmd == End || cmd == Ignore || cmd == Refresh ==> r == s
    ensures !(cmd == DelLeft || cmd == ClearToEndOfLine || cmd == Delch || cmd == Insertln) ==>
      r.cells == s.cells
    ensures cmd == ClearToEndOfLine || cmd == Delch || cmd == Insertln ==> r.cursor == s.cursor
  {
    match cmd
    case BeginningOfLine => OnBeginningOfLine(c, s)
    case MoveLeft => OnMoveLeft(c, s)
    case DelLeft => OnDelLeft(c, s)
    case EndOfLine => OnEndOfLine(c, s)
    case MoveRight => OnMoveRight(c, s)
    case End => s
    case Ignore => s
    case Newline => OnNewline(c, s)
    case ClearToEndOfLine => OnClearToEndOfLine(c, s)
    case MoveDown => OnMoveDown(c, s)
    case MoveUp => OnMoveUp(c, s)
    case Delch => OnDelch(c, s)
    case Insertln => OnInsertln(c, s)
    case Refresh => s
  }

  /** The value a command returns: false (0) asks `edit` to stop. */
  function Continues(cmd: Command, c: Config): (r: bool)
    ensures !r <==> cmd == End || (cmd == Newline && c.maxy == 0)
  {
    match cmd
    case End => false
    case Newline => c.maxy != 0
    case _ => true
  }

  // ---------------------------------------------------------------------------------
  // Printable keys that no command is bound to.

  /** Where the insert-mode loop of `_insert_printable_char` stops when it starts at
      cell `p`: the first cell from `p` on that does not hold a printable character, or
      the cell just before the bottom right corner `last`, whichever comes first. */
  function ShiftEnd(cells: seq<int>, p: nat, last: nat): (k: nat)
    requires p < last <= |cells|
    ensures p <= k < last
    ensures forall i :: p <= i < k ==> IsPrint(cells[i])
    ensures k == last - 1 || !IsPrint(cells[k])
    decreases last - p
  {
    if !IsPrint(cells[p]) || p + 1 == last then p else ShiftEnd(cells, p + 1, last)
  }

  /** The cursor is before the bottom right corner exactly when its cell index is. */
  lemma BeforeCorner(c: Config, p: Pos)
    requires p.y <= c.maxy && p.x <= c.maxx
    ensures Index(c.maxx + 1, p) + 1 <= Size(c)
    ensures p.y < c.maxy || p.x < c.maxx <==> Index(c.maxx + 1, p) + 1 < Size(c)
  {
    RowFits(c.maxy + 1, c.maxx + 1, p.y);
    NextRowStart(c.maxx + 1, c.maxy);
    if p.y < c.maxy {
      RowFits(c.maxy + 1, c.maxx + 1, p.y + 1);
      NextRowStart(c.maxx + 1, p.y);
    }
  }

  /** `_insert_printable_char(ch)` (standard library).  The key goes into the cell under
      the cursor and the cursor advances one cell.  In insert mode the cells after it
      first move one cell towards the end, up to `ShiftEnd`; that cell's old value is
      dropped.  In overwrite mode only the cell under the cursor changes. */
  function InsertPrintable(c: Config, s: Screen, ch: int): (r: Screen)
    requires Valid(c, s) && (s.cursor.y < c.maxy || s.cursor.x < c.maxx)
    ensures Valid(c, r)
    ensures r.cursor == Advance(s.cursor, c.maxx)
    ensures Index(c.maxx + 1, s.cursor) + 1 < Size(c)
    ensures r.cells[Index(c.maxx + 1, s.cursor)] == ch
    ensures r.cells[..Index(c.maxx + 1, s.cursor)] == s.cells[..Index(c.maxx + 1, s.cursor)]
    ensures r.cells[Size(c) - 1] == s.cells[Size(c) - 1]
  {
    BeforeCorner(c, s.cursor);
    Screen(Shift(s.cells, Index(c.maxx + 1, s.cursor), ShiftStop(c, s), ch), Advance(s.cursor, c.maxx))
  }

  /** The last cell `_insert_printable_char` writes: `ShiftEnd` from the cursor in insert
      mode, the cursor's own cell in overwrite mode. */
  function ShiftStop(c: Config, s: Screen): (k: nat)
    requires Valid(c, s) && (s.cursor.y < c.maxy || s.cursor.x < c.maxx)
    ensures Index(c.maxx + 1, s.cursor) <= k < Size(c) - 1
  {
    BeforeCorner(c, s.cursor);
    var p := Index(c.maxx + 1, s.cursor);
    if c.insertMode then ShiftEnd(s.cells, p, Size(c) - 1) else p
  }

  /** `cs` with `ch` put at `p` and the cells from `p` up to `k` moved one place on; the
      old cell `k` is dropped. */
  function Shift(cs: seq<int>, p: nat, k: nat, ch: int): (r: seq<int>)
    requires p <= k < |cs|
    ensures |r| == |cs|
  {
    cs[..p] + [ch] + cs[p..k] + cs[k + 1..]
  }

  // ---------------------------------------------------------------------------------
  // Dispatch and the edit loop.

  /** `do_command(ch)`: the new screen and the value returned. */
  function DoCommand(c: Config, t: map<int, Command>, s: Screen, ch: int): (r: (Screen, bool))
    requires Valid(c, s)
    ensures Valid(c, r.0)
    ensures ch !in t ==> r.1
    ensures ch !in t && !IsPrint(ch) ==> r.0 == s
    ensures ch !in t && s.cursor == Pos(c.maxy, c.maxx) ==> r.0 == s
  {
    if ch in t then (Effect(t[ch], c, s), Continues(t[ch], c))
    else if IsPrint(ch) && (s.cursor.y < c.maxy || s.cursor.x < c.maxx) then
      (InsertPrintable(c, s, ch), true)
    else (s, true)
  }

  /** The state `edit` keeps between keys: the screen and `lastcmd`. */
  datatype Session = Session(screen: Screen, lastcmd: Option<int>)

  /** The loop of `edit` over the keys `keys`: a key 0 is skipped, every other key goes
      through `do_command`, and the loop ends when a command returns false or the keys
      run out.  The flag says whether a command stopped it. */
  function Run(c: Config, t: map<int, Command>, ss: Session, keys: seq<int>): (r: (Session, bool))
    requires Valid(c, ss.screen)
    ensures Valid(c, r.0.screen)
    ensures keys == [] ==> r == (ss, false)
    ensures r.0.lastcmd == ss.lastcmd ||
      (r.0.lastcmd.Some? && r.0.lastcmd.value != 0 && r.0.lastcmd.value in keys)
    ensures r.1 ==>
      r.0.lastcmd.Some? && r.0.lastcmd.value in t && !Continues(t[r.0.lastcmd.value], c)
    decreases |keys|
  {
    if keys == [] then (ss, false)
    else if keys[0] == 0 then Run(c, t, ss, keys[1..])
    else
      var (s', go) := DoCommand(c, t, ss.screen, keys[0]);
      if go then Run(c, t, Session(s', Some(keys[0])), keys[1..])
      else (Session(s', Some(keys[0])), true)
  }

  // ---------------------------------------------------------------------------------
  // Reading the text back.

  /** The characters of `cells`, each cell's ASCII part. */
  function Chars(cells: seq<int>): (r: string)
    ensures |r| == |cells|
    ensures forall i :: 0 <= i < |cells| ==> r[i] == Ascii(cells[i]) as char
  {
    seq(|cells|, i requires 0 <= i < |cells| => Ascii(cells[i]) as char)
  }

  /** One more cell read gives one more character. */
  lemma CharsSnoc(cells: seq<int>, x: nat)
    requires x < |cells|
    ensures Chars(cells[..x + 1]) == Chars(cells[..x]) + [Ascii(cells[x]) as char]
  {
    var a, b := Chars(cells[..x + 1]), Chars(cells[..x]) + [Ascii(cells[x]) as char];
    assert forall i :: 0 <= i < x + 1 ==> a[i] == b[i];
  }



  /** What the standard-library `gather` takes from one row: with `stripspaces`, nothing
      when `_end_of_line` is 0, else the cells up to and including column
      `_end_of_line`; without it, the whole row.  A newline follows unless the window
      has one row. */
  function GatherRow(c: Config, row: seq<int>): (r: string)
    requires |row| == c.maxx + 1
    ensures |r| <= |row| + 1
    ensures c.stripspaces ==> (r == "" <==> LineEnd(row) == 0)
    ensures !c.stripspaces ==> |r| >= |row|
  {
    if !c.stripspaces then Chars(row) + (if c.maxy > 0 then "\n" else "")
    else if LineEnd(row) == 0 then ""
    else Chars(row[..LineEnd(row) + 1]) + (if c.maxy > 0 then "\n" else "")
  }

  /** The text of a row `gather` does not skip: the cells up to the end of the line when
      trailing blanks are stripped, all of them otherwise. */
  lemma GatherRowBy(c: Config, row: seq<int>, stop: nat)
    requires |row| == c.maxx + 1 && stop == LineEnd(row)
    requires !(c.stripspaces && stop == 0)
    ensures stop < |row|
    ensures var text := Chars(row[..if c.stripspaces then stop + 1 else c.maxx + 1]);
      GatherRow(c, row) == if c.maxy > 0 then text + "\n" else text
  {
    assert row[..c.maxx + 1] == row;
    var text := Chars(row[..if c.stripspaces then stop + 1 else c.maxx + 1]);
    assert text + "" == text;
  }

  /** The standard-library `gather` over the first `n` rows. */
  function BaseGather(c: Config, cells: seq<int>, n: nat): (r: string)
    requires |cells| == Size(c) && n <= c.maxy + 1
  {
    if n == 0 then "" else BaseGather(c, cells, n - 1) + GatherRow(c, RowOf(c, cells, n - 1))
  }

  /** Each row gives at most its cells and a newline. */
  lemma {:induction false} BaseGatherBound(c: Config, cells: seq<int>, n: nat)
    requires |cells| == Size(c) && n <= c.maxy + 1
    ensures |BaseGather(c, cells, n)| <= RowStart(n, c.maxx + 2)
    decreases n
  {
    if n > 0 {
      BaseGatherBound(c, cells, n - 1);
    }
  }

  /** One more row gathered. */
  lemma BaseGatherNext(c: Config, cells: seq<int>, y: nat)
    requires |cells| == Size(c) && y <= c.maxy
    ensures BaseGather(c, cells, y + 1) == BaseGather(c, cells, y) + GatherRow(c, RowOf(c, cells, y))
  {
  }

  /** Whitespace as Python's `str.strip` sees it, for the ASCII characters `gather` can
      produce: tab, newline, vertical tab, form feed, carriage return, the four
      separators 28 to 31, and space. */
  predicate IsSpace(ch: char)
  {
    9 <= ch as int <= 13 || 28 <= ch as int <= 32
  }

  function TrimLeft(s: string): (r: string)
    ensures |r| <= |s| && r == s[|s| - |r|..]
    ensures r == [] || !IsSpace(r[0])
    ensures forall i :: 0 <= i < |s| - |r| ==> IsSpace(s[i])
  {
    if s != [] && IsSpace(s[0]) then TrimLeft(s[1..]) else s
  }

  function TrimRight(s: string): (r: string)
    ensures |r| <= |s| && r == s[..|r|]
    ensures r == [] || !IsSpace(r[|r| - 1])
    ensures forall i :: |r| <= i < |s| ==> IsSpace(s[i])
  {
    if s != [] && IsSpace(s[|s| - 1]) then TrimRight(s[..|s| - 1]) else s
  }

  /** Python's `str.strip()`: whitespace removed at both ends. */
  function Strip(s: string): (r: string)
    ensures |r| <= |s|
    ensures r == [] || (!IsSpace(r[0]) && !IsSpace(r[|r| - 1]))
  {
    TrimRight(TrimLeft(s))
  }

  /** `Textbox.gather`: the standard-library result, stripped when `stripspaces`. */
  function Gather(c: Config, cells: seq<int>): (r: string)
    requires |cells| == Size(c)
    ensures |r| <= RowStart(c.maxy + 1, c.maxx + 2)
    ensures c.stripspaces ==> r == [] || (!IsSpace(r[0]) && !IsSpace(r[|r| - 1]))
    ensures !c.stripspaces ==> r == BaseGather(c, cells, c.maxy + 1)
  {
    var g := BaseGather(c, cells, c.maxy + 1);
    BaseGatherBound(c, cells, c.maxy + 1);
    if c.stripspaces then Strip(g) else g
  }

  // ---------------------------------------------------------------------------------
  // Properties of the commands.

  /** Moving right then left comes back, away from the last column. */
  lemma MoveRightThenLeft(c: Config, s: Screen)
    requires Valid(c, s) && s.cursor.x < c.maxx
    ensures OnMoveLeft(c, OnMoveRight(c, s)) == s
  {
  }

  /** Moving left then right comes back, away from the first column. */
  lemma MoveLeftThenRight(c: Config, s: Screen)
    requires Valid(c, s) && s.cursor.x > 0
    ensures OnMoveRight(c, OnMoveLeft(c, s)) == s
  {
  }

  /** At the last column of a row that is not the last, right wraps to the next row and
      left comes back to the same cell exactly when left lands on the last column: always
      without `stripspaces`, and with it only when `_end_of_line` of the row is the last
      column. */
  lemma WrapRightThenLeft(c: Config, s: Screen)
    requires Valid(c, s) && s.cursor.x == c.maxx && s.cursor.y < c.maxy
    ensures OnMoveLeft(c, OnMoveRight(c, s)) == s <==>
            !c.stripspaces || LineEndAt(c, s.cells, s.cursor.y) == c.maxx
  {
    var r := OnMoveRight(c, s);
    assert r.cursor == Pos(s.cursor.y + 1, 0);
    assert RowOf(c, r.cells, s.cursor.y) == RowOf(c, s.cells, s.cursor.y);
  }

  /** The top left and bottom right corners are hard: left and right stop there. */
  lemma CornersStop(c: Config, s: Screen)
    requires Valid(c, s)
    ensures s.cursor == Pos(0, 0) ==> OnMoveLeft(c, s) == s
    ensures s.cursor == Pos(c.maxy, c.maxx) ==> OnMoveRight(c, s) == s
  {
  }

  /** What `move_down` evidently intends: one row down, never past the end of the new
      row's text, and without any sideways move when the column is already within it. */
  lemma MoveDownKeepsColumn(c: Config, s: Screen)
    requires Valid(c, s) && s.cursor.y < c.maxy
    ensures OnMoveDown(c, s).cursor.y == s.cursor.y + 1
    ensures OnMoveDown(c, s).cursor.x <= LineEndAt(c, s.cells, s.cursor.y + 1)
    ensures s.cursor.x <= LineEndAt(c, s.cells, s.cursor.y + 1) ==>
            OnMoveDown(c, s).cursor.x == s.cursor.x
    ensures s.cursor.x > LineEndAt(c, s.cells, s.cursor.y + 1) ==>
            OnMoveDown(c, s).cursor.x == LineEndAt(c, s.cells, s.cursor.y + 1)
  {
  }

  /** `OnMoveDown` once the target row's end `e` is known. */
  lemma MoveDownBy(c: Config, s: Screen, e: nat)
    requires Valid(c, s) && s.cursor.y < c.maxy && e == LineEndAt(c, s.cells, s.cursor.y + 1)
    ensures OnMoveDown(c, s) == MoveTo(s, s.cursor.y + 1, if s.cursor.x > e then e else s.cursor.x)
  {
  }

  /** `OnMoveUp` once the target row's end `e` is known. */
  lemma MoveUpBy(c: Config, s: Screen, e: nat)
    requires Valid(c, s) && s.cursor.y > 0 && e == LineEndAt(c, s.cells, s.cursor.y - 1)
    ensures OnMoveUp(c, s) == MoveTo(s, s.cursor.y - 1, if s.cursor.x > e then e else s.cursor.x)
  {
  }

  /** `OnClearToEndOfLine` once it is known whether the row is deleted. */
  lemma ClearToEndOfLineBy(c: Config, s: Screen, blankRow: bool)
    requires Valid(c, s)
    requires blankRow <==> s.cursor.x == 0 && LineEndAt(c, s.cells, s.cursor.y) == 0
    ensures RowStart(s.cursor.y, c.maxx + 1) + c.maxx + 1 <= |s.cells|
    ensures OnClearToEndOfLine(c, s) ==
            if blankRow then s.(cells := DeletelnCells(s.cells, c.maxx + 1, s.cursor.y))
            else s.(cells := ClrtoeolCells(s.cells, c.maxx + 1, s.cursor.y, s.cursor.x))
  {
    RowFits(c.maxy + 1, c.maxx + 1, s.cursor.y);
  }

  /** The same for `move_up`. */
  lemma MoveUpKeepsColumn(c: Config, s: Screen)
    requires Valid(c, s) && s.cursor.y > 0
    ensures OnMoveUp(c, s).cursor.y == s.cursor.y - 1
    ensures OnMoveUp(c, s).cursor.x <= LineEndAt(c, s.cells, s.cursor.y - 1)
    ensures s.cursor.x <= LineEndAt(c, s.cells, s.cursor.y - 1) ==>
            OnMoveUp(c, s).cursor.x == s.cursor.x
    ensures s.cursor.x > LineEndAt(c, s.cells, s.cursor.y - 1) ==>
            OnMoveUp(c, s).cursor.x == LineEndAt(c, s.cells, s.cursor.y - 1)
  {
  }

  /** `move_down` as written agrees with the intended move exactly when the column is
      clamped or happens to be the column of the new row's last non-blank cell. */
  lemma MoveDownAsWrittenAgrees(c: Config, s: Screen)
    requires Valid(c, s) && s.cursor.y < c.maxy
    ensures OnMoveDownAsWritten(c, s) == OnMoveDown(c, s) <==>
            s.cursor.x > LineEndAt(c, s.cells, s.cursor.y + 1) ||
            s.cursor.x == ScanStop(RowOf(c, s.cells, s.cursor.y + 1))
  {
  }

  /** An input on which `move_down` as written misplaces the cursor: in a 2 by 5 window
      whose second row reads "abc  ", Down from (0, 0) lands under the "c" at (1, 2)
      instead of at (1, 0). */
  lemma MoveDownAsWrittenCounterexample()
    ensures var c := Config(1, 4, false, true);
      var s := Screen(Blanks(5) + [97, 98, 99, Blank, Blank], Pos(0, 0));
      OnMoveDownAsWritten(c, s).cursor == Pos(1, 2) && OnMoveDown(c, s).cursor == Pos(1, 0)
  {
    var c := Config(1, 4, false, true);
    var s := Screen(Blanks(5) + [97, 98, 99, Blank, Blank], Pos(0, 0));
    var row := RowOf(c, s.cells, 1);
    assert row == [97, 98, 99, Blank, Blank];
    ContentLengthUnique(row, 3);
  }

  /** The same for `move_up`: in a 2 by 5 window whose first row reads "abc  ", Up from
      (1, 0) lands under the "c" at (0, 2) instead of at (0, 0). */
  lemma MoveUpAsWrittenCounterexample()
    ensures var c := Config(1, 4, false, true);
      var s := Screen([97, 98, 99, Blank, Blank] + Blanks(5), Pos(1, 0));
      OnMoveUpAsWritten(c, s).cursor == Pos(0, 2) && OnMoveUp(c, s).cursor == Pos(0, 0)
  {
    var c := Config(1, 4, false, true);
    var s := Screen([97, 98, 99, Blank, Blank] + Blanks(5), Pos(1, 0));
    var row := RowOf(c, s.cells, 0);
    assert row == [97, 98, 99, Blank, Blank];
    ContentLengthUnique(row, 3);
  }

  /** `delch`: the rest of the cursor's row moves one cell left and its last cell turns
      blank; every other row keeps its cells. */
  lemma DelchRows(c: Config, s: Screen, z: nat)
    requires Valid(c, s) && z <= c.maxy
    ensures z == s.cursor.y ==>
      RowOf(c, OnDelch(c, s).cells, z) ==
      RowOf(c, s.cells, z)[..s.cursor.x] + RowOf(c, s.cells, z)[s.cursor.x + 1..] + [Blank]
    ensures z != s.cursor.y ==> RowOf(c, OnDelch(c, s).cells, z) == RowOf(c, s.cells, z)
  {
    DelchRow(s.cells, c.maxx + 1, c.maxy + 1, s.cursor.y, s.cursor.x, z);
  }

  /** `del_left` at the top left corner still deletes the cell there. */
  lemma DelLeftAtOrigin(c: Config, s: Screen)
    requires Valid(c, s) && s.cursor == Pos(0, 0)
    ensures OnDelLeft(c, s) == OnDelch(c, s)
  {
  }

  /** `clrtoeol` at (y, x), row by row. */
  lemma ClrtoeolRows(c: Config, cells: seq<int>, y: nat, x: nat, z: nat)
    requires |cells| == Size(c) && y <= c.maxy && x <= c.maxx && z <= c.maxy
    ensures RowStart(y, c.maxx + 1) + c.maxx + 1 <= |cells|
    ensures z == y ==>
      RowOf(c, ClrtoeolCells(cells, c.maxx + 1, y, x), z) == RowOf(c, cells, z)[..x] + Blanks(c.maxx + 1 - x)
    ensures z != y ==> RowOf(c, ClrtoeolCells(cells, c.maxx + 1, y, x), z) == RowOf(c, cells, z)
  {
    ClrtoeolRow(cells, c.maxx + 1, c.maxy + 1, y, x, z);
  }

  /** At column 0 of a row whose `_end_of_line` is 0, `clear_to_end_of_line` is
      `deleteln`. */
  lemma ClearIsDeleteln(c: Config, s: Screen)
    requires Valid(c, s) && s.cursor.x == 0 && LineEndAt(c, s.cells, s.cursor.y) == 0
    ensures RowStart(s.cursor.y, c.maxx + 1) + c.maxx + 1 <= |s.cells|
    ensures OnClearToEndOfLine(c, s).cells == DeletelnCells(s.cells, c.maxx + 1, s.cursor.y)
  {
    RowFits(c.maxy + 1, c.maxx + 1, s.cursor.y);
  }

  /** Everywhere else `clear_to_end_of_line` is `clrtoeol`. */
  lemma ClearIsClrtoeol(c: Config, s: Screen)
    requires Valid(c, s) && !(s.cursor.x == 0 && LineEndAt(c, s.cells, s.cursor.y) == 0)
    ensures RowStart(s.cursor.y, c.maxx + 1) + c.maxx + 1 <= |s.cells|
    ensures OnClearToEndOfLine(c, s).cells == ClrtoeolCells(s.cells, c.maxx + 1, s.cursor.y, s.cursor.x)
  {
    RowFits(c.maxy + 1, c.maxx + 1, s.cursor.y);
  }

  /** `clear_to_end_of_line` at column 0 of a row whose `_end_of_line` is 0 deletes the
      row: the rows below move up by one and the bottom row becomes blank. */
  lemma ClearDeletesBlankRow(c: Config, s: Screen, z: nat)
    requires Valid(c, s) && s.cursor.x == 0 && LineEndAt(c, s.cells, s.cursor.y) == 0
    requires z <= c.maxy
    ensures z < s.cursor.y ==>
      RowOf(c, OnClearToEndOfLine(c, s).cells, z) == RowOf(c, s.cells, z)
    ensures s.cursor.y <= z < c.maxy ==>
      RowOf(c, OnClearToEndOfLine(c, s).cells, z) == RowOf(c, s.cells, z + 1)
    ensures z == c.maxy ==> RowOf(c, OnClearToEndOfLine(c, s).cells, z) == Blanks(c.maxx + 1)
  {
    ClearIsDeleteln(c, s);
    DeletelnRow(s.cells, c.maxx + 1, c.maxy + 1, s.cursor.y, z);
  }

  /** Otherwise `clear_to_end_of_line` blanks the cursor's row from the cursor on and
      leaves every other row alone. */
  lemma ClearBlanksToEnd(c: Config, s: Screen, z: nat)
    requires Valid(c, s) && !(s.cursor.x == 0 && LineEndAt(c, s.cells, s.cursor.y) == 0)
    requires z <= c.maxy
    ensures z == s.cursor.y ==>
      RowOf(c, OnClearToEndOfLine(c, s).cells, z) ==
      RowOf(c, s.cells, z)[..s.cursor.x] + Blanks(c.maxx + 1 - s.cursor.x)
    ensures z != s.cursor.y ==>
      RowOf(c, OnClearToEndOfLine(c, s).cells, z) == RowOf(c, s.cells, z)
  {
    ClearIsClrtoeol(c, s);
    ClrtoeolRows(c, s.cells, s.cursor.y, s.cursor.x, z);
  }

  /** `insertln`: a blank row at the cursor's row, the rows from there on one further
      down (the bottom row is lost), the rows above unchanged. */
  lemma InsertlnRows(c: Config, s: Screen, z: nat)
    requires Valid(c, s) && z <= c.maxy
    ensures z < s.cursor.y ==> RowOf(c, OnInsertln(c, s).cells, z) == RowOf(c, s.cells, z)
    ensures z == s.cursor.y ==> RowOf(c, OnInsertln(c, s).cells, z) == Blanks(c.maxx + 1)
    ensures z > s.cursor.y ==> RowOf(c, OnInsertln(c, s).cells, z) == RowOf(c, s.cells, z - 1)
  {
    InsertlnRow(s.cells, c.maxx + 1, c.maxy + 1, s.cursor.y, z);
  }

  /** `newline` stops editing exactly when the window has one row. */
  lemma NewlineStopsOnlyOneRow(c: Config, s: Screen)
    requires Valid(c, s)
    ensures !Continues(Newline, c) <==> c.maxy == 0
    ensures c.maxy > 0 && s.cursor.y < c.maxy ==> OnNewline(c, s).cursor == Pos(s.cursor.y + 1, 0)
    ensures s.cursor.y == c.maxy ==> OnNewline(c, s) == s
  {
  }

  /** A printable key that no command is bound to: the key lands under the cursor, the
      cells up to `ShiftEnd` move one cell on (insert mode; in overwrite mode that is the
      cursor's cell itself, so nothing else changes), the cell at `ShiftEnd` is lost, and
      the bottom right cell never changes. */
  lemma InsertPrintableCells(c: Config, s: Screen, ch: int)
    requires Valid(c, s) && (s.cursor.y < c.maxy || s.cursor.x < c.maxx)
    ensures ShiftStop(c, s) < Size(c) - 1
    ensures ShiftedIn(s.cells, InsertPrintable(c, s, ch).cells, Index(c.maxx + 1, s.cursor), ShiftStop(c, s), ch)
  {
    ShiftIn(s.cells, Index(c.maxx + 1, s.cursor), ShiftStop(c, s), ch);
  }

  /** The insertion in terms of the cell the shift stops at: the cursor's own cell in
      overwrite mode, and in insert mode the first cell that is not printable or, when
      every one is, the cell before the bottom right corner. */
  lemma InsertPrintableBy(c: Config, s: Screen, ch: int, k: nat)
    requires Valid(c, s) && (s.cursor.y < c.maxy || s.cursor.x < c.maxx)
    requires Index(c.maxx + 1, s.cursor) <= k < Size(c) - 1
    requires !c.insertMode ==> k == Index(c.maxx + 1, s.cursor)
    requires c.insertMode ==> (forall i :: Index(c.maxx + 1, s.cursor) <= i < k ==> IsPrint(s.cells[i]))
    requires c.insertMode ==> !IsPrint(s.cells[k]) || k == Size(c) - 2
    ensures InsertPrintable(c, s, ch) == Screen(Shift(s.cells, Index(c.maxx + 1, s.cursor), k, ch), Advance(s.cursor, c.maxx))
  {
    BeforeCorner(c, s.cursor);
    if c.insertMode {
      ShiftEndAt(s.cells, Index(c.maxx + 1, s.cursor), k, Size(c) - 1);
    }
  }

  /** `r` is `cs` with `ch` put at `p` and cells `p` to `k - 1` moved one place on: the
      cells before `p` and after `k` are kept, and `cs[k]` is traded for `ch`. */
  ghost predicate ShiftedIn(cs: seq<int>, r: seq<int>, p: nat, k: nat, ch: int)
  {
    && p <= k < |cs| == |r|
    && r[p] == ch
    && (forall i :: 0 <= i < p || k < i < |r| ==> r[i] == cs[i])
    && (forall i :: p < i <= k ==> r[i] == cs[i - 1])
    && multiset(r) == multiset(cs) - multiset{cs[k]} + multiset{ch}
  }

  /** Putting `ch` at `p` and shifting cells `p` to `k - 1` one place on is `ShiftedIn`. */
  lemma ShiftIn(cs: seq<int>, p: nat, k: nat, ch: int)
    requires p <= k < |cs|
    ensures ShiftedIn(cs, Shift(cs, p, k, ch), p, k, ch)
  {
    ShiftInCells(cs, p, k, ch);
    ShiftInMultiset(cs, p, k, ch);
  }

  /** Cells `p` up to `q - 1` are all printable. */
  predicate Printable(cells: seq<int>, p: nat, q: nat)
    requires p <= q <= |cells|
    decreases q - p
  {
    p == q || (Printable(cells, p, q - 1) && IsPrint(cells[q - 1]))
  }

  /** `Printable` is the quantified statement. */
  lemma {:induction false} PrintableAll(cells: seq<int>, p: nat, q: nat)
    requires p <= q <= |cells| && Printable(cells, p, q)
    ensures forall i :: p <= i < q ==> IsPrint(cells[i])
    decreases q - p
  {
    if p < q {
      PrintableAll(cells, p, q - 1);
    }
  }

  /** What pass `q - p` of the insert-mode loop writes at cell `q`: the key on the first
      pass, and on each later one the cell the pass before it picked up. */
  function Carry(cs: seq<int>, p: nat, q: nat, ch: int): (r: int)
    requires p <= q < |cs|
  {
    if q == p then ch else cs[q - 1]
  }

  /** The cells after the first `q - p` passes of the insert-mode loop from cell `p`, one
      write at a time. */
  function Carried(cs: seq<int>, p: nat, q: nat, ch: int): (r: seq<int>)
    requires p <= q <= |cs|
    ensures |r| == |cs|
    decreases q - p
  {
    if q == p then cs else Carried(cs, p, q - 1, ch)[q - 1 := Carry(cs, p, q - 1, ch)]
  }

  /** The passes so far have not reached the cells from `q` on. */
  lemma {:induction false} CarriedAfter(cs: seq<int>, p: nat, q: nat, ch: int, i: nat)
    requires p <= q <= i < |cs|
    ensures Carried(cs, p, q, ch)[i] == cs[i]
    decreases q - p
  {
    if q > p {
      CarriedAfter(cs, p, q - 1, ch, i);
    }
  }

  /** Passes `p` through `k`, one write at a time, put `ch` at `p` and move the cells
      from `p` up to `k` one place on: the loop computes `Shift`. */
  lemma {:induction false} CarriedIsShift(cs: seq<int>, p: nat, k: nat, ch: int)
    requires p <= k < |cs|
    ensures Carried(cs, p, k + 1, ch) == Shift(cs, p, k, ch)
    decreases k - p
  {
    if k == p {
      ShiftFirst(cs, p, ch);
    } else {
      CarriedIsShift(cs, p, k - 1, ch);
      ShiftStep(cs, p, k, ch);
    }
  }

  /** One more step of the insert-mode loop: writing the carried cell `cs[q - 1]` at `q`
      extends the shift by one cell. */
  lemma ShiftStep(cs: seq<int>, p: nat, q: nat, ch: int)
    requires p < q < |cs|
    ensures Shift(cs, p, q - 1, ch)[q := cs[q - 1]] == Shift(cs, p, q, ch)
  {
    var a, b := Shift(cs, p, q - 1, ch)[q := cs[q - 1]], Shift(cs, p, q, ch);
    assert forall i :: 0 <= i < |cs| ==> a[i] == b[i];
  }

  /** The first step: the key itself goes into cell `p`. */
  lemma ShiftFirst(cs: seq<int>, p: nat, ch: int)
    requires p < |cs|
    ensures cs[p := ch] == Shift(cs, p, p, ch)
  {
    assert forall i :: 0 <= i < |cs| ==> cs[p := ch][i] == Shift(cs, p, p, ch)[i];
  }

  /** `ShiftEnd` is the first cell from `p` on that is not printable, or the cell before
      `last` when there is none. */
  lemma {:induction false} ShiftEndAt(cs: seq<int>, p: nat, q: nat, last: nat)
    requires p <= q < last <= |cs|
    requires forall i :: p <= i < q ==> IsPrint(cs[i])
    requires !IsPrint(cs[q]) || q == last - 1
    ensures ShiftEnd(cs, p, last) == q
    decreases q - p
  {
    if p < q {
      ShiftEndAt(cs, p + 1, q, last);
    }
  }

  lemma ShiftInCells(cs: seq<int>, p: nat, k: nat, ch: int)
    requires p <= k < |cs|
    ensures var r := cs[..p] + [ch] + cs[p..k] + cs[k + 1..];
      && (forall i :: 0 <= i < p || k < i < |r| ==> r[i] == cs[i])
      && (forall i :: p < i <= k ==> r[i] == cs[i - 1])
  {
  }

  lemma ShiftInMultiset(cs: seq<int>, p: nat, k: nat, ch: int)
    requires p <= k < |cs|
    ensures multiset(cs[..p] + [ch] + cs[p..k] + cs[k + 1..]) ==
      multiset(cs) - multiset{cs[k]} + multiset{ch}
  {
    assert cs == cs[..p] + cs[p..k] + [cs[k]] + cs[k + 1..];
  }

  // ---------------------------------------------------------------------------------
  // Properties of dispatch and of the edit loop.

  /** No printable key is bound by default, so with the default table every printable
      key is inserted, except at the bottom right cell where nothing happens. */
  lemma DefaultPrintableKeys(c: Config, s: Screen, ch: int)
    requires Valid(c, s) && IsPrint(ch)
    ensures DoCommand(c, DefaultCommands(), s, ch) ==
      if s.cursor.y < c.maxy || s.cursor.x < c.maxx then (InsertPrintable(c, s, ch), true)
      else (s, true)
  {
  }

  /** `edit` over two key streams one after the other is `edit` over the first, then,
      unless a command stopped it, `edit` over the second from where the first left off. */
  lemma {:induction false} RunConcat(c: Config, t: map<int, Command>, ss: Session, a: seq<int>, b: seq<int>)
    requires Valid(c, ss.screen)
    ensures Run(c, t, ss, a + b) ==
      if Run(c, t, ss, a).1 then Run(c, t, ss, a) else Run(c, t, Run(c, t, ss, a).0, b)
    decreases |a|
  {
    if a == [] {
      assert a + b == b;
    } else {
      assert (a + b)[0] == a[0];
      assert (a + b)[1..] == a[1..] + b;
      if a[0] == 0 {
        RunConcat(c, t, ss, a[1..], b);
      } else {
        var step := DoCommand(c, t, ss.screen, a[0]);
        if step.1 {
          RunConcat(c, t, Session(step.0, Some(a[0])), a[1..], b);
        }
      }
    }
  }

  /** With a key bound to `end` first in the stream, `edit` stops at once and nothing
      after it is read. */
  lemma EndStopsAtOnce(c: Config, t: map<int, Command>, ss: Session, ch: int, rest: seq<int>)
    requires Valid(c, ss.screen) && ch != 0 && ch in t && t[ch] == End
    ensures Run(c, t, ss, [ch] + rest) == (Session(ss.screen, Some(ch)), true)
  {
    assert ([ch] + rest)[0] == ch;
  }

  /** A key other than 0 whose command continues hands the rest of the stream to `edit`
      from the new screen. */
  lemma RunStep(c: Config, t: map<int, Command>, ss: Session, keys: seq<int>)
    requires Valid(c, ss.screen) && keys != [] && keys[0] != 0
    requires DoCommand(c, t, ss.screen, keys[0]).1
    ensures Run(c, t, ss, keys) ==
      Run(c, t, Session(DoCommand(c, t, ss.screen, keys[0]).0, Some(keys[0])), keys[1..])
  {
  }

  /** In a one-row window the default newline key stops `edit` at once. */
  lemma OneRowNewlineStops(c: Config, ss: Session, rest: seq<int>)
    requires Valid(c, ss.screen) && c.maxy == 0
    ensures Run(c, DefaultCommands(), ss, [NL] + rest) == (Session(ss.screen, Some(NL)), true)
  {
    assert ([NL] + rest)[0] == NL;
  }

  // ---------------------------------------------------------------------------------
  // Properties of gather.

  /** Without `stripspaces`, a row is gathered whole. */
  lemma GatherRowWhole(c: Config, row: seq<int>)
    requires |row| == c.maxx + 1 && !c.stripspaces
    ensures GatherRow(c, row) == Chars(row) + (if c.maxy > 0 then "\n" else "")
    ensures |GatherRow(c, row)| == c.maxx + 1 + (if c.maxy > 0 then 1 else 0)
  {
  }

  /** Without `stripspaces`, every row adds the same number of characters, `L`. */
  lemma {:induction false} BaseGatherLength(c: Config, cells: seq<int>, n: nat, L: nat)
    requires |cells| == Size(c) && n <= c.maxy + 1 && !c.stripspaces
    requires L == c.maxx + 1 + (if c.maxy > 0 then 1 else 0)
    ensures |BaseGather(c, cells, n)| == RowStart(n, L)
    decreases n
  {
    if n > 0 {
      var prev, line := BaseGather(c, cells, n - 1), GatherRow(c, RowOf(c, cells, n - 1));
      BaseGatherLength(c, cells, n - 1, L);
      GatherRowWhole(c, RowOf(c, cells, n - 1));
      NextRowStart(L, n - 1);
      assert BaseGather(c, cells, n) == prev + line;
    }
  }

  /** What the first `m` rows give is the start of what the first `n >= m` give. */
  lemma {:induction false} BaseGatherPrefix(c: Config, cells: seq<int>, m: nat, n: nat)
    requires |cells| == Size(c) && m <= n <= c.maxy + 1
    ensures |BaseGather(c, cells, m)| <= |BaseGather(c, cells, n)|
    ensures BaseGather(c, cells, n)[..|BaseGather(c, cells, m)|] == BaseGather(c, cells, m)
    decreases n
  {
    if m < n {
      BaseGatherPrefix(c, cells, m, n - 1);
      var p, q := BaseGather(c, cells, m), BaseGather(c, cells, n - 1);
      SliceLeft(q, GatherRow(c, RowOf(c, cells, n - 1)), 0, |p|);
    }
  }

  /** Without `stripspaces`, row `z` of the window is line `z` of the text, `L`
      characters long: every cell, in order, then a newline unless the window has one
      row. */
  lemma BaseGatherRows(c: Config, cells: seq<int>, z: nat, L: nat)
    requires |cells| == Size(c) && !c.stripspaces && z <= c.maxy
    requires L == c.maxx + 1 + (if c.maxy > 0 then 1 else 0)
    ensures RowStart(z, L) + L <= |BaseGather(c, cells, c.maxy + 1)|
    ensures BaseGather(c, cells, c.maxy + 1)[RowStart(z, L) .. RowStart(z, L) + L] ==
      Chars(RowOf(c, cells, z)) + (if c.maxy > 0 then "\n" else "")
  {
    var p, line := BaseGather(c, cells, z), GatherRow(c, RowOf(c, cells, z));
    BaseGatherLength(c, cells, z, L);
    GatherRowWhole(c, RowOf(c, cells, z));
    assert |line| == L;
    BaseGatherPrefix(c, cells, z + 1, c.maxy + 1);
    BaseGatherNext(c, cells, z);
    SliceAfter(BaseGather(c, cells, c.maxy + 1), p, line);
  }

  /** With `stripspaces` in a window more than one column wide, a row adds nothing to the
      text exactly when it is blank. */
  lemma GatherSkipsBlankRows(c: Config, row: seq<int>)
    requires |row| == c.maxx + 1 && c.stripspaces && c.maxx > 0
    ensures GatherRow(c, row) == "" <==> forall i :: 0 <= i < |row| ==> IsBlank(row[i])
  {
  }

  /** With `stripspaces` in a window one column wide, `_end_of_line` is 0 on every row, so
      the standard-library `gather` returns nothing whatever the cells hold. */
  lemma {:induction false} OneColumnGathersNothing(c: Config, cells: seq<int>, n: nat)
    requires |cells| == Size(c) && n <= c.maxy + 1 && c.stripspaces && c.maxx == 0
    ensures BaseGather(c, cells, n) == ""
    decreases n
  {
    if n > 0 {
      OneColumnGathersNothing(c, cells, n - 1);
    }
  }

  /** `strip` removes only whitespace, and only at the two ends: what it keeps is the
      slice of `s` that starts where the leading whitespace ends. */
  lemma StripSlice(s: string)
    ensures |s| - |TrimLeft(s)| + |Strip(s)| <= |s|
    ensures Strip(s) == s[|s| - |TrimLeft(s)| .. |s| - |TrimLeft(s)| + |Strip(s)|]
    ensures forall j :: 0 <= j < |s| - |TrimLeft(s)| ==> IsSpace(s[j])
    ensures forall j :: |s| - |TrimLeft(s)| + |Strip(s)| <= j < |s| ==> IsSpace(s[j])
  {
    var l := TrimLeft(s);
    var i := |s| - |l|;
    var r := TrimRight(l);
    assert l == s[i..];
    assert r == l[..|r|];
    assert r == s[i .. i + |r|];
    forall j | i + |r| <= j < |s|
      ensures IsSpace(s[j])
    {
      assert s[j] == l[j - i];
    }
  }

  /** Stripping twice is stripping once. */
  lemma StripIdempotent(s: string)
    ensures Strip(Strip(s)) == Strip(s)
  {
    var r := Strip(s);
    assert TrimLeft(r) == r;
    assert TrimRight(r) == r;
  }

  /** Typing "hi" into a blank one-row, four-column box in insert mode and then ^G ends
      editing with "hi" at the start of the row and the cursor after it. */
  lemma TypeHiThenEnd(c: Config, t: map<int, Command>, s0: Screen)
    requires c == Config(0, 3, true, true) && t == DefaultCommands()
    requires s0 == Screen([32, 32, 32, 32], Pos(0, 0))
    ensures Run(c, t, Session(s0, None), [104, 105, BEL]) ==
      (Session(Screen([104, 105, 32, 32], Pos(0, 2)), Some(BEL)), true)
  {
    var s1 := Screen([104, 32, 32, 32], Pos(0, 1));
    var s2 := Screen([104, 105, 32, 32], Pos(0, 2));
    TypeH();
    TypeI();
    assert BEL in t && t[BEL] == End;
    EndStopsAtOnce(c, t, Session(s2, Some(105)), BEL, []);
    assert [104, 105, BEL][1..] == [105, BEL] && [105, BEL][1..] == [BEL] == [BEL] + [];
    RunStep(c, t, Session(s1, Some(104)), [105, BEL]);
    RunStep(c, t, Session(s0, None), [104, 105, BEL]);
  }

  /** The "h" of `TypeHiThenEnd`. */
  lemma TypeH()
    ensures DoCommand(Config(0, 3, true, true), DefaultCommands(), Screen([32, 32, 32, 32], Pos(0, 0)), 104) ==
      (Screen([104, 32, 32, 32], Pos(0, 1)), true)
  {
    var cells := [32, 32, 32, 32];
    assert ShiftEnd(cells, 0, 3) == 2;
    assert cells[..0] + [104] + cells[0..2] + cells[3..] == [104, 32, 32, 32];
  }

  /** The "i" of `TypeHiThenEnd`. */
  lemma TypeI()
    ensures DoCommand(Config(0, 3, true, true), DefaultCommands(), Screen([104, 32, 32, 32], Pos(0, 1)), 105) ==
      (Screen([104, 105, 32, 32], Pos(0, 2)), true)
  {
    var cells := [104, 32, 32, 32];
    assert ShiftEnd(cells, 1, 3) == 2;
    assert cells[..1] + [105] + cells[1..2] + cells[3..] == [104, 105, 32, 32];
  }

  /** Read back from that box, the text is "hi": the trailing blanks are not gathered. */
  lemma GatherHi()
    ensures Gather(Config(0, 3, true, true), [104, 105, 32, 32]) == "hi"
  {
    var c := Config(0, 3, true, true);
    var cells := [104, 105, 32, 32];
    var row := RowOf(c, cells, 0);
    assert row == cells;
    ContentLengthUnique(row, 2);
    assert LineEnd(row) == 2;
    assert row[..3] == [104, 105, 32];
    var text := Chars([104, 105, 32]);
    assert text == "hi ";
    GatherRowBy(c, row, 2);
    assert BaseGather(c, cells, 1) == "" + GatherRow(c, row);
    assert TrimLeft(text) == text;
    assert TrimRight("hi") == "hi";
    assert TrimRight(text) == "hi";
  }

  /** The whole session: `edit()` on a blank one-row box, given "h", "i" and ^G,
      returns "hi". */
  lemma TypeHiEditReturnsHi(c: Config, s0: Screen)
    requires c == Config(0, 3, true, true) && s0 == Screen([32, 32, 32, 32], Pos(0, 0))
    ensures Gather(c, Run(c, DefaultCommands(), Session(s0, None), [104, 105, BEL]).0.screen.cells) == "hi"
  {
    TypeHiThenEnd(c, DefaultCommands(), s0);
    GatherHi();
  }
}
