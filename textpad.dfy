/** `Textbox` (textpad.py): a curses text box whose keys are bound to commands through a
    table, carried out step by step on a `Curses.Window`.  Every method is proved to do
    to the window what the matching function of `Editing` says. */
module Textpad {
  import opened Curses
  import opened Editing

  class Textbox {
    const win: Window
    /** The last row and column, from the window's size (`_update_max_yx`). */
    const maxy: nat
    const maxx: nat
    const insertMode: bool
    /** Public in the source: callers may switch it. */
    var stripspaces: bool
    var lastcmd: Option<int>
    /** `_commands`: key code to the command bound to it. */
    var commands: map<int, Command>

    /** The box's size is its window's, and the window's cells fill the grid. */
    ghost predicate Valid()
      reads this, win
    {
      win.Valid() && maxy + 1 == win.nlines && maxx + 1 == win.ncols &&
      Editing.Valid(Settings(), State())
    }

    /** The settings the commands depend on. */
    ghost function Settings(): Config
      reads this
    {
      Config(maxy, maxx, insertMode, stripspaces)
    }

    /** The window's cells and cursor. */
    ghost function State(): Screen
      reads win
    {
      Screen(win.cells, win.Cursor())
    }

    /** `Textbox.__init__`: the box edits `win`; `stripspaces` starts on, no key has been
        read yet, and the default keys are bound. */
    constructor (win: Window, insertMode: bool)
      requires win.Valid()
      ensures Valid() && this.win == win && this.insertMode == insertMode
      ensures stripspaces && lastcmd == None && commands == DefaultCommands()
    {
      this.win := win;
      maxy, maxx := win.nlines - 1, win.ncols - 1;
      this.insertMode := insertMode;
      stripspaces := true;
      lastcmd := None;
      commands := map[];
      new;
      RegisterKey(KeyBackspace, Command.DelLeft);
      RegisterKey(KeyDown, Command.MoveDown);
      RegisterKey(KeyLeft, Command.MoveLeft);
      RegisterKey(KeyRight, Command.MoveRight);
      RegisterKey(KeyUp, Command.MoveUp);
      RegisterKey(ACK, Command.MoveRight);
      RegisterKey(BEL, Command.End);
      RegisterKey(BS, Command.DelLeft);
      RegisterKey(DLE, Command.MoveUp);
      RegisterKey(ENQ, Command.EndOfLine);
      RegisterKey(EOT, Command.Delch);
      RegisterKey(FF, Command.Refresh);
      RegisterKey(NL, Command.Newline);
      RegisterKey(SOH, Command.BeginningOfLine);
      RegisterKey(STX, Command.MoveLeft);
      RegisterKey(VT, Command.ClearToEndOfLine);
      RegisterKey(SO, Command.MoveDown);
      RegisterKey(SI, Command.Insertln);
    }

    /** `register_key`: binds `key` to `cmd`, replacing any earlier binding. */
    method RegisterKey(key: int, cmd: Command)
      modifies this
      ensures commands == old(commands)[key := cmd]
      ensures stripspaces == old(stripspaces) && lastcmd == old(lastcmd)
    {
      commands := commands[key := cmd];
    }

    /** `_end_of_line(y)`: scans row `y` from the last column back to the last non-blank
        cell. */
    method LineEndOf(y: nat, ghost c: Config, ghost cs: seq<int>) returns (e: nat)
      requires Valid() && y <= maxy && c == Settings() && cs == win.cells
      ensures e == LineEndAt(c, cs, y)
    {
      ghost var row := RowOf(c, cs, y);
      var last: nat := maxx;
      while true
        invariant last < |row|
        invariant forall i :: last < i < |row| ==> IsBlank(row[i])
        decreases last
      {
        var cell := win.CellAt(y, last);
        RowCell(cs, maxx + 1, y, RowStart(y, maxx + 1), last);
        LineEndScan(row, last);
        if !IsBlank(cell) {
          e := if last + 1 < maxx then last + 1 else maxx;
          return;
        } else if last == 0 {
          e := 0;
          return;
        }
        last := last - 1;
      }
    }

    // The callbacks.  `do_command` calls each with the cursor it read, so each one
    // requires that (y, x) is where the cursor is.

    /** `beginning_of_line`. */
    method BeginningOfLine(y: nat, x: nat) returns (go: bool)
      requires Valid() && y == win.cy && x == win.cx
      modifies win
      ensures Valid() && State() == OnBeginningOfLine(Settings(), old(State())) && go
    {
      win.Move(y, 0);
      go := true;
    }

    /** `move_left`. */
    method MoveLeft(y: nat, x: nat) returns (go: bool)
      requires Valid() && y == win.cy && x == win.cx
      modifies win
      ensures Valid() && State() == OnMoveLeft(Settings(), old(State())) && go
    {
      if x > 0 {
        win.Move(y, x - 1);
      } else if y == 0 {
      } else if stripspaces {
        var e := LineEndOf(y - 1, Settings(), win.cells);
        win.Move(y - 1, e);
      } else {
        win.Move(y - 1, maxx);
      }
      go := true;
    }

    /** `del_left`. */
    method DelLeft(y: nat, x: nat) returns (go: bool)
      requires Valid() && y == win.cy && x == win.cx
      modifies win
      ensures Valid() && State() == OnDelLeft(Settings(), old(State())) && go
    {
      ghost var c, s := Settings(), State();
      var _ := MoveLeft(y, x);
      ghost var m := State();
      assert m == OnMoveLeft(c, s);
      win.Delch();
      assert State() == OnDelch(c, m);
      go := true;
    }

    /** `end_of_line`. */
    method EndOfLine(y: nat, x: nat) returns (go: bool)
      requires Valid() && y == win.cy && x == win.cx
      modifies win
      ensures Valid() && State() == OnEndOfLine(Settings(), old(State())) && go
    {
      if stripspaces {
        var e := LineEndOf(y, Settings(), win.cells);
        win.Move(y, e);
      } else {
        win.Move(y, maxx);
      }
      go := true;
    }

    /** `move_right`. */
    method MoveRight(y: nat, x: nat) returns (go: bool)
      requires Valid() && y == win.cy && x == win.cx
      modifies win
      ensures Valid() && State() == OnMoveRight(Settings(), old(State())) && go
    {
      if x < maxx {
        win.Move(y, x + 1);
      } else if y == maxy {
      } else {
        win.Move(y + 1, 0);
      }
      go := true;
    }

    /** `newline`: stops editing in a one-row box. */
    method Newline(y: nat, x: nat) returns (go: bool)
      requires Valid() && y == win.cy && x == win.cx
      modifies win
      ensures Valid() && State() == OnNewline(Settings(), old(State()))
      ensures go <==> maxy != 0
    {
      if maxy == 0 {
        return false;
      } else if y < maxy {
        win.Move(y + 1, 0);
      }
      go := true;
    }

    /** `clear_to_end_of_line`. */
    method ClearToEndOfLine(y: nat, x: nat) returns (go: bool)
      requires Valid() && y == win.cy && x == win.cx
      modifies win
      ensures Valid() && State() == OnClearToEndOfLine(Settings(), old(State())) && go
    {
      ghost var c, s := Settings(), State();
      var blankRow := false;
      if x == 0 {
        var e := LineEndOf(y, c, s.cells);
        blankRow := e == 0;
      }
      ClearToEndOfLineBy(c, s, blankRow);
      ClearRow(y, x, blankRow);
      go := true;
    }

    /** The two ways `clear_to_end_of_line` ends: `deleteln` when the row is to go, else
        `move(y, x)` (undoing any move of `_end_of_line`) and `clrtoeol`. */
    method ClearRow(y: nat, x: nat, deleteRow: bool)
      requires Valid() && y == win.cy && x == win.cx
      modifies win
      ensures Valid() && RowStart(y, maxx + 1) + maxx + 1 <= |old(win.cells)|
      ensures State() ==
        if deleteRow then old(State()).(cells := DeletelnCells(old(win.cells), maxx + 1, y))
        else old(State()).(cells := ClrtoeolCells(old(win.cells), maxx + 1, y, x))
    {
      if deleteRow {
        win.Deleteln();
      } else {
        win.Move(y, x);
        win.Clrtoeol();
      }
    }

    /** `move_down`, with `_end_of_line` leaving the cursor alone. */
    method MoveDown(y: nat, x: nat) returns (go: bool)
      requires Valid() && y == win.cy && x == win.cx
      modifies win
      ensures Valid() && State() == OnMoveDown(Settings(), old(State())) && go
    {
      if y < maxy {
        ghost var c, s := Settings(), State();
        win.Move(y + 1, x);
        var e := LineEndOf(y + 1, Settings(), win.cells);
        MoveDownBy(c, s, e);
        if x > e {
          win.Move(y + 1, e);
        }
      }
      go := true;
    }

    /** `move_up`, with `_end_of_line` leaving the cursor alone. */
    method MoveUp(y: nat, x: nat) returns (go: bool)
      requires Valid() && y == win.cy && x == win.cx
      modifies win
      ensures Valid() && State() == OnMoveUp(Settings(), old(State())) && go
    {
      if y > 0 {
        ghost var c, s := Settings(), State();
        win.Move(y - 1, x);
        var e := LineEndOf(y - 1, Settings(), win.cells);
        MoveUpBy(c, s, e);
        if x > e {
          win.Move(y - 1, e);
        }
      }
      go := true;
    }

    /** `end`: stops editing. */
    method End(y: nat, x: nat) returns (go: bool)
      requires Valid() && y == win.cy && x == win.cx
      ensures !go
    {
      go := false;
    }

    /** `ignore`: does nothing and goes on. */
    method Ignore(y: nat, x: nat) returns (go: bool)
      requires Valid() && y == win.cy && x == win.cx
      ensures go
    {
      go := true;
    }

    /** `delch`. */
    method Delch(y: nat, x: nat) returns (go: bool)
      requires Valid() && y == win.cy && x == win.cx
      modifies win
      ensures Valid() && State() == OnDelch(Settings(), old(State())) && go
    {
      ghost var c, s := Settings(), State();
      win.Delch();
      assert win.cy == y && win.cx == x;
      assert win.cells == DelchCells(s.cells, win.ncols, y, x);
      assert State() == OnDelch(c, s);
      go := true;
    }

    /** `insertln`. */
    method Insertln(y: nat, x: nat) returns (go: bool)
      requires Valid() && y == win.cy && x == win.cx
      modifies win
      ensures Valid() && State() == OnInsertln(Settings(), old(State())) && go
    {
      ghost var c, s := Settings(), State();
      win.Insertln();
      assert win.cells == InsertlnCells(s.cells, maxx + 1, y) && win.Cursor() == s.cursor;
      assert State() == OnInsertln(c, s);
      go := true;
    }

    /** `refresh`: repaints the screen, which is not part of this model, and goes on. */
    method Refresh(y: nat, x: nat) returns (go: bool)
      requires Valid() && y == win.cy && x == win.cx
      ensures go
    {
      go := true;
    }

    /** The call `self._commands[ch](y, x)`: runs the callback `cmd` is bound to. */
    method Call(cmd: Command, y: nat, x: nat) returns (go: bool)
      requires Valid() && y == win.cy && x == win.cx
      modifies win
      ensures Valid() && State() == Effect(cmd, Settings(), old(State()))
      ensures go == Continues(cmd, Settings())
    {
      match cmd
      case BeginningOfLine => go := BeginningOfLine(y, x);
      case MoveLeft => go := MoveLeft(y, x);
      case DelLeft => go := DelLeft(y, x);
      case EndOfLine => go := EndOfLine(y, x);
      case MoveRight => go := MoveRight(y, x);
      case End => go := End(y, x);
      case Ignore => go := Ignore(y, x);
      case Newline => go := Newline(y, x);
      case ClearToEndOfLine => go := ClearToEndOfLine(y, x);
      case MoveDown => go := MoveDown(y, x);
      case MoveUp => go := MoveUp(y, x);
      case Delch => go := Delch(y, x);
      case Insertln => go := Insertln(y, x);
      case Refresh => go := Refresh(y, x);
    }

    /** `_insert_printable_char(ch)` (standard library): writes `ch` at the cursor.  In
        insert mode each cell it overwrites is carried one cell on, until a cell that is
        not printable has been overwritten or the cell before the bottom right corner has
        been written; the cursor then goes back to just after the first cell written.
        The loop is the library's, which is not part of this repository: it is stated
        here, not checked against its code. */
    method InsertPrintableChar(ch: int)
      requires Valid() && (win.cy < maxy || win.cx < maxx)
      modifies win
      ensures Valid() && State() == InsertPrintable(Settings(), old(State()), ch)
    {
      ghost var c, s := Settings(), State();
      var backyx;
      ghost var k;
      backyx, k := WriteAndCarry(ch, c, s);
      CarriedIsShift(s.cells, Index(maxx + 1, s.cursor), k, ch);
      PrintableAll(s.cells, Index(maxx + 1, s.cursor), k);
      InsertPrintableBy(c, s, ch, k);
      assert win.cells == InsertPrintable(c, s, ch).cells;
      if backyx.Some? {
        win.Move(backyx.value.y, backyx.value.x);
      }
    }

    /** The loop of `_insert_printable_char`: it writes `ch` at the cursor and, in insert
        mode, carries each overwritten cell on to the next, ending with cell `k`.  `backyx`
        is where the cursor went after the first write when the loop went on from there;
        otherwise the cursor is still there. */
    method WriteAndCarry(ch: int, ghost c: Config, ghost s: Screen)
      returns (backyx: Option<Pos>, ghost k: nat)
      requires Valid() && (win.cy < maxy || win.cx < maxx) && c == Settings() && s == State()
      modifies win
      ensures Valid() && Index(maxx + 1, s.cursor) <= k < Size(c) - 1
      ensures win.cells == Carried(s.cells, Index(maxx + 1, s.cursor), k + 1, ch)
      ensures !insertMode ==> k == Index(maxx + 1, s.cursor)
      ensures insertMode ==> Printable(s.cells, Index(maxx + 1, s.cursor), k)
      ensures insertMode ==> !IsPrint(s.cells[k]) || k == Size(c) - 2
      ensures backyx.Some? ==> backyx.value == Advance(s.cursor, maxx) && backyx.value.y <= maxy
      ensures backyx.None? ==> win.Cursor() == Advance(s.cursor, maxx)
    {
      BeforeCorner(c, s.cursor);
      ghost var p, last := Index(maxx + 1, s.cursor), Size(c) - 1;
      ghost var after := Advance(s.cursor, maxx);
      ghost var q, stopped := p, false;
      k := p;
      var yx := win.Cursor();
      var y, x := yx.y, yx.x;
      backyx := None;
      var cur, oldch := ch, 0;
      while y < maxy || x < maxx
        invariant Valid() && Settings() == c && y == win.cy && x == win.cx
        invariant q == Index(maxx + 1, win.Cursor()) && p <= q <= last
        invariant win.cells == Carried(s.cells, p, q, ch) && cur == Carry(s.cells, p, q, ch)
        invariant q == p ==> win.Cursor() == s.cursor && backyx == None
        invariant q > p ==> insertMode && backyx == Some(after)
        invariant Printable(s.cells, p, q)
        decreases last - q
      {
        BeforeCorner(c, win.Cursor());
        oldch := Put(cur, s.cells, p, q, ch);
        if !insertMode || !IsPrint(oldch) {
          k, stopped := q, true;
          assert backyx == None ==> win.Cursor() == after;
          break;
        }
        cur := oldch;
        y, x := win.cy, win.cx;
        if backyx == None {
          backyx := Some(Pos(y, x));
        }
        q := q + 1;
      }
      if !stopped {
        BeforeCorner(c, win.Cursor());
        k := last - 1;
        assert q == last && q > p;
      }
    }

    /** One pass of the loop in `WriteAndCarry` up to its `addch`: in insert mode the cell
        under the cursor, cell `q`, is read; then `cur` is written there. */
    method Put(cur: int, ghost cs: seq<int>, ghost p: nat, ghost q: nat, ghost ch: int)
      returns (oldch: int)
      requires Valid() && (win.cy < maxy || win.cx < maxx)
      requires q == Index(maxx + 1, win.Cursor()) && p <= q < |cs|
      requires win.cells == Carried(cs, p, q, ch) && cur == Carry(cs, p, q, ch)
      modifies win
      ensures Valid() && win.cells == Carried(cs, p, q + 1, ch)
      ensures win.Cursor() == Advance(old(win.Cursor()), maxx)
      ensures insertMode ==> oldch == cs[q]
    {
      oldch := 0;
      if insertMode {
        oldch := win.Inch();
        CarriedAfter(cs, p, q, ch, q);
      }
      win.AddCh(cur);
    }

    /** `do_command(ch)`: records `ch` as the last key, then runs the callback bound to it;
        an unbound printable key is inserted unless the cursor is in the bottom right
        cell, and any other unbound key is ignored. */
    method DoCommand(ch: int) returns (go: bool)
      requires Valid()
      modifies this, win
      ensures Valid() && lastcmd == Some(ch)
      ensures commands == old(commands) && stripspaces == old(stripspaces)
      ensures State() == Editing.DoCommand(Settings(), commands, old(State()), ch).0
      ensures go == Editing.DoCommand(Settings(), commands, old(State()), ch).1
    {
      var yx := win.Cursor();
      var y, x := yx.y, yx.x;
      lastcmd := Some(ch);
      if ch in commands {
        go := Call(commands[ch], y, x);
        return;
      }
      if IsPrint(ch) {
        if y < maxy || x < maxx {
          InsertPrintableChar(ch);
        }
      }
      go := true;
    }

    /** `gather()`: the standard-library result, with whitespace stripped at both ends
        when `stripspaces` is on. */
    method Gather() returns (text: string)
      requires Valid()
      ensures text == Editing.Gather(Settings(), win.cells)
    {
      var result := BaseGatherText();
      text := if stripspaces then Strip(result) else result;
    }

    /** The standard-library `gather()`: row by row, what `GatherLine` collects.  The
        loop is the library's, stated here, not checked against its code. */
    method BaseGatherText() returns (result: string)
      requires Valid()
      ensures result == BaseGather(Settings(), win.cells, maxy + 1)
    {
      ghost var c, cs := Settings(), win.cells;
      result := "";
      var y := 0;
      while y < maxy + 1
        invariant y <= maxy + 1 && result == BaseGather(c, cs, y)
      {
        var line := GatherLine(y, c, cs);
        BaseGatherNext(c, cs, y);
        result := result + line;
        y := y + 1;
      }
    }

    /** One pass of the row loop of `gather`: nothing for a row whose `_end_of_line` is 0
        when trailing blanks are stripped; otherwise the row's characters, up to the end
        of the line or all of them, and a newline unless the window has one row. */
    method GatherLine(y: nat, ghost c: Config, ghost cs: seq<int>) returns (line: string)
      requires Valid() && y <= maxy && c == Settings() && cs == win.cells
      ensures line == GatherRow(c, RowOf(c, cs, y))
    {
      ghost var row := RowOf(c, cs, y);
      var stop := LineEndOf(y, c, cs);
      assert stop == LineEnd(row);
      line := "";
      if stop == 0 && stripspaces {
        assert GatherRow(c, row) == "";
      } else {
        GatherRowBy(c, row, stop);
        var text := RowText(y, stop, c, row);
        line := if maxy > 0 then text + "\n" else text;
      }
    }

    /** The inner loop of `gather`: the characters of row `y`, stopping after column
        `stop` when trailing blanks are stripped. */
    method RowText(y: nat, stop: nat, ghost c: Config, ghost row: seq<int>) returns (line: string)
      requires Valid() && y <= maxy && stop <= maxx
      requires c == Settings() && row == RowOf(c, win.cells, y)
      ensures line == Chars(row[..if c.stripspaces then stop + 1 else c.maxx + 1])
    {
      line := "";
      var x := 0;
      while x < maxx + 1
        invariant x <= maxx + 1 && (stripspaces ==> x <= stop + 1)
        invariant line == Chars(row[..x])
      {
        if stripspaces && x > stop {
          break;
        }
        var cell := win.CellAt(y, x);
        RowCell(win.cells, maxx + 1, y, RowStart(y, maxx + 1), x);
        CharsSnoc(row, x);
        line := line + [Ascii(cell) as char];
        x := x + 1;
      }
    }

    /** `edit()` over the keys `keys`, in order: a key 0 is skipped, every other key goes
        through `do_command`, and editing stops when a command returns false or the keys
        run out; the result is `gather()`. */
    method Edit(keys: seq<int>) returns (text: string)
      requires Valid()
      modifies this, win
      ensures Valid() && commands == old(commands) && stripspaces == old(stripspaces)
      ensures var r := Run(Settings(), commands, Session(old(State()), old(lastcmd)), keys).0;
        State() == r.screen && lastcmd == r.lastcmd
      ensures text == Editing.Gather(Settings(), win.cells)
    {
      ghost var c, t := Settings(), commands;
      ghost var whole := Run(c, t, Session(State(), lastcmd), keys);
      var i := 0;
      while i < |keys|
        invariant i <= |keys| && Valid() && Settings() == c && commands == t
        invariant Run(c, t, Session(State(), lastcmd), keys[i..]) == whole
      {
        var ch := keys[i];
        assert keys[i..][1..] == keys[i + 1..];
        i := i + 1;
        if ch == 0 {
          continue;
        }
        var go := DoCommand(ch);
        if !go {
          break;
        }
      }
      text := Gather();
    }
  }
}
