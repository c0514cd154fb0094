/** The curses window a text box edits: a fixed grid of character cells stored row by
    row, and a cursor.

    Nothing in this module is part of the modelled files.  It states, as explicit
    contracts, the behaviour the text box relies on from the curses library
    (`move`, `inch`, `addch`, `delch`, `deleteln`, `insertln`, `clrtoeol`) and from the
    standard-library helper `Textbox._end_of_line` it inherits.  These contracts are
    assumptions about code that cannot be seen here, not facts checked against it. */
module Curses {

  /** The blank cell, ASCII space. */
  const Blank: int := 32

  /** `curses.ascii.ascii`: the low seven bits of a cell or key value (what `c & 0x7f`
      gives in Python, also for negative values). */
  function Ascii(c: int): (r: int)
    ensures 0 <= r < 128
    ensures 0 <= c < 128 ==> r == c
  {
    c % 128
  }

  /** A cell counts as blank when its ASCII part is a space, as `_end_of_line` tests it. */
  predicate IsBlank(c: int)
  {
    Ascii(c) == Blank
  }

  /** `curses.ascii.isprint` on an integer: the codes 32 through 126.  A printable key
      is its own ASCII character, and no control character or code past 126 is
      printable. */
  predicate IsPrint(c: int)
    ensures IsPrint(c) ==> Ascii(c) == c
    ensures c < 32 || 126 < c ==> !IsPrint(c)
  {
    32 <= c <= 126
  }

  function Blanks(n: nat): (r: seq<int>)
    ensures |r| == n
    ensures forall i :: 0 <= i < n ==> r[i] == Blank
  {
    seq(n, _ => Blank)
  }

  /** A cursor position: row `y`, column `x`. */
  datatype Pos = Pos(y: nat, x: nat)

  /** Where row `y` starts in a row-major grid `w` cells wide, that is `y * w`; counted
      one row at a time, so that cell offsets stay linear. */
  function RowStart(y: nat, w: nat): (r: nat)
  {
    if y == 0 then 0 else RowStart(y - 1, w) + w
  }

  /** `RowStart` is the product it stands for. */
  lemma {:induction false} RowStartIsProduct(y: nat, w: nat)
    ensures RowStart(y, w) == y * w
  {
    if y > 0 {
      RowStartIsProduct(y - 1, w);
    }
  }

  /** Row-major index of position `p` in a grid `w` cells wide. */
  function Index(w: nat, p: Pos): (i: nat)
  {
    RowStart(p.y, w) + p.x
  }

  /** Where `addch` leaves the cursor after writing at `p`: one column right, or the
      start of the next row after the last column `maxx`. */
  function Advance(p: Pos, maxx: nat): (q: Pos)
    requires p.x <= maxx
    ensures Index(maxx + 1, q) == Index(maxx + 1, p) + 1
    ensures q.x <= maxx
  {
    if p.x < maxx then Pos(p.y, p.x + 1) else Pos(p.y + 1, 0)
  }

  /** Row `y` of a grid of `h` rows ends inside the grid. */
  lemma {:induction false} RowFits(h: nat, w: nat, y: nat)
    requires y < h
    ensures RowStart(y, w) + w <= RowStart(h, w)
  {
    if y < h - 1 {
      RowFits(h - 1, w, y);
    }
  }

  /** Row `y + 1` starts exactly one width after row `y`. */
  lemma NextRowStart(w: nat, y: nat)
    ensures RowStart(y + 1, w) == RowStart(y, w) + w
  {
  }

  /** Later rows start later. */
  lemma {:induction false} RowOrder(w: nat, a: nat, b: nat)
    requires a <= b
    ensures RowStart(a, w) <= RowStart(b, w)
  {
    if a < b {
      RowOrder(w, a, b - 1);
    }
  }

  /** Row `y` of the row-major cells `s`, `w` cells wide. */
  function Row(s: seq<int>, w: nat, y: nat): (r: seq<int>)
    requires RowStart(y, w) + w <= |s|
    ensures |r| == w
  {
    s[RowStart(y, w) .. RowStart(y, w) + w]
  }

  /** The number of cells of `row` up to and including its last non-blank one; 0 for a
      blank row. */
  function ContentLength(row: seq<int>): (n: nat)
    ensures n <= |row|
    ensures forall i :: n <= i < |row| ==> IsBlank(row[i])
    ensures n == 0 || !IsBlank(row[n - 1])
  {
    if row == [] then 0
    else if !IsBlank(row[|row| - 1]) then |row|
    else ContentLength(row[..|row| - 1])
  }

  /** The two facts `ContentLength` ensures pin it down: no other length has both. */
  lemma ContentLengthUnique(row: seq<int>, n: nat)
    requires n <= |row|
    requires forall i :: n <= i < |row| ==> IsBlank(row[i])
    requires n == 0 || !IsBlank(row[n - 1])
    ensures ContentLength(row) == n
  {
  }

  /** `Textbox._end_of_line` (standard library): the column just after the last
      non-blank cell, but never past the last column; 0 for a blank row. */
  function LineEnd(row: seq<int>): (e: nat)
    requires |row| > 0
    ensures e < |row|
    ensures ContentLength(row) < |row| ==> e == ContentLength(row)
    ensures ContentLength(row) == |row| ==> e == |row| - 1
  {
    var n := ContentLength(row);
    if n < |row| - 1 then n else |row| - 1
  }

  /** The backward scan of `_end_of_line`: when every cell after `last` is blank, the
      answer is read off the cell at `last`. */
  lemma LineEndScan(row: seq<int>, last: nat)
    requires last < |row|
    requires forall i :: last < i < |row| ==> IsBlank(row[i])
    ensures !IsBlank(row[last]) ==>
      LineEnd(row) == if last + 1 < |row| - 1 then last + 1 else |row| - 1
    ensures IsBlank(row[last]) && last == 0 ==> LineEnd(row) == 0
  {
    if !IsBlank(row[last]) {
      ContentLengthUnique(row, last + 1);
    } else if last == 0 {
      ContentLengthUnique(row, 0);
    }
  }

  /** What pins `_end_of_line` down: every cell after it is blank, and unless it is the
      last column, the cell at it is blank and the cell before it is not.  It is 0
      exactly for a one-column row or a blank row. */
  lemma LineEndSpec(row: seq<int>)
    requires |row| > 0
    ensures forall i :: LineEnd(row) < i < |row| ==> IsBlank(row[i])
    ensures LineEnd(row) < |row| - 1 ==>
      IsBlank(row[LineEnd(row)]) && (LineEnd(row) == 0 || !IsBlank(row[LineEnd(row) - 1]))
    ensures LineEnd(row) == 0 <==> |row| == 1 || forall i :: 0 <= i < |row| ==> IsBlank(row[i])
  {
  }

  /** Column `e` is where the text of `row` ends: every cell after it is blank; the cell
      at it is blank unless it is the last column; and it is column 0, or the cell
      before it or the cell at it is not blank. */
  predicate TextEnd(row: seq<int>, e: nat)
  {
    e < |row| &&
    (forall i :: e < i < |row| ==> IsBlank(row[i])) &&
    (e == |row| - 1 || IsBlank(row[e])) &&
    (e == 0 || !IsBlank(row[e - 1]) || !IsBlank(row[e]))
  }

  /** `_end_of_line` is where the text ends, and no other column is. */
  lemma LineEndIsTextEnd(row: seq<int>)
    requires |row| > 0
    ensures TextEnd(row, LineEnd(row))
    ensures forall e: nat :: TextEnd(row, e) ==> e == LineEnd(row)
  {
    forall e: nat | TextEnd(row, e)
      ensures e == LineEnd(row)
    {
      if e < |row| - 1 {
        ContentLengthUnique(row, e);
      } else if !IsBlank(row[e]) {
        ContentLengthUnique(row, |row|);
      } else if e > 0 {
        ContentLengthUnique(row, |row| - 1);
      }
    }
  }

  /** The column at which the scan inside `_end_of_line` stops: the last non-blank cell,
      or 0 for a blank row.  The real scan reads cells with `inch(y, x)`, which moves
      the cursor, so this is where it leaves the cursor. */
  function ScanStop(row: seq<int>): (p: nat)
    requires |row| > 0
    ensures p < |row|
    ensures ContentLength(row) > 0 ==> !IsBlank(row[p]) && p == ContentLength(row) - 1
    ensures ContentLength(row) == 0 ==> p == 0
  {
    var n := ContentLength(row);
    if n == 0 then 0 else n - 1
  }

  /** A slice of `a + b` that lies within `a`. */
  lemma SliceLeft<T>(a: seq<T>, b: seq<T>, i: nat, j: nat)
    requires i <= j <= |a|
    ensures (a + b)[i..j] == a[i..j]
  {
    assert forall k :: 0 <= k < j - i ==> (a + b)[i..j][k] == a[i..j][k];
  }

  /** In a `g` that starts with `a + b`, the slice after `a` as long as `b` is `b`. */
  lemma SliceAfter<T>(g: seq<T>, a: seq<T>, b: seq<T>)
    requires |a| + |b| <= |g| && g[..|a| + |b|] == a + b
    ensures g[|a| .. |a| + |b|] == b
  {
    var s := g[|a| .. |a| + |b|];
    forall k | 0 <= k < |b|
      ensures s[k] == b[k]
    {
      assert s[k] == g[..|a| + |b|][|a| + k];
    }
  }

  /** A slice of `a + b` that lies within `b`. */
  lemma SliceRight<T>(a: seq<T>, b: seq<T>, i: nat, j: nat)
    requires |a| <= i <= j <= |a| + |b|
    ensures (a + b)[i..j] == b[i - |a| .. j - |a|]
  {
    assert forall k :: 0 <= k < j - i ==> (a + b)[i..j][k] == b[i - |a| .. j - |a|][k];
  }

  // The window primitives, cell by cell on the row-major cells `s` of a grid `w` cells
  // wide; `a` is where row `y` starts.

  /** `delch` at (y, x): the cells after x in row `y` shift left by one and its last cell
      becomes blank. */
  function DelchCells(s: seq<int>, w: nat, y: nat, x: nat): (r: seq<int>)
    requires x < w && RowStart(y, w) + w <= |s|
    ensures |r| == |s|
  {
    var a := RowStart(y, w);
    s[..a + x] + s[a + x + 1 .. a + w] + [Blank] + s[a + w ..]
  }

  /** `clrtoeol` at (y, x): cells x through the last column of row `y` become blank. */
  function ClrtoeolCells(s: seq<int>, w: nat, y: nat, x: nat): (r: seq<int>)
    requires x < w && RowStart(y, w) + w <= |s|
    ensures |r| == |s|
  {
    var a := RowStart(y, w);
    s[..a + x] + Blanks(w - x) + s[a + w ..]
  }

  /** `deleteln` on row `y`: every cell from row `y` on takes the value one row below it,
      and the bottom row becomes blank. */
  function DeletelnCells(s: seq<int>, w: nat, y: nat): (r: seq<int>)
    requires RowStart(y, w) + w <= |s|
    ensures |r| == |s|
  {
    var a := RowStart(y, w);
    s[..a] + s[a + w ..] + Blanks(w)
  }

  /** `insertln` on row `y`: row `y` becomes blank and every cell below it takes the
      value one row above it, so the bottom row is lost. */
  function InsertlnCells(s: seq<int>, w: nat, y: nat): (r: seq<int>)
    requires RowStart(y, w) + w <= |s|
    ensures |r| == |s|
  {
    var a := RowStart(y, w);
    s[..a] + Blanks(w) + s[a .. |s| - w]
  }

  /** Row `z` lies wholly before row `y` when `z < y`. */
  lemma RowBefore(w: nat, z: nat, y: nat)
    requires z < y
    ensures RowStart(z, w) + w <= RowStart(y, w)
  {
    RowOrder(w, z + 1, y);
    NextRowStart(w, z);
  }

  /** Cell `k` of row `z` is cell `b + k` of the grid, where `b` is where the row starts. */
  lemma RowCell(s: seq<int>, w: nat, z: nat, b: nat, k: nat)
    requires b == RowStart(z, w) && b + w <= |s| && k < w
    ensures Row(s, w, z)[k] == s[b + k]
  {
  }

  /** `delch` on row `y` of an `h`-row grid, read row by row: row `y` loses the cell at
      `x` and gains a blank at its end; every other row is unchanged. */
  lemma DelchRow(s: seq<int>, w: nat, h: nat, y: nat, x: nat, z: nat)
    requires |s| == RowStart(h, w) && y < h && z < h && x < w
    ensures RowStart(y, w) + w <= |s| && RowStart(z, w) + w <= |s|
    ensures z == y ==> Row(DelchCells(s, w, y, x), w, z) == Row(s, w, z)[..x] + Row(s, w, z)[x + 1..] + [Blank]
    ensures z != y ==> Row(DelchCells(s, w, y, x), w, z) == Row(s, w, z)
  {
    RowFits(h, w, y);
    RowFits(h, w, z);
    var r, row := DelchCells(s, w, y, x), Row(s, w, z);
    var a, b := RowStart(y, w), RowStart(z, w);
    if z == y {
      var want := row[..x] + row[x + 1..] + [Blank];
      forall k | 0 <= k < w
        ensures Row(r, w, z)[k] == want[k]
      {
        RowCell(r, w, z, b, k);
        RowCell(s, w, z, b, k);
        if k < x {
          assert want[k] == row[..x][k];
        } else if k < w - 1 {
          assert want[k] == row[x + 1..][k - x];
          RowCell(s, w, z, b, k + 1);
        }
      }
      assert Row(r, w, z) == want;
    } else {
      if z < y { RowBefore(w, z, y); } else { RowBefore(w, y, z); }
      forall k | 0 <= k < w
        ensures Row(r, w, z)[k] == row[k]
      {
        RowCell(r, w, z, b, k);
        RowCell(s, w, z, b, k);
      }
      assert Row(r, w, z) == row;
    }
  }

  /** `clrtoeol` on row `y` of an `h`-row grid, read row by row: row `y` keeps its first
      `x` cells and is blank after them; every other row is unchanged. */
  lemma ClrtoeolRow(s: seq<int>, w: nat, h: nat, y: nat, x: nat, z: nat)
    requires |s| == RowStart(h, w) && y < h && z < h && x < w
    ensures RowStart(y, w) + w <= |s| && RowStart(z, w) + w <= |s|
    ensures z == y ==> Row(ClrtoeolCells(s, w, y, x), w, z) == Row(s, w, z)[..x] + Blanks(w - x)
    ensures z != y ==> Row(ClrtoeolCells(s, w, y, x), w, z) == Row(s, w, z)
  {
    RowFits(h, w, y);
    RowFits(h, w, z);
    var r, row := ClrtoeolCells(s, w, y, x), Row(s, w, z);
    var a, b := RowStart(y, w), RowStart(z, w);
    if z == y {
      var want := row[..x] + Blanks(w - x);
      forall k | 0 <= k < w
        ensures Row(r, w, z)[k] == want[k]
      {
        RowCell(r, w, z, b, k);
        RowCell(s, w, z, b, k);
        if k < x {
          assert want[k] == row[..x][k];
        } else {
          assert want[k] == Blanks(w - x)[k - x];
        }
      }
      assert Row(r, w, z) == want;
    } else {
      if z < y { RowBefore(w, z, y); } else { RowBefore(w, y, z); }
      forall k | 0 <= k < w
        ensures Row(r, w, z)[k] == row[k]
      {
        RowCell(r, w, z, b, k);
        RowCell(s, w, z, b, k);
      }
      assert Row(r, w, z) == row;
    }
  }

  /** `deleteln` on row `y` of an `h`-row grid, read row by row: the rows above `y` are
      unchanged, each row from `y` on holds what the row below it held, and the bottom
      row is blank. */
  lemma DeletelnRow(s: seq<int>, w: nat, h: nat, y: nat, z: nat)
    requires |s| == RowStart(h, w) && y < h && z < h
    ensures RowStart(y, w) + w <= |s| && RowStart(z, w) + w <= |s|
    ensures z < y ==> Row(DeletelnCells(s, w, y), w, z) == Row(s, w, z)
    ensures y <= z < h - 1 ==>
      RowStart(z + 1, w) + w <= |s| && Row(DeletelnCells(s, w, y), w, z) == Row(s, w, z + 1)
    ensures z == h - 1 ==> Row(DeletelnCells(s, w, y), w, z) == Blanks(w)
  {
    RowFits(h, w, y);
    RowFits(h, w, z);
    var r := DeletelnCells(s, w, y);
    var a, b := RowStart(y, w), RowStart(z, w);
    if z < y {
      RowBefore(w, z, y);
      forall k | 0 <= k < w
        ensures Row(r, w, z)[k] == Row(s, w, z)[k]
      {
        RowCell(r, w, z, b, k);
        RowCell(s, w, z, b, k);
      }
      assert Row(r, w, z) == Row(s, w, z);
    } else if z < h - 1 {
      RowOrder(w, y, z);
      RowFits(h, w, z + 1);
      RowBefore(w, z, h - 1);
      NextRowStart(w, z);
      forall k | 0 <= k < w
        ensures Row(r, w, z)[k] == Row(s, w, z + 1)[k]
      {
        RowCell(r, w, z, b, k);
        RowCell(s, w, z + 1, b + w, k);
      }
      assert Row(r, w, z) == Row(s, w, z + 1);
    } else {
      RowOrder(w, y, z);
      NextRowStart(w, h - 1);
      forall k | 0 <= k < w
        ensures Row(r, w, z)[k] == Blanks(w)[k]
      {
        RowCell(r, w, z, b, k);
      }
      assert Row(r, w, z) == Blanks(w);
    }
  }

  /** `insertln` on row `y` of an `h`-row grid, read row by row: the rows above `y` are
      unchanged, row `y` is blank, and each row below holds what the row above it held. */
  lemma InsertlnRow(s: seq<int>, w: nat, h: nat, y: nat, z: nat)
    requires |s| == RowStart(h, w) && y < h && z < h
    ensures RowStart(y, w) + w <= |s| && RowStart(z, w) + w <= |s|
    ensures z < y ==> Row(InsertlnCells(s, w, y), w, z) == Row(s, w, z)
    ensures z == y ==> Row(InsertlnCells(s, w, y), w, z) == Blanks(w)
    ensures z > y ==>
      RowStart(z - 1, w) + w <= |s| && Row(InsertlnCells(s, w, y), w, z) == Row(s, w, z - 1)
  {
    RowFits(h, w, y);
    RowFits(h, w, z);
    var r := InsertlnCells(s, w, y);
    var a, b := RowStart(y, w), RowStart(z, w);
    if z < y {
      RowBefore(w, z, y);
      forall k | 0 <= k < w
        ensures Row(r, w, z)[k] == Row(s, w, z)[k]
      {
        RowCell(r, w, z, b, k);
        RowCell(s, w, z, b, k);
      }
      assert Row(r, w, z) == Row(s, w, z);
    } else if z == y {
      forall k | 0 <= k < w
        ensures Row(r, w, z)[k] == Blanks(w)[k]
      {
        RowCell(r, w, z, b, k);
      }
      assert Row(r, w, z) == Blanks(w);
    } else {
      RowFits(h, w, z - 1);
      RowBefore(w, y, z);
      NextRowStart(w, z - 1);
      forall k | 0 <= k < w
        ensures Row(r, w, z)[k] == Row(s, w, z - 1)[k]
      {
        RowCell(r, w, z, b, k);
        RowCell(s, w, z - 1, b - w, k);
      }
      assert Row(r, w, z) == Row(s, w, z - 1);
    }
  }

  /** A curses window of `nlines` rows and `ncols` columns: the cells, row-major, and the
      cursor (`cy`, `cx`).  Each method states its effect on both. */
  class Window {
    const nlines: nat
    const ncols: nat
    var cells: seq<int>
    var cy: nat
    var cx: nat

    ghost predicate Valid()
      reads this
    {
      nlines >= 1 && ncols >= 1 && |cells| == RowStart(nlines, ncols) && cy < nlines && cx < ncols
    }

    /** `getyx()`: where the cursor is. */
    function Cursor(): (p: Pos)
      reads this
    {
      Pos(cy, cx)
    }

    /** A window showing `cells`, row-major, with the cursor at the top left corner, as
        `curses.newwin` leaves it. */
    constructor (nlines: nat, ncols: nat, cells: seq<int>)
      requires nlines >= 1 && ncols >= 1 && |cells| == RowStart(nlines, ncols)
      ensures Valid()
      ensures this.nlines == nlines && this.ncols == ncols
      ensures this.cells == cells && cy == 0 && cx == 0
    {
      this.nlines := nlines;
      this.ncols := ncols;
      this.cells := cells;
      cy, cx := 0, 0;
    }

    /** `move(y, x)`: the cursor goes to (y, x); no cell changes. */
    method Move(y: nat, x: nat)
      requires Valid() && y < nlines && x < ncols
      modifies this
      ensures Valid() && cy == y && cx == x && cells == old(cells)
    {
      cy, cx := y, x;
    }

    /** `inch()`: the cell under the cursor. */
    function Inch(): (c: int)
      requires Valid()
      reads this
      ensures Index(ncols, Cursor()) < |cells| && c == cells[Index(ncols, Cursor())]
    {
      RowFits(nlines, ncols, cy);
      cells[RowStart(cy, ncols) + cx]
    }

    /** The cell at (y, x), read without moving the cursor.  The curses call the standard
        library uses for this, `inch(y, x)`, also moves the cursor to (y, x). */
    function CellAt(y: nat, x: nat): (c: int)
      requires Valid() && y < nlines && x < ncols
      reads this
      ensures Index(ncols, Pos(y, x)) < |cells| && c == cells[Index(ncols, Pos(y, x))]
    {
      RowFits(nlines, ncols, y);
      cells[RowStart(y, ncols) + x]
    }

    /** `addch(ch)` anywhere but the bottom right cell: writes `ch` under the cursor and
        advances the cursor, wrapping to the next row after the last column. */
    method AddCh(ch: int)
      requires Valid() && (cy < nlines - 1 || cx < ncols - 1)
      modifies this
      ensures Valid()
      ensures Index(ncols, old(Cursor())) < |cells|
      ensures cells == old(cells)[Index(ncols, old(Cursor())) := ch]
      ensures Cursor() == Advance(old(Cursor()), ncols - 1)
    {
      RowFits(nlines, ncols, cy);
      cells := cells[RowStart(cy, ncols) + cx := ch];
      if cx < ncols - 1 {
        cx := cx + 1;
      } else {
        cy, cx := cy + 1, 0;
      }
    }

    /** `delch()` at the cursor; the cursor stays. */
    method Delch()
      requires Valid()
      modifies this
      ensures Valid() && Cursor() == old(Cursor())
      ensures RowStart(cy, ncols) + ncols <= |old(cells)|
      ensures cells == DelchCells(old(cells), ncols, cy, cx)
    {
      RowFits(nlines, ncols, cy);
      cells := DelchCells(cells, ncols, cy, cx);
    }

    /** `clrtoeol()` at the cursor; the cursor stays. */
    method Clrtoeol()
      requires Valid()
      modifies this
      ensures Valid() && Cursor() == old(Cursor())
      ensures RowStart(cy, ncols) + ncols <= |old(cells)|
      ensures cells == ClrtoeolCells(old(cells), ncols, cy, cx)
    {
      RowFits(nlines, ncols, cy);
      cells := ClrtoeolCells(cells, ncols, cy, cx);
    }

    /** `deleteln()` on the cursor's row; the cursor stays. */
    method Deleteln()
      requires Valid()
      modifies this
      ensures Valid() && Cursor() == old(Cursor())
      ensures RowStart(cy, ncols) + ncols <= |old(cells)|
      ensures cells == DeletelnCells(old(cells), ncols, cy)
    {
      RowFits(nlines, ncols, cy);
      cells := DeletelnCells(cells, ncols, cy);
    }

    /** `insertln()` at the cursor's row; the cursor stays. */
    method Insertln()
      requires Valid()
      modifies this
      ensures Valid() && Cursor() == old(Cursor())
      ensures RowStart(cy, ncols) + ncols <= |old(cells)|
      ensures cells == InsertlnCells(old(cells), ncols, cy)
    {
      RowFits(nlines, ncols, cy);
      cells := InsertlnCells(cells, ncols, cy);
    }
  }
}
