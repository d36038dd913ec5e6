/** The scrolling ring-buffer terminal of vga.c, as values. A TermState holds
    the fields of `struct term` with the backbuffer as a sequence of cells;
    each operation of vga.c is a function from the old state to the new one,
    and the imperative Term class is proved against these functions. */
module VgaModel {
  import opened Cell

  /** VGA_WIDTH and VGA_HEIGHT: the text-mode device grid is 25 rows of 80
      cells. */
  const VgaWidth: nat := 80
  const VgaHeight: nat := 25

  /** TERM_BACKBUFF_SIZE: the backbuffer holds two screens of rows. */
  const TermBackbuffSize: nat := 2 * VgaHeight

  /** TERM_PRINTF_BUFFER_SIZE: the local buffer of term_printf. */
  const TermPrintfBufferSize: nat := 256

  /** The fields of `struct term`; `cells` is the backbuffer `buff`. */
  datatype TermState = TermState(
    row: nat,         // absolute ring row of the cursor
    column: nat,      // cursor column
    rowN: nat,        // rows in the backbuffer
    columnN: nat,     // cells per row
    rowShift: nat,    // first ring row of the screen
    rowScreen: nat,   // cursor row relative to the screen
    rowScreenN: nat,  // rows in a screen
    color: Byte,      // attribute of written characters
    cells: seq<CellWord>)

  // ---------------------------------------------------------------------
  // Geometry

  /** Index of cell `x` of ring row `r` in a backbuffer of rows of
      `columnN` cells. */
  function Offset(r: nat, x: nat, columnN: nat): nat
  {
    r * columnN + x
  }

  /** A cell of a row that exists lies inside the backbuffer. */
  lemma OffsetFits(r: nat, x: nat, rowN: nat, columnN: nat)
    requires r < rowN && x < columnN
    ensures Offset(r, x, columnN) < rowN * columnN
  {
    MulMono(r + 1, rowN, columnN);
    assert (r + 1) * columnN == r * columnN + columnN;
  }

  /** The cells of ring row `r` are exactly the indices whose quotient by
      `columnN` is `r`. */
  lemma RowOfOffset(k: nat, r: nat, columnN: nat)
    requires columnN >= 1
    ensures Offset(r, 0, columnN) <= k < Offset(r, columnN, columnN) <==> k / columnN == r
  {
    var q, m := k / columnN, k % columnN;
    assert k == q * columnN + m;
    if q < r {
      MulMono(q + 1, r, columnN);
      assert (q + 1) * columnN == q * columnN + columnN;
    } else if q > r {
      MulMono(r + 1, q, columnN);
      assert (r + 1) * columnN == r * columnN + columnN;
    }
  }

  lemma MulMono(a: nat, b: nat, c: nat)
    requires a <= b
    ensures a * c <= b * c
  {
    assert b * c == a * c + (b - a) * c;
  }

  /** Reducing a value below twice the modulus subtracts the modulus at most
      once: this is how every ring counter of the terminal wraps. */
  lemma ModBelowTwice(x: nat, n: nat)
    requires 1 <= n && x < 2 * n
    ensures x % n == if x < n then x else x - n
  {
    if x >= n {
      assert x == 1 * n + (x - n);
    }
  }

  // ---------------------------------------------------------------------
  // States

  /** The backbuffer geometry: `rowN` rows of `columnN` cells, and a screen
      of between 1 and `rowN` rows. */
  predicate Layout(t: TermState)
  {
    1 <= t.columnN && 1 <= t.rowScreenN <= t.rowN && |t.cells| == t.rowN * t.columnN
  }

  /** The two cursors agree: the absolute row is the screen-relative row
      counted from the first row of the screen, around the ring. */
  predicate Cursor(t: TermState)
    requires Layout(t)
  {
    t.row < t.rowN && t.rowShift < t.rowN && t.rowScreen < t.rowScreenN &&
    t.row == (t.rowShift + t.rowScreen) % t.rowN
  }

  /** The state every public operation of vga.c starts from and returns to. */
  predicate Valid(t: TermState)
  {
    Layout(t) && Cursor(t) && t.column < t.columnN
  }

  /** `term_init`: cursor and window at the top, a two-screen backbuffer of
      80-cell rows, light grey on black, every cell zero. */
  function Initial(): (t: TermState)
    ensures Valid(t) && t.cells == seq(TermBackbuffSize * VgaWidth, _ => 0)
    ensures t.rowN == TermBackbuffSize && t.columnN == VgaWidth && t.rowScreenN == VgaHeight
    ensures t.row == 0 && t.column == 0 && t.rowShift == 0 && t.rowScreen == 0
    ensures Foreground(t.color) == LightGrey && Background(t.color) == Black
  {
    TermState(0, 0, TermBackbuffSize, VgaWidth, 0, 0, VgaHeight, DefaultColor,
      seq(TermBackbuffSize * VgaWidth, _ => 0))
  }

  // ---------------------------------------------------------------------
  // Line feed

  /** The cells with ring row `r` replaced by blanks. */
  function BlankRow(cells: seq<CellWord>, r: nat, columnN: nat): (res: seq<CellWord>)
    requires Offset(r, columnN, columnN) <= |cells|
    ensures |res| == |cells|
  {
    seq(|cells|, k requires 0 <= k < |cells| =>
      if Offset(r, 0, columnN) <= k < Offset(r, columnN, columnN) then BlankCell else cells[k])
  }

  /** `term_put_lf`: move the cursor to the start of the next ring row,
      blank that row in light grey on black, and either grow the window by a
      row or, once the cursor is on its last row, scroll it by one. The
      column may be anything (term_put_char calls this once the column has
      reached `columnN`); the cursor invariant is kept. */
  function PutLf(t: TermState): (r: TermState)
    requires Layout(t) && Cursor(t)
    ensures Valid(r) && r.column == 0
    ensures r.(row := t.row, column := t.column, rowShift := t.rowShift,
               rowScreen := t.rowScreen, cells := t.cells) == t
  {
    var row := (t.row + 1) % t.rowN;
    ModBelowTwice(t.row + 1, t.rowN);
    ModBelowTwice(t.rowShift + t.rowScreen, t.rowN);
    OffsetFits(row, t.columnN - 1, t.rowN, t.columnN);
    var cells := BlankRow(t.cells, row, t.columnN);
    if t.rowScreen < t.rowScreenN - 1 then
      ModBelowTwice(t.rowShift + t.rowScreen + 1, t.rowN);
      t.(row := row, column := 0, rowScreen := t.rowScreen + 1, cells := cells)
    else
      var shift := (t.rowShift + 1) % t.rowN;
      ModBelowTwice(t.rowShift + 1, t.rowN);
      ModBelowTwice(shift + t.rowScreen, t.rowN);
      t.(row := row, column := 0, rowShift := shift, cells := cells)
  }

  /** A line feed blanks exactly the new cursor row, in the default
      attribute whatever the current colour, and no other cell changes. */
  lemma LineFeedBlanksOneRow(t: TermState, k: nat)
    requires Layout(t) && Cursor(t) && k < |t.cells|
    ensures var r := PutLf(t);
      r.row == (t.row + 1) % t.rowN &&
      r.cells[k] == if k / t.columnN == r.row then BlankCell else t.cells[k]
  {
    RowOfOffset(k, (t.row + 1) % t.rowN, t.columnN);
  }

  /** The window moves by exactly one row: it grows while the cursor is
      above the last screen row and scrolls by one ring row after that. */
  lemma LineFeedMovesWindow(t: TermState)
    requires Layout(t) && Cursor(t)
    ensures var r := PutLf(t);
      r.row == (t.row + 1) % t.rowN &&
      (t.rowScreen + 1 < t.rowScreenN ==> r.rowScreen == t.rowScreen + 1 && r.rowShift == t.rowShift) &&
      (t.rowScreen + 1 == t.rowScreenN ==> r.rowScreen == t.rowScreen && r.rowShift == (t.rowShift + 1) % t.rowN)
  {
  }

  /** `n` line feeds. */
  function Newlines(n: nat): (s: seq<Byte>)
    ensures |s| == n && forall i :: 0 <= i < n ==> s[i] == Newline
  {
    seq(n, _ => Newline)
  }

  /** From the initial state, `n` newlines move the cursor to ring row
      `n mod 50` at column 0; the window grows until the cursor reaches the
      last of its 25 rows and from then on scrolls one row per newline. */
  lemma {:induction false} NewlinesFromInitial(n: nat)
    ensures var r := Write(Initial(), Newlines(n));
      r.row == n % TermBackbuffSize && r.column == 0 &&
      r.rowScreen == Min(n, VgaHeight - 1) &&
      r.rowShift == (n - Min(n, VgaHeight - 1)) % TermBackbuffSize
  {
    if n == 0 {
      assert Newlines(0) == [];
    } else {
      NewlinesFromInitial(n - 1);
      assert Newlines(n)[..n - 1] == Newlines(n - 1);
      var before := Write(Initial(), Newlines(n - 1));
      assert Write(Initial(), Newlines(n)) == PutLf(before);
      NewlineStep(before, n - 1);
    }
  }

  /** One more newline after `m` of them. */
  lemma NewlineStep(before: TermState, m: nat)
    requires Valid(before) && before.rowN == TermBackbuffSize && before.rowScreenN == VgaHeight
    requires before.row == m % TermBackbuffSize
    requires before.rowScreen == Min(m, VgaHeight - 1)
    requires before.rowShift == (m - Min(m, VgaHeight - 1)) % TermBackbuffSize
    ensures var r := PutLf(before);
      r.row == (m + 1) % TermBackbuffSize && r.column == 0 &&
      r.rowScreen == Min(m + 1, VgaHeight - 1) &&
      r.rowShift == (m + 1 - Min(m + 1, VgaHeight - 1)) % TermBackbuffSize
  {
    LineFeedMovesWindow(before);
    ModBelowTwice(before.row + 1, TermBackbuffSize);
    ModBelowTwice(before.rowShift + 1, TermBackbuffSize);
    BackbuffRowNext(m);
    if m >= VgaHeight - 1 {
      BackbuffRowNext(m + 1 - VgaHeight);
    }
  }

  /** Counting rows around the 50-row ring. */
  lemma BackbuffRowNext(x: nat)
    ensures (x + 1) % TermBackbuffSize ==
      if x % TermBackbuffSize + 1 == TermBackbuffSize then 0 else x % TermBackbuffSize + 1
  {
  }

  // ---------------------------------------------------------------------
  // Characters

  /** A byte read as an i386 `char`, which is signed. */
  function SignedChar(c: Byte): int
  {
    if c < 0x80 then c else c - 0x100
  }

  /** The filter of term_put_entry_at: `c >= 32 && c != 127` on a signed
      char, which holds exactly for the printable ASCII bytes. */
  predicate Printable(c: Byte)
    ensures Printable(c) <==> 32 <= c <= 126
  {
    SignedChar(c) >= 32 && SignedChar(c) != 127
  }

  /** `term_put_entry_at`: write `c` in the current colour at column `x` of
      screen row `y`, unless it is not printable. */
  function PutEntryAt(t: TermState, c: Byte, x: nat, y: nat): (r: TermState)
    requires Layout(t) && x < t.columnN
    ensures Layout(r) && r.(cells := t.cells) == t
    ensures !Printable(c) ==> r == t
  {
    var at := Offset((t.rowShift + y) % t.rowN, x, t.columnN);
    OffsetFits((t.rowShift + y) % t.rowN, x, t.rowN, t.columnN);
    if Printable(c) then t.(cells := t.cells[at := Entry(c, t.color)]) else t
  }

  /** A printable byte is stored as its cell in the current colour at
      column `x` of ring row `(row_shift + y) % row_n`, the `y`-th row of the
      screen; that index lies inside the backbuffer and every other cell is
      kept. */
  lemma EntryLandsOnScreenRow(t: TermState, c: Byte, x: nat, y: nat, k: nat)
    requires Layout(t) && x < t.columnN && Printable(c) && k < |t.cells|
    ensures Offset((t.rowShift + y) % t.rowN, x, t.columnN) < |t.cells|
    ensures PutEntryAt(t, c, x, y).cells[k] ==
      if k == Offset((t.rowShift + y) % t.rowN, x, t.columnN) then Entry(c, t.color) else t.cells[k]
  {
    OffsetFits((t.rowShift + y) % t.rowN, x, t.rowN, t.columnN);
  }

  /** `term_put_char`: a newline is a line feed; any other byte is put at
      the cursor (or dropped when not printable), the column advances, and a
      line feed follows when the column reaches the end of the row. */
  function PutChar(t: TermState, c: Byte): (r: TermState)
    requires Valid(t)
    ensures Valid(r)
    ensures r.(row := t.row, column := t.column, rowShift := t.rowShift,
               rowScreen := t.rowScreen, cells := t.cells) == t
  {
    if c == Newline then PutLf(t)
    else
      var put := PutEntryAt(t, c, t.column, t.rowScreen).(column := t.column + 1);
      if put.column >= put.columnN then PutLf(put) else put
  }

  /** A printable byte lands in the cell of ring row `row` at the cursor
      column, in the current colour: the write position of the screen and
      the absolute row agree. */
  lemma PrintableLandsAtCursor(t: TermState, c: Byte)
    requires Valid(t) && c != Newline && Printable(c)
    ensures Offset(t.row, t.column, t.columnN) < |t.cells|
    ensures var put := t.(cells := t.cells[Offset(t.row, t.column, t.columnN) := Entry(c, t.color)],
                          column := t.column + 1);
      PutChar(t, c) == if put.column == t.columnN then PutLf(put) else put
  {
    var at := Offset(t.row, t.column, t.columnN);
    OffsetFits(t.row, t.column, t.rowN, t.columnN);
    var put := t.(cells := t.cells[at := Entry(c, t.color)], column := t.column + 1);
    assert (t.rowShift + t.rowScreen) % t.rowN == t.row;
    assert PutEntryAt(t, c, t.column, t.rowScreen).(column := t.column + 1) == put;
  }

  /** A byte that is neither a newline nor printable changes no cell but
      still moves the cursor on, wrapping at the end of the row. */
  lemma UnprintableStillAdvances(t: TermState, c: Byte)
    requires Valid(t) && c != Newline && !Printable(c)
    ensures PutChar(t, c) ==
      if t.column + 1 == t.columnN then PutLf(t.(column := t.columnN)) else t.(column := t.column + 1)
  {
  }

  /** `term_write`: put every byte of `data` in order. */
  function Write(t: TermState, data: seq<Byte>): (r: TermState)
    requires Valid(t)
    ensures Valid(r)
    ensures r.(row := t.row, column := t.column, rowShift := t.rowShift,
               rowScreen := t.rowScreen, cells := t.cells) == t
    decreases |data|
  {
    if data == [] then t else PutChar(Write(t, data[..|data| - 1]), data[|data| - 1])
  }

  /** Writing two pieces one after the other is writing them joined. */
  lemma {:induction false} WriteAppend(t: TermState, a: seq<Byte>, b: seq<Byte>)
    requires Valid(t)
    ensures Write(t, a + b) == Write(Write(t, a), b)
    decreases |b|
  {
    if b == [] {
      assert a + b == a;
    } else {
      var last := b[|b| - 1];
      assert (a + b)[..|a + b| - 1] == a + b[..|b| - 1];
      WriteAppend(t, a, b[..|b| - 1]);
    }
  }

  /** Writing one byte is putting it. */
  lemma WriteOne(t: TermState, c: Byte)
    requires Valid(t)
    ensures Write(t, [c]) == PutChar(t, c)
  {
    assert [c][..0] == [];
  }

  // ---------------------------------------------------------------------
  // Clearing and colour

  /** `term_clear` (before its refresh): zero every cell; the cursor and
      window stay where they are. */
  function Clear(t: TermState): (r: TermState)
    requires Valid(t)
    ensures Valid(r) && r.(cells := t.cells) == t
    ensures forall k :: 0 <= k < |r.cells| ==> r.cells[k] == 0
  {
    t.(cells := seq(|t.cells|, _ => 0))
  }

  /** `term_set_color`: the packed colour pair becomes the current colour. */
  function SetColor(t: TermState, fg: Color, bg: Color): (r: TermState)
    ensures r.(color := t.color) == t
    ensures Foreground(r.color) == fg && Background(r.color) == bg
  {
    t.(color := EntryColor(fg, bg))
  }

  // ---------------------------------------------------------------------
  // Refresh

  /** What the refresh needs: rows as wide as the device and a screen no
      taller than it. */
  predicate Displayable(t: TermState)
  {
    Layout(t) && t.columnN == VgaWidth && t.rowScreenN <= VgaHeight
  }

  /** `vga_refresh_all`: the device grid `grid` after copying the
      `rowScreenN` ring rows from `rowShift` on to its top rows; device rows
      below the screen keep what they held. */
  function Refresh(t: TermState, grid: seq<CellWord>): (shown: seq<CellWord>)
    requires Displayable(t) && |grid| == VgaHeight * VgaWidth
    ensures |shown| == |grid|
    ensures forall k :: t.rowScreenN * VgaWidth <= k < |grid| ==> shown[k] == grid[k]
  {
    seq(|grid|, k requires 0 <= k < |grid| =>
      if k < t.rowScreenN * VgaWidth then ScreenCell(t, k / VgaWidth, k % VgaWidth) else grid[k])
  }

  function ScreenCell(t: TermState, i: nat, j: nat): CellWord
    requires Displayable(t) && j < t.columnN
  {
    OffsetFits((i + t.rowShift) % t.rowN, j, t.rowN, t.columnN);
    t.cells[Offset((i + t.rowShift) % t.rowN, j, t.columnN)]
  }

  /** Screen row `i` of the device shows ring row `rowShift + i`, around
      the ring. */
  lemma RefreshShowsWindow(t: TermState, grid: seq<CellWord>, i: nat, j: nat)
    requires Displayable(t) && |grid| == VgaHeight * VgaWidth
    requires i < t.rowScreenN && j < VgaWidth
    ensures Offset(i, j, VgaWidth) < |grid| && Offset((i + t.rowShift) % t.rowN, j, t.columnN) < |t.cells|
    ensures Refresh(t, grid)[Offset(i, j, VgaWidth)] == t.cells[Offset((i + t.rowShift) % t.rowN, j, t.columnN)]
  {
    var k := Offset(i, j, VgaWidth);
    assert k / VgaWidth == i && k % VgaWidth == j;
    OffsetFits((i + t.rowShift) % t.rowN, j, t.rowN, t.columnN);
  }

  /** Refreshing twice shows the same as refreshing once. */
  lemma RefreshIdempotent(t: TermState, grid: seq<CellWord>)
    requires Displayable(t) && |grid| == VgaHeight * VgaWidth
    ensures Refresh(t, Refresh(t, grid)) == Refresh(t, grid)
  {
  }

  /** The cursor's screen row shows the cursor's ring row. */
  lemma RefreshShowsCursorRow(t: TermState, grid: seq<CellWord>, j: nat)
    requires Valid(t) && Displayable(t) && |grid| == VgaHeight * VgaWidth && j < VgaWidth
    ensures Offset(t.rowScreen, j, VgaWidth) < |grid| && Offset(t.row, j, t.columnN) < |t.cells|
    ensures Refresh(t, grid)[Offset(t.rowScreen, j, VgaWidth)] == t.cells[Offset(t.row, j, t.columnN)]
  {
    var ring := (t.rowScreen + t.rowShift) % t.rowN;
    assert ring == t.row by {
      assert t.rowScreen + t.rowShift == t.rowShift + t.rowScreen;
    }
    RefreshShowsWindow(t, grid, t.rowScreen, j);
  }
}
