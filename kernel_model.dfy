/** The earlier console of kernel.c as values: a cursor and a colour in
    `struct term_ctx`, writing straight into the 25 x 80 device grid. Bytes
    are written unfiltered, nothing scrolls and no row is cleared; the cursor
    wraps back to the top row. */
module KernelModel {
  import opened Cell
  import CString

  /** VGA_WIDTH and VGA_HEIGHT of kernel.c. */
  const Width: nat := 80
  const Height: nat := 25

  /** The console as a value: the fields of `struct term_ctx` and the grid
      that `term_buffer` points to. */
  datatype Console = Console(row: nat, column: nat, color: Byte, grid: seq<CellWord>)

  /** The cursor is on the grid. */
  predicate Valid(k: Console)
  {
    k.row < Height && k.column < Width && |k.grid| == Height * Width
  }

  /** Index of column `x` of row `y`. */
  function Index(x: nat, y: nat): nat
  {
    y * Width + x
  }

  /** A cell of the grid lies inside it. */
  lemma IndexFits(x: nat, y: nat)
    requires x < Width && y < Height
    ensures Index(x, y) < Height * Width
  {
  }

  /** `term_ctx_init`: the cursor at the top left, light grey on black. */
  function CtxInit(grid: seq<CellWord>): (k: Console)
    ensures k.row == 0 && k.column == 0 && k.grid == grid
    ensures Foreground(k.color) == LightGrey && Background(k.color) == Black
  {
    Console(0, 0, EntryColor(LightGrey, Black), grid)
  }

  /** `term_init`: initialise the context and fill the grid with blanks in
      its colour. */
  function Init(): (k: Console)
    ensures Valid(k) && k.row == 0 && k.column == 0 && k.color == DefaultColor
    ensures forall i :: 0 <= i < |k.grid| ==> k.grid[i] == BlankCell
  {
    var k := CtxInit([]);
    k.(grid := seq(Height * Width, _ => Entry(' ' as Byte, k.color)))
  }

  /** `term_put_entry_at`: the cell at column `x` of row `y` takes `c` in
      `color`; there is no filter, control bytes are written too. */
  function PutEntryAt(grid: seq<CellWord>, c: Byte, color: Byte, x: nat, y: nat): (r: seq<CellWord>)
    requires Index(x, y) < |grid|
    ensures |r| == |grid|
    ensures forall i :: 0 <= i < |grid| && i != Index(x, y) ==> r[i] == grid[i]
    ensures Glyph(r[Index(x, y)]) == c && Attribute(r[Index(x, y)]) == color
  {
    grid[Index(x, y) := Entry(c, color)]
  }

  /** `term_put_lf`: the next row, back to the top after the last, at column
      0. No cell changes: there is no clearing and no scrolling. */
  function PutLf(k: Console): (r: Console)
    requires Valid(k)
    ensures Valid(r) && r.column == 0 && r.grid == k.grid && r.color == k.color
    ensures r.row == (k.row + 1) % Height
  {
    var row := if k.row + 1 >= Height then 0 else k.row + 1;
    k.(row := row, column := 0)
  }

  /** `term_put_char`: a newline is a line feed; any other byte is written
      at the cursor and the column advances, wrapping to the start of the
      next row (and from the last row to the first) at the end of a row. */
  function PutChar(k: Console, c: Byte): (r: Console)
    requires Valid(k)
    ensures Valid(r) && r.color == k.color
  {
    if c == Newline then
      PutLf(k)
    else
      IndexFits(k.column, k.row);
      var put := k.(grid := PutEntryAt(k.grid, c, k.color, k.column, k.row), column := k.column + 1);
      if put.column >= Width then
        var row := if put.row + 1 >= Height then 0 else put.row + 1;
        put.(column := 0, row := row)
      else
        put
  }

  /** Any byte but a newline, control bytes included, lands at the cursor in
      the current colour; the end-of-row wrap is a line feed. */
  lemma EveryByteIsWritten(k: Console, c: Byte)
    requires Valid(k) && c != Newline
    ensures Index(k.column, k.row) < |k.grid|
    ensures var put := k.(grid := k.grid[Index(k.column, k.row) := Entry(c, k.color)]);
      PutChar(k, c) == if k.column + 1 == Width then PutLf(put) else put.(column := k.column + 1)
  {
    IndexFits(k.column, k.row);
  }

  /** `term_write`: put every byte of `data` in order. */
  function Write(k: Console, data: seq<Byte>): (r: Console)
    requires Valid(k)
    ensures Valid(r) && r.color == k.color
    decreases |data|
  {
    if data == [] then k else PutChar(Write(k, data[..|data| - 1]), data[|data| - 1])
  }

  /** Writing two pieces one after the other is writing them joined. */
  lemma {:induction false} WriteAppend(k: Console, a: seq<Byte>, b: seq<Byte>)
    requires Valid(k)
    ensures Write(k, a + b) == Write(Write(k, a), b)
    decreases |b|
  {
    if b == [] {
      assert a + b == a;
    } else {
      assert (a + b)[..|a + b| - 1] == a + b[..|b| - 1];
      WriteAppend(k, a, b[..|b| - 1]);
    }
  }

  /** A text without newlines that fits in the rest of the row is copied
      into the row from the cursor on, and the cursor moves past it. */
  lemma {:induction false} WriteWithinRow(k: Console, text: seq<Byte>)
    requires Valid(k) && k.column + |text| < Width
    requires forall i :: 0 <= i < |text| ==> text[i] != Newline
    ensures var r := Write(k, text);
      r.row == k.row && r.column == k.column + |text| &&
      forall i :: 0 <= i < |k.grid| ==>
        r.grid[i] == if Index(k.column, k.row) <= i < Index(k.column + |text|, k.row)
                     then Entry(text[i - Index(k.column, k.row)], k.color) else k.grid[i]
    decreases |text|
  {
    if text != [] {
      var init := text[..|text| - 1];
      WriteWithinRow(k, init);
      var before := Write(k, init);
      EveryByteIsWritten(before, text[|text| - 1]);
    }
  }

  /** The two lines that `kernel_main` writes. */
  const Hello: seq<Byte> := CString.Ascii("Hello,")
  const World: seq<Byte> := CString.Ascii("kernel world!")

  /** The text of `kernel_main` is the two lines, each ending in a newline,
      and neither line holds a newline of its own. */
  lemma BootText()
    ensures CString.Ascii("Hello,\nkernel world!\n") == Hello + [Newline] + World + [Newline]
    ensures |Hello| == 6 && |World| == 13
    ensures forall i :: 0 <= i < |Hello| ==> Hello[i] != Newline
    ensures forall i :: 0 <= i < |World| ==> World[i] != Newline
  {
  }

  /** `term_writestring` at boot: "Hello,\nkernel world!\n" from the
      initial console ends at row 2, column 0, with "Hello," at the start of
      row 0, "kernel world!" at the start of row 1 and blanks everywhere
      else. */
  lemma HelloKernelWorld()
    ensures var r := Write(Init(), CString.Ascii("Hello,\nkernel world!\n"));
      r.row == 2 && r.column == 0 && |r.grid| == Height * Width &&
      forall i :: 0 <= i < Height * Width ==>
        r.grid[i] ==
          if i < |Hello| then Entry(Hello[i], DefaultColor)
          else if Width <= i < Width + |World| then Entry(World[i - Width], DefaultColor)
          else BlankCell
  {
    BootText();
    FirstLine();
    var k2 := Write(Init(), Hello + [Newline]);
    SecondLine(k2);
    WriteAppend(Init(), Hello + [Newline], World + [Newline]);
    assert Hello + [Newline] + (World + [Newline]) == Hello + [Newline] + World + [Newline];
  }

  /** After "Hello,\n" the cursor is at the start of row 1 and only the
      first six cells of row 0 are written. */
  lemma FirstLine()
    ensures var r := Write(Init(), Hello + [Newline]);
      r.row == 1 && r.column == 0 && |r.grid| == Height * Width &&
      forall i :: 0 <= i < Height * Width ==>
        r.grid[i] == if i < |Hello| then Entry(Hello[i], DefaultColor) else BlankCell
  {
    BootText();
    var k0 := Init();
    WriteWithinRow(k0, Hello);
    WriteOne(Write(k0, Hello), Newline);
    WriteAppend(k0, Hello, [Newline]);
  }

  /** From the start of row 1, "kernel world!\n" fills the first thirteen
      cells of that row and leaves the cursor at the start of row 2. */
  lemma SecondLine(k: Console)
    requires Valid(k) && k.row == 1 && k.column == 0
    ensures var r := Write(k, World + [Newline]);
      r.row == 2 && r.column == 0 && |r.grid| == Height * Width &&
      forall i :: 0 <= i < Height * Width ==>
        r.grid[i] == if Width <= i < Width + |World| then Entry(World[i - Width], k.color) else k.grid[i]
  {
    BootText();
    WriteWithinRow(k, World);
    WriteOne(Write(k, World), Newline);
    WriteAppend(k, World, [Newline]);
  }

  /** Writing one byte is putting it. */
  lemma WriteOne(k: Console, c: Byte)
    requires Valid(k)
    ensures Write(k, [c]) == PutChar(k, c)
  {
    assert [c][..0] == [];
  }
}
