/** The VGA terminal of vga.c as it runs: `struct term` is a class whose
    fields the operations update in place, over a backbuffer array; the
    memory-mapped device grid is an array passed to the operations that
    write it. VgaFill and VgaClear state the device grid they leave
    directly. Each method of Term is proved to move the terminal exactly
    as a function of VgaModel does: the constructor as Initial, RefreshAll
    as Refresh, PutStr as Write of the bytes before the first NUL, Printf
    as Write of the truncated rendering, and PutLf, PutEntryAt, PutChar,
    Write, Clear and SetColor as the function of the same name. */
module Vga {
  import opened Cell
  import CString
  import Fmt = Printf
  import opened VgaModel

  /** `vga_fill`: set all 25 x 80 device cells to `entry`, row by row. */
  method VgaFill(grid: array<CellWord>, entry: CellWord)
    requires grid.Length == VgaHeight * VgaWidth
    modifies grid
    ensures forall k :: 0 <= k < grid.Length ==> grid[k] == entry
  {
    var y := 0;
    while y < VgaHeight
      invariant y <= VgaHeight
      invariant forall k :: 0 <= k < y * VgaWidth ==> grid[k] == entry
    {
      var x := 0;
      while x < VgaWidth
        invariant x <= VgaWidth
        invariant forall k :: 0 <= k < y * VgaWidth + x ==> grid[k] == entry
      {
        grid[Offset(y, x, VgaWidth)] := entry;
        x := x + 1;
      }
      y := y + 1;
    }
  }

  /** `vga_clear`: blank the device grid in light grey on black. */
  method VgaClear(grid: array<CellWord>)
    requires grid.Length == VgaHeight * VgaWidth
    modifies grid
    ensures forall k :: 0 <= k < grid.Length ==> grid[k] == BlankCell
  {
    VgaFill(grid, Entry(' ' as Byte, EntryColor(LightGrey, Black)));
  }

  /** `struct term`. */
  class Term {
    var row: nat
    var column: nat
    var rowN: nat
    var columnN: nat
    var rowShift: nat
    var rowScreen: nat
    var rowScreenN: nat
    var color: Byte
    var buff: array<CellWord>

    /** The terminal as a value. */
    ghost function Model(): TermState
      reads this, buff
    {
      TermState(row, column, rowN, columnN, rowShift, rowScreen, rowScreenN, color, buff[..])
    }

    /** `term_init`: take `backbuffer` as the backbuffer, set the geometry,
        cursor and colour, and zero every cell. */
    constructor (backbuffer: array<CellWord>)
      requires backbuffer.Length == TermBackbuffSize * VgaWidth
      modifies backbuffer
      ensures buff == backbuffer && Model() == Initial()
    {
      row := 0;
      column := 0;
      rowN := TermBackbuffSize;
      columnN := VgaWidth;
      rowShift := 0;
      rowScreen := 0;
      rowScreenN := VgaHeight;
      color := EntryColor(LightGrey, Black);
      buff := backbuffer;
      new;
      // the backbuffer starts out all zero
      var i := 0;
      while i < rowN * columnN
        invariant i <= rowN * columnN == buff.Length
        invariant forall k :: 0 <= k < i ==> buff[k] == 0
        modifies buff
      {
        buff[i] := 0;
        i := i + 1;
      }
      assert buff[..] == seq(TermBackbuffSize * VgaWidth, _ => 0);
    }

    /** `term_put_lf`. */
    method PutLf()
      requires Layout(Model()) && Cursor(Model())
      modifies this, buff
      ensures buff == old(buff) && Model() == VgaModel.PutLf(old(Model()))
    {
      ghost var before := Model();
      // the ring row advances on every line feed, wrapping at rowN
      row := (row + 1) % rowN;
      // the cursor returns to the left edge
      column := 0;

      // blank the ring row that the cursor enters
      OffsetFits(row, columnN - 1, rowN, columnN);
      var i := 0;
      while i < columnN
        invariant i <= columnN
        invariant forall k :: 0 <= k < buff.Length ==>
          buff[k] == if Offset(row, 0, columnN) <= k < Offset(row, i, columnN) then BlankCell else before.cells[k]
        modifies buff
      {
        buff[Offset(row, i, columnN)] := Entry(' ' as Byte, EntryColor(LightGrey, Black));
        i := i + 1;
      }
      assert buff[..] == BlankRow(before.cells, row, columnN);

      // grow the window or scroll it by one row
      if rowScreen < rowScreenN - 1 {
        rowScreen := rowScreen + 1;
      } else {
        rowShift := (rowShift + 1) % rowN;
      }
    }

    /** `term_put_entry_at`. */
    method PutEntryAt(c: Byte, x: nat, y: nat)
      requires Layout(Model()) && x < columnN
      modifies buff
      ensures Model() == VgaModel.PutEntryAt(old(Model()), c, x, y)
    {
      // only bytes 32..126 reach the backbuffer
      if Printable(c) {
        OffsetFits((rowShift + y) % rowN, x, rowN, columnN);
        var index := Offset((rowShift + y) % rowN, x, columnN);
        buff[index] := Entry(c, color);
      }
    }

    /** `term_put_char`. */
    method PutChar(c: Byte)
      requires VgaModel.Valid(Model())
      modifies this, buff
      ensures buff == old(buff) && Model() == VgaModel.PutChar(old(Model()), c)
    {
      if c == Newline {
        PutLf();
        return;
      }
      PutEntryAt(c, column, rowScreen);
      column := column + 1;
      if column >= columnN {
        PutLf();
      }
    }

    /** `term_write`: put the first `size` bytes of `data` in order. */
    method Write(data: array<Byte>, size: nat)
      requires VgaModel.Valid(Model()) && size <= data.Length
      modifies this, buff
      ensures buff == old(buff) && Model() == VgaModel.Write(old(Model()), data[..size])
    {
      var i := 0;
      assert data[..i] == [];
      while i < size
        invariant i <= size && buff == old(buff)
        invariant Model() == VgaModel.Write(old(Model()), data[..i])
      {
        assert data[..i + 1][..i] == data[..i];
        PutChar(data[i]);
        i := i + 1;
      }
    }

    /** `term_put_str`: write the C string in `str`. */
    method PutStr(str: array<Byte>)
      requires VgaModel.Valid(Model()) && CString.Terminated(str[..])
      modifies this, buff
      ensures buff == old(buff)
      ensures Model() == VgaModel.Write(old(Model()), str[..CString.Length(str[..])])
    {
      var len := CString.StrLen(str);
      Write(str, len);
    }

    /** `vga_refresh_all`: copy the screen rows of the backbuffer to the
        device grid. */
    method RefreshAll(grid: array<CellWord>)
      requires Displayable(Model()) && grid.Length == VgaHeight * VgaWidth && grid != buff
      modifies grid
      ensures grid[..] == Refresh(Model(), old(grid[..]))
    {
      ghost var m := Model();
      ghost var was := grid[..];
      ghost var shown := Refresh(m, was);
      var i := 0;
      while i < rowScreenN
        invariant i <= rowScreenN
        invariant forall k :: 0 <= k < grid.Length ==>
          grid[k] == if k < Offset(i, 0, VgaWidth) then shown[k] else was[k]
      {
        var j := 0;
        while j < columnN
          invariant j <= columnN
          invariant forall k :: 0 <= k < grid.Length ==>
            grid[k] == if k < Offset(i, j, VgaWidth) then shown[k] else was[k]
        {
          RefreshShowsWindow(m, was, i, j);
          var vgaIndex := Offset(i, j, VgaWidth);
          var termIndex := Offset((i + rowShift) % rowN, j, columnN);
          grid[vgaIndex] := buff[termIndex];
          j := j + 1;
        }
        i := i + 1;
      }
      assert grid[..] == shown;
    }

    /** `term_clear`: zero every backbuffer cell, then refresh. */
    method Clear(grid: array<CellWord>)
      requires VgaModel.Valid(Model()) && Displayable(Model()) && grid.Length == VgaHeight * VgaWidth
      requires grid != buff
      modifies buff, grid
      ensures Model() == VgaModel.Clear(old(Model()))
      ensures grid[..] == Refresh(Model(), old(grid[..]))
    {
      var i := 0;
      while i < columnN * rowN
        invariant i <= columnN * rowN == buff.Length
        invariant forall k :: 0 <= k < i ==> buff[k] == 0
        modifies buff
      {
        buff[i] := 0;
        i := i + 1;
      }
      assert buff[..] == seq(buff.Length, _ => 0);
      RefreshAll(grid);
    }

    /** `term_set_color`. */
    method SetColor(fg: Color, bg: Color)
      modifies this
      ensures buff == old(buff) && Model() == VgaModel.SetColor(old(Model()), fg, bg)
    {
      color := EntryColor(fg, bg);
    }

    /** `term_printf`: format into a zeroed 256-byte buffer with a bound of
        255, write the result up to its first NUL, then refresh. The bytes
        written are the whole formatted text, cut at 255. */
    method Printf(grid: array<CellWord>, fmt: seq<Byte>, args: seq<Fmt.Word>)
      requires VgaModel.Valid(Model()) && Displayable(Model()) && grid.Length == VgaHeight * VgaWidth
      requires grid != buff
      requires Fmt.WellFormed(fmt, 0) && Fmt.ArgsNeeded(fmt, 0) <= |args|
      modifies this, buff, grid
      ensures buff == old(buff)
      ensures Model() == VgaModel.Write(old(Model()),
        Fmt.Truncate(Fmt.Render(fmt, 0, args), TermPrintfBufferSize - 1))
      ensures grid[..] == Refresh(Model(), old(grid[..]))
    {
      var buf := new Byte[TermPrintfBufferSize](_ => 0);
      Fmt.Vsnprintf(buf, TermPrintfBufferSize - 1, fmt, args);
      ghost var out := Fmt.Truncate(Fmt.Render(fmt, 0, args), TermPrintfBufferSize - 1);
      Fmt.RenderHasNoNul(fmt, 0, args);
      assert forall k :: 0 <= k < |out| ==> buf[k] != 0;
      CString.LengthIsFirstNul(buf[..], |out|);
      assert buf[..CString.Length(buf[..])] == out;
      PutStr(buf);
      RefreshAll(grid);
    }
  }
}
