/** The earlier console of kernel.c as it runs: `struct term_ctx` is a class
    whose fields the operations update in place, and the device grid that
    `term_buffer` points to is an array passed to the operations that write
    it. Each method is proved to move the console exactly as a function of
    KernelModel does: WriteString as Write of the bytes before the first
    NUL, and PutEntryAt, CtxInit, Init, PutLf, PutChar and Write as the
    function of the same name.
    SetColor states the new fields directly, and KernelMain the final
    grid. */
module Kernel {
  import opened Cell
  import CString
  import opened KernelModel

  /** `struct term_ctx`. */
  class TermCtx {
    var row: nat
    var column: nat
    var color: Byte

    /** The context with the grid `grid` as a value. */
    ghost function Model(grid: array<CellWord>): Console
      reads this, grid
    {
      Console(row, column, color, grid[..])
    }

    /** `term_put_entry_at`: store `c` in `color` at column `x` of row `y`. */
    static method PutEntryAt(grid: array<CellWord>, c: Byte, color: Byte, x: nat, y: nat)
      requires Index(x, y) < grid.Length
      modifies grid
      ensures grid[..] == KernelModel.PutEntryAt(old(grid[..]), c, color, x, y)
    {
      var index := y * Width + x;
      grid[index] := Entry(c, color);
    }

    /** A context with its fields not yet set, as `struct term_ctx ctx;`
        declares it. */
    constructor ()
    {
    }

    /** `term_ctx_init`: the cursor at the top left, light grey on black. */
    method CtxInit(grid: array<CellWord>)
      modifies this
      ensures Model(grid) == KernelModel.CtxInit(grid[..])
    {
      column := 0;
      row := 0;
      color := EntryColor(LightGrey, Black);
    }

    /** `term_init`: initialise the context, then blank all 25 x 80 cells of
        the grid in its colour, row by row. */
    method Init(grid: array<CellWord>)
      requires grid.Length == Height * Width
      modifies this, grid
      ensures Model(grid) == KernelModel.Init()
    {
      CtxInit(grid);
      var y := 0;
      while y < Height
        invariant y <= Height && row == 0 && column == 0 && color == DefaultColor
        invariant forall i :: 0 <= i < Index(0, y) ==> grid[i] == BlankCell
        modifies grid
      {
        var x := 0;
        while x < Width
          invariant x <= Width
          invariant forall i :: 0 <= i < Index(x, y) ==> grid[i] == BlankCell
          modifies grid
        {
          var index := y * Width + x;
          grid[index] := Entry(' ' as Byte, color);
          x := x + 1;
        }
        y := y + 1;
      }
      assert grid[..] == KernelModel.Init().grid;
    }

    /** `term_ctx_set_color`: the colour of the bytes written from now on. */
    method SetColor(c: Byte)
      modifies this
      ensures row == old(row) && column == old(column) && color == c
    {
      color := c;
    }

    /** `term_put_lf`. */
    method PutLf(ghost grid: array<CellWord>)
      requires Valid(Model(grid))
      modifies this
      ensures Model(grid) == KernelModel.PutLf(old(Model(grid)))
    {
      row := row + 1;
      if row >= Height {
        row := 0;
      }
      column := 0;
    }

    /** `term_put_char`. */
    method PutChar(grid: array<CellWord>, c: Byte)
      requires Valid(Model(grid))
      modifies this, grid
      ensures Model(grid) == KernelModel.PutChar(old(Model(grid)), c)
    {
      if c == Newline {
        PutLf(grid);
      } else {
        IndexFits(column, row);
        PutEntryAt(grid, c, color, column, row);
        column := column + 1;
      }
      if column >= Width {
        column := 0;
        row := row + 1;
        if row >= Height {
          row := 0;
        }
      }
    }

    /** `term_write`: put the first `size` bytes of `data` in order. */
    method Write(grid: array<CellWord>, data: array<Byte>, size: nat)
      requires Valid(Model(grid)) && size <= data.Length
      modifies this, grid
      ensures Model(grid) == KernelModel.Write(old(Model(grid)), data[..size])
    {
      var i := 0;
      assert data[..i] == [];
      while i < size
        invariant i <= size
        invariant Model(grid) == KernelModel.Write(old(Model(grid)), data[..i])
      {
        assert data[..i + 1][..i] == data[..i];
        PutChar(grid, data[i]);
        i := i + 1;
      }
    }

    /** `term_writestring`: write the C string in `str`. */
    method WriteString(grid: array<CellWord>, str: array<Byte>)
      requires Valid(Model(grid)) && CString.Terminated(str[..])
      modifies this, grid
      ensures Model(grid) == KernelModel.Write(old(Model(grid)), str[..CString.Length(str[..])])
    {
      var len := CString.StrLen(str);
      Write(grid, str, len);
    }
  }

  /** `kernel_main`: initialise a context over the device grid and write
      "Hello,\nkernel world!\n"; the grid then holds the two lines at the
      start of its first two rows and blanks everywhere else. */
  method KernelMain(grid: array<CellWord>)
    requires grid.Length == Height * Width
    modifies grid
    ensures forall i :: 0 <= i < grid.Length ==>
      grid[i] ==
        if i < |Hello| then Entry(Hello[i], DefaultColor)
        else if Width <= i < Width + |World| then Entry(World[i - Width], DefaultColor)
        else BlankCell
  {
    var ctx := new TermCtx();
    ctx.Init(grid);
    var text := CString.Ascii("Hello,\nkernel world!\n");
    var str := new Byte[|text| + 1]((i: nat) => if i < |text| then text[i] else 0);
    assert forall i :: 0 <= i < |text| ==> str[i] == text[i];
    assert str[..|text|] == text;
    CString.LengthIsFirstNul(str[..], |text|);
    ctx.WriteString(grid, str);
    HelloKernelWorld();
  }
}
