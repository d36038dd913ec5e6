# A verified model of a toy x86 kernel's text consoles

This project models the text output of a small i386 kernel in Dafny and proves what its code promises. It has four parts:

- **Cell codec** (module `Cell`). It packs a foreground/background pair into an attribute byte (`fg | bg << 4`) and a glyph and attribute into a 16-bit screen cell (`c | color << 8`). Both are modelled with an explicit bitwise OR on naturals. Each packing is proved to equal the arithmetic sum and to decode back to its parts.
- **Bounded formatter** (module `Printf`). `vsnprintf` handles `%d`, `%x`/`%X`, `%%` and skips any other specifier. `ntoa` builds the digits least-significant first, reverses them with `out_rev`, and appends them until the count bound is reached.
  - Everything the formatter writes is specified by two functions. `Render` is the untruncated output of a format and its arguments; `Truncate` cuts it to the bound.
  - The array-writing methods are proved to leave exactly `Truncate(Render(...), cnt)` in the buffer and to touch no other byte.
- **Scrolling ring-buffer terminal** (`struct term` of vga.h and vga.c).
  - `VgaModel` models the terminal as a value, `TermState`. The main invariant is `row == (row_shift + row_screen) % row_n`.
  - `Vga` is the running terminal: class `Term` has the struct's fields and a backbuffer array. Each of its methods is proved to move the terminal exactly as a function of `VgaModel` does. The constructor gives `Initial`, `RefreshAll` gives `Refresh`, `PutStr` gives `Write` of the bytes before the first NUL, and `Printf` gives `Write` of `Truncate(Render(...))`. `PutLf`, `PutEntryAt`, `PutChar`, `Write`, `Clear` and `SetColor` give the function of the same name. The module-level `VgaFill` and `VgaClear` state the device grid they leave directly.
  - The memory-mapped device grid is an array passed to the operations that write it.
- **Earlier fixed-grid console** (kernel.c). `KernelModel` models it as a value. In `Kernel`, class `TermCtx` has the fields of `struct term_ctx` and writes the 25 x 80 grid array in place.
  - Bytes are written unfiltered and nothing scrolls.
  - The boot text "Hello,\nkernel world!\n" is proved to leave exactly two lines on the grid.

Bytes are `Byte = 0..255`, the bit pattern of a C `char`. The signed-`char` comparison `c >= 32` of vga.c:69 is modelled by `VgaModel.SignedChar`. Two behaviours of the code are worth stating outright:

- A non-printable byte still advances the column; only the cell write is skipped (vga.c:69, 98-99).
- The 25th line feed from `term_init` is the first to scroll, so `row_shift` is 1 after it (vga.c:52-59). `VgaModel.NewlinesFromInitial` states the exact position after `n` line feeds.

## Model

| member | source | states |
|---|---|---|
| Cell.EntryColor | vga.c:17-19 | the packed colour `fg \| bg << 4` equals `fg + 16*bg` and decodes back to `fg` and `bg` (the same packing is at kernel.c:32-34) |
| Cell.Entry | vga.c:20-22 | the cell `c \| color << 8` equals `c + 256*color`; its low byte is the glyph and its high byte the colour (the same packing is at kernel.c:36-38) |
| Cell.DisjointOr | vga.c:18 | OR-ing a value below 2^k with a multiple of 2^k is their sum, so the shift-and-or packing never loses bits |
| Cell.EveryAttributeIsAColourPair | vga.h:14-31 | every attribute byte is the packing of a pair of the 16 colours |
| Cell.EveryCellIsAnEntry | vga.c:20-22 | every 16-bit cell is the packing of its glyph and its colour |
| Cell.EntryInjective | vga.c:20-22 | two cells are equal exactly when their glyphs and colours are equal |
| CString.Length | kernel.c:40-46 | the length of a C string is the index of its first NUL byte: that byte is NUL and none before it is |
| CString.LengthIsFirstNul | kernel.c:40-46 | a NUL byte with no NUL before it is where the length stops |
| CString.StrLen | kernel.c:40-46 | the counting loop returns the index of the first NUL byte |
| Printf.IsDigit | printf.c:14-16 | a byte passes `is_digit` exactly when it is the character of one of the ten decimal digit values |
| Printf.IsHex | printf.c:21-23 | a byte passes `is_hex` exactly when, lower-cased, it is the character of one of the sixteen hexadecimal digit values |
| Printf.Digits | printf.c:50-59 | a number always has at least one digit, and 0 is written as exactly "0" |
| Printf.DigitsRoundTrip | printf.c:50-59 | reading the digit string back in the same base gives the number |
| Printf.DigitsHaveNoLeadingZero | printf.c:50-59 | the first digit is '0' exactly when the number is 0 |
| Printf.DigitsAreDigits | printf.c:52-53 | every digit passes `is_hex`, and every base-10 digit passes `is_digit`, and no digit is an upper-case letter, so `%X` also gives lower-case digits |
| Printf.DigitsFit | printf.c:5-9 | a number below 10^k has at most k digits in base 10 or 16 |
| Printf.WordDigitsFit | printf.c:5-9 | a 32-bit number has at most 10 digits, so the 32-byte digit buffers always keep a NUL terminator |
| Printf.OutRev | printf.c:25-35 | `out_rev` writes the reverse of the C string `src` into the first `strlen(src)` bytes of `buf` and leaves the rest of `buf` unchanged |
| Printf.ReverseReverse | printf.c:58-59 | reversing twice gives the original, so reversing the least-significant-first digits restores the written order |
| Printf.LeastSignificantFirst | printf.c:46-56 | the do-while loop leaves the digits of `num` in reverse order followed by zeros, and the digit count is below the buffer size |
| Printf.DigitString | printf.c:46-59 | after `out_rev`, the temporary buffer holds the digits of `num`, most significant first, as a C string |
| Printf.AppendBounded | printf.c:61-65 | the append loop copies a prefix of the C string to `buf` from `i_buf` and stops at `cnt`; the new index is `min(cnt, i_buf + strlen)` and no other byte changes |
| Printf.Ntoa | printf.c:37-66 | `ntoa` appends the prefix of `num`'s digits that fits below `cnt`, advances `i_buf` to `min(cnt, i_buf + ndigits)` and writes nothing else |
| Printf.TruncateThenAppend | printf.c:84 | cutting at the bound and then appending, then cutting again, is the same as cutting once at the end |
| Printf.RenderLiteral | printf.c:85-91 | a byte other than '%' is copied verbatim and scanning moves on by one |
| Printf.RenderNoArgument | printf.c:92-100 | `%%` emits one '%' and any other non-numeric specifier emits nothing; neither consumes an argument, and scanning moves on by two (printf.c:116) |
| Printf.RenderNumeric | printf.c:101-116 | `%d`, `%x` and `%X` consume one argument and emit its digits in base 10 or 16 |
| Printf.RenderPlain | printf.c:84-91 | a format without '%' renders to itself and needs no argument |
| Printf.RenderHasNoNul | printf.c:84-116 | the formatted text holds no NUL byte, so the zero right after it in a zero-filled buffer ends the C string |
| Printf.LiteralIsCut | printf.c:84-91 | "1234567" with `cnt = 5` is cut to "12345" |
| Printf.NumbersRender | printf.c:101-113 | 200 renders as "200" with `%d` and as "c8" with both `%x` and `%X` |
| Printf.EscapesAndUnknowns | printf.c:92-116 | "a%%b%qc" renders as "a%bc" and needs no argument |
| Printf.Vsnprintf | printf.c:81-119 | the buffer starts with the rendered text cut to `cnt` bytes; every byte after it keeps its old value, so no terminator is written |
| VgaModel.OffsetFits | vga.c:70-71 | a cell index `row * column_n + x` with `row < row_n` and `x < column_n` lies inside the backbuffer |
| VgaModel.Initial | vga.c:122-136 | `term_init` sets `row_n = 50`, `column_n = 80` and `row_screen_n = 25`, puts both cursors and the window at 0, sets light grey on black, zeroes every cell, and establishes the ring invariant |
| VgaModel.PutLf | vga.c:36-60 | a line feed keeps the ring invariant and the bounds, puts the column at 0, and changes only `row`, `column`, `row_shift`, `row_screen` and the cells |
| VgaModel.LineFeedBlanksOneRow | vga.c:37-47 | a line feed moves `row` to `(row + 1) % row_n`; every cell of that ring row becomes a light-grey-on-black blank, whatever the current colour, and no other cell changes |
| VgaModel.LineFeedMovesWindow | vga.c:49-59 | below the last screen row the window grows by one row; on the last screen row it scrolls, so `row_shift` moves on modulo `row_n` and `row_screen` stays |
| VgaModel.NewlinesFromInitial | vga.h:46-49 | after n line feeds from `term_init`, `row` is `n % 50`, `row_screen` is `min(n, 24)`, and the window has scrolled `n - min(n, 24)` times modulo 50; it starts moving only once the bottom of the screen is reached |
| VgaModel.Printable | vga.c:69 | the signed test `c >= 32 && c != 127` accepts exactly the bytes 32 to 126 |
| VgaModel.PutEntryAt | vga.c:62-74 | only the cells can change, and a non-printable byte changes nothing |
| VgaModel.EntryLandsOnScreenRow | vga.c:62-74 | a printable byte is stored as `vga_entry(c, color)` at column `x` of ring row `(row_shift + y) % row_n`, the `y`-th screen row; that index lies inside the backbuffer, and every other cell is kept |
| VgaModel.PutChar | vga.c:89-104 | after every byte the ring invariant holds and `column < column_n`; only the cursor, window and cells change |
| VgaModel.PrintableLandsAtCursor | vga.c:92-104 | a printable byte is stored as `vga_entry(c, color)` at `row * column_n + column`, which lies inside the buffer; then the column advances and a line feed follows when the row is full |
| VgaModel.UnprintableStillAdvances | vga.c:93-103 | a non-printable byte other than newline leaves the cells alone but still advances the column, with a line feed when the row is full |
| VgaModel.Write | vga.c:76-80 | writing any bytes keeps the invariant and changes only the cursor, window and cells |
| VgaModel.WriteAppend | vga.c:76-80 | writing two pieces one after the other is writing them joined |
| VgaModel.WriteOne | vga.c:76-80 | writing one byte is `term_put_char` of that byte |
| VgaModel.Clear | vga.c:138-141 | `term_clear` zeroes every cell and keeps the cursor, window, geometry and colour |
| VgaModel.SetColor | vga.c:148-150 | only the colour changes, and it decodes to the given foreground and background |
| VgaModel.Refresh | vga.c:110-120 | the device grid keeps its size, and the rows below the screen are unchanged |
| VgaModel.RefreshShowsWindow | vga.c:110-120 | device cell `i*80 + j` shows backbuffer cell `((i + row_shift) % row_n) * column_n + j` for every screen row `i` |
| VgaModel.RefreshIdempotent | vga.c:110-120 | refreshing twice gives the same grid as refreshing once |
| VgaModel.RefreshShowsCursorRow | vga.h:41-49 | the screen row of the cursor shows the ring row the cursor writes into |
| Vga.VgaFill | vga.c:8-15 | every one of the 25 x 80 device cells holds the given entry |
| Vga.VgaClear | vga.c:23-25 | every device cell is a light-grey-on-black blank |
| Vga.Term.constructor | vga.c:122-136 | the terminal over the given backbuffer is the initial terminal |
| Vga.Term.PutLf | vga.c:36-60 | the fields and backbuffer move exactly as `VgaModel.PutLf` says |
| Vga.Term.PutEntryAt | vga.c:67-74 | the backbuffer changes exactly as `VgaModel.PutEntryAt` says |
| Vga.Term.PutChar | vga.c:92-104 | the terminal moves exactly as `VgaModel.PutChar` says |
| Vga.Term.Write | vga.c:76-80 | the terminal moves as `VgaModel.Write` of the first `size` bytes |
| Vga.Term.PutStr | vga.c:85-87 | the terminal moves as `VgaModel.Write` of the bytes before the first NUL |
| Vga.Term.RefreshAll | vga.c:110-120 | the device grid becomes `VgaModel.Refresh` of the terminal; the terminal is unchanged |
| Vga.Term.Clear | vga.c:138-143 | the terminal becomes `VgaModel.Clear` of itself and the grid shows its refreshed window |
| Vga.Term.SetColor | vga.c:148-150 | the terminal becomes `VgaModel.SetColor` of itself |
| Vga.Term.Printf | vga.c:156-163 | the terminal receives exactly the formatted text cut to 255 bytes, and the device grid then shows its window |
| KernelModel.IndexFits | kernel.c:81 | `y * 80 + x` lies inside the 25 x 80 grid |
| KernelModel.CtxInit | kernel.c:57-61 | the cursor is at (0, 0) with light grey on black, and the grid is untouched |
| KernelModel.Init | kernel.c:65-74 | the cursor is at (0, 0), the colour is 0x07, and every one of the 25 x 80 cells is a blank in that colour |
| KernelModel.PutEntryAt | kernel.c:80-83 | cell `y * 80 + x` takes glyph `c` and colour `color` unfiltered, and no other cell changes |
| KernelModel.PutLf | kernel.c:85-91 | the row moves to `(row + 1) % 25`, the column to 0, and the grid does not change |
| KernelModel.PutChar | kernel.c:93-109 | after every byte `row < 25` and `column < 80`, and the colour is kept |
| KernelModel.EveryByteIsWritten | kernel.c:93-109 | any byte but a newline, control bytes included, is written at `row * 80 + column` in the current colour; then the column advances and wraps to the next row (row 24 wraps to row 0) at column 80 |
| KernelModel.Write | kernel.c:111-115 | writing keeps the cursor on the grid and keeps the colour |
| KernelModel.WriteAppend | kernel.c:111-115 | writing two pieces one after the other is writing them joined |
| KernelModel.WriteOne | kernel.c:111-115 | writing one byte is `term_put_char` of that byte |
| KernelModel.WriteWithinRow | kernel.c:98-100 | a text without newlines that fits in the rest of the row is copied into the row from the cursor on; the cursor moves past it and no other cell changes |
| KernelModel.FirstLine | kernel.c:124 | after "Hello,\n" from `term_init`, the cursor is at row 1, column 0, and only the first six cells of row 0 have been written |
| KernelModel.SecondLine | kernel.c:124 | from the start of row 1, "kernel world!\n" fills the first thirteen cells of that row and moves the cursor to row 2, column 0 |
| KernelModel.HelloKernelWorld | kernel.c:121-125 | after `term_init` and "Hello,\nkernel world!\n", the cursor is at row 2, column 0; row 0 starts with "Hello,", row 1 with "kernel world!", and every other cell is a blank |
| Kernel.TermCtx.PutEntryAt | kernel.c:80-83 | the grid changes exactly as `KernelModel.PutEntryAt` says |
| Kernel.TermCtx.CtxInit | kernel.c:57-61 | the context becomes `KernelModel.CtxInit` |
| Kernel.TermCtx.Init | kernel.c:65-74 | the context and grid become `KernelModel.Init` |
| Kernel.TermCtx.SetColor | kernel.c:76-78 | only the colour changes, to the given byte |
| Kernel.TermCtx.PutLf | kernel.c:85-91 | the context moves exactly as `KernelModel.PutLf` says |
| Kernel.TermCtx.PutChar | kernel.c:93-109 | the context and grid move exactly as `KernelModel.PutChar` says |
| Kernel.TermCtx.Write | kernel.c:111-115 | the context and grid move as `KernelModel.Write` of the first `size` bytes |
| Kernel.TermCtx.WriteString | kernel.c:117-119 | the context and grid move as `KernelModel.Write` of the bytes before the first NUL |
| Kernel.KernelMain | kernel.c:121-125 | the grid ends with "Hello," at the start of row 0, "kernel world!" at the start of row 1, and blanks everywhere else |

## Left out

- The memory-mapped device grid at 0xb8000 and its `volatile` accesses (vga.c:4, kernel.c:67). The grid is an ordinary array of 25 x 80 cells, passed to the operations that write it.
- The variadic machinery (`va_list`, `va_arg`, `va_end`; printf.c:105 and 118, vga.c:157-160). The arguments are an explicit sequence of 32-bit unsigned words (`Printf.Word`). `(long)va_arg(ap, size_t)` combined with the unsigned `base` makes `num % base` and `num /= base` unsigned on i386, so only the unsigned value matters.
- A format that ends in a lone '%'. It steps past the terminator and reads out of bounds (printf.c:92-93, 116). `Printf.WellFormed` excludes it as a precondition of `Vsnprintf`, `Render` and `Vga.Term.Printf`.
- Printf.Vsnprintf: the format is a byte sequence that ends at its first NUL byte or at its end.
- Printf.Vsnprintf: the precondition `ArgsNeeded(fmt, 0) <= |args|` follows the printf convention: every numeric conversion in the format has an argument, even one past the point where the output reaches `cnt`. The C loop (printf.c:84) stops at `cnt` and never reads those arguments, so calls that leave them out are outside the model. For example, "12345%d" with `cnt = 5` and no argument writes "12345" in C. The same holds for Vga.Term.Printf.
- Printf.Ntoa: `base` is required to be 10 or 16, the only bases `vsnprintf` passes. `strlen(tmp)`, evaluated on every pass of the append loop, is the fixed length of the digit string.
- Machine-width overflow of the `size_t` counters and indices. Integers are unbounded.
- The `row_screen_n - 1` underflow when `row_screen_n` is 0 (vga.c:52). `VgaModel.Layout` requires `1 <= row_screen_n <= row_n` and `column_n >= 1`.
- `VgaModel.Displayable` and the refresh operations require `column_n == VGA_WIDTH`, as vga.h:51-52 demands. They also require `row_screen_n <= VGA_HEIGHT`. That second bound is the model's own condition: it keeps `vga_refresh_all` inside the 25-row device grid, which `term_init` guarantees by setting `row_screen_n = VGA_HEIGHT`.
- Vga.Term.RefreshAll, Vga.Term.Clear and Vga.Term.Printf require the device grid to be a different array from the backbuffer. They are different memory regions in the source (vga.c:4 and 6).
- Build and declaration mismatches. printf.h declares an `snprintf` that is never defined, vga.c calls `vsnprintf` without a prototype, and vga.h:68 declares a one-colour `term_set_color`. The model follows the two-colour definition in vga.c:148-150.
- The boot role of `kernel_main` and the cross-compiler checks (kernel.c:5-11). `Kernel.KernelMain` only runs the boot text against a given grid.
- `strlen` comes from a strings.h that is not part of this model. It is modelled as the index of the first NUL byte, the same as `str_len` (kernel.c:40-46).
- Vga.Term.constructor: `term_init` takes the static `term_backbuffer` (vga.c:6, 131). The constructor receives that array as a parameter.
