/** VGA text-mode cell codec: a colour attribute byte packs a foreground and
    a background colour, and a 16-bit display cell packs a glyph byte and an
    attribute byte. */
module Cell {

  /** An 8-bit value (uint8_t, or the bit pattern of a C `char`). */
  type Byte = x: int | 0 <= x < 0x100

  /** A 16-bit display cell (uint16_t). */
  type CellWord = x: int | 0 <= x < 0x1_0000

  /** The sixteen identifiers of `enum vga_color`. */
  type Color = x: int | 0 <= x < 16

  const Black: Color := 0
  const Blue: Color := 1
  const Green: Color := 2
  const Cyan: Color := 3
  const Red: Color := 4
  const Magenta: Color := 5
  const Brown: Color := 6
  const LightGrey: Color := 7
  const DarkGrey: Color := 8
  const LightBlue: Color := 9
  const LightGreen: Color := 10
  const LightCyan: Color := 11
  const LightRed: Color := 12
  const LightMagenta: Color := 13
  const LightBrown: Color := 14
  const White: Color := 15

  /** Foreground colour held in the low nibble of an attribute byte. */
  function Foreground(attr: Byte): Color { attr % 16 }

  /** Background colour held in the high nibble of an attribute byte. */
  function Background(attr: Byte): Color { attr / 16 }

  /** Glyph held in the low byte of a cell. */
  function Glyph(cell: CellWord): Byte { cell % 0x100 }

  /** Attribute held in the high byte of a cell. */
  function Attribute(cell: CellWord): Byte { cell / 0x100 }

  /** 2 to the power `k`: `x << k` is `x * Pow2(k)` on non-negative values. */
  function Pow2(k: nat): (p: nat)
    ensures p >= 1
  {
    if k == 0 then 1 else 2 * Pow2(k - 1)
  }

  /** The C operator `|` on non-negative integers, one bit at a time from the
      least significant end. */
  function BitOr(a: nat, b: nat): nat
    decreases a + b
  {
    if a == 0 then b
    else if b == 0 then a
    else 2 * BitOr(a / 2, b / 2) + (if a % 2 == 1 || b % 2 == 1 then 1 else 0)
  }

  /** `vga_entry_color`: `fg | bg << 4`, narrowed to uint8_t. */
  function EntryColor(fg: Color, bg: Color): (attr: Byte)
    ensures attr == fg + 16 * bg
    ensures Foreground(attr) == fg && Background(attr) == bg
  {
    PackColor(fg, bg);
    BitOr(fg, bg * Pow2(4)) % 0x100
  }

  /** `vga_entry`: `(uint16_t) c | (uint16_t) color << 8`, narrowed to
      uint16_t. The glyph takes the low byte and the attribute the high
      byte, and both can be read back. */
  function Entry(c: Byte, attr: Byte): (cell: CellWord)
    ensures cell == c + 0x100 * attr
    ensures Glyph(cell) == c && Attribute(cell) == attr
  {
    PackCell(c, attr);
    BitOr(c, attr * Pow2(8)) % 0x1_0000
  }

  /** `fg | bg << 4` is the byte `fg + 16 * bg`, whose nibbles are `fg`
      and `bg`. */
  lemma PackColor(fg: Color, bg: Color)
    ensures BitOr(fg, bg * Pow2(4)) == fg + 16 * bg < 0x100
    ensures (fg + 16 * bg) % 16 == fg && (fg + 16 * bg) / 16 == bg
  {
    assert Pow2(4) == 16;
    DisjointOr(fg, bg, 4);
  }

  /** `c | attr << 8` is the word `c + 0x100 * attr`, whose bytes are `c`
      and `attr`. */
  lemma PackCell(c: Byte, attr: Byte)
    ensures BitOr(c, attr * Pow2(8)) == c + 0x100 * attr < 0x1_0000
    ensures (c + 0x100 * attr) % 0x100 == c && (c + 0x100 * attr) / 0x100 == attr
  {
    assert Pow2(8) == 0x100;
    DisjointOr(c, attr, 8);
  }

  /** When `a` fits below bit `k`, or-ing it with a value shifted left by `k`
      is an addition: the two operands have no bit in common. */
  lemma {:induction false} DisjointOr(a: nat, b: nat, k: nat)
    requires a < Pow2(k)
    ensures BitOr(a, b * Pow2(k)) == a + b * Pow2(k)
    decreases k
  {
    if k == 0 || a == 0 || b == 0 {
      assert k == 0 ==> a == 0;
    } else {
      var p := Pow2(k - 1);
      assert b * Pow2(k) == 2 * (b * p);
      assert (2 * (b * p)) / 2 == b * p && (2 * (b * p)) % 2 == 0;
      DisjointOr(a / 2, b, k - 1);
    }
  }

  /** Every attribute byte is the packing of exactly one colour pair: the
      sixteen colour identifiers fill a nibble each and a pair fills the byte. */
  lemma EveryAttributeIsAColourPair(attr: Byte)
    ensures EntryColor(Foreground(attr), Background(attr)) == attr
  {
  }

  /** Every cell is the packing of exactly one (glyph, attribute) pair. */
  lemma EveryCellIsAnEntry(cell: CellWord)
    ensures Entry(Glyph(cell), Attribute(cell)) == cell
  {
  }

  /** Distinct (glyph, attribute) pairs give distinct cells. */
  lemma EntryInjective(c1: Byte, a1: Byte, c2: Byte, a2: Byte)
    ensures Entry(c1, a1) == Entry(c2, a2) <==> c1 == c2 && a1 == a2
  {
  }

  /** The attribute written by default: light grey on black (0x07). */
  const DefaultColor: Byte := EntryColor(LightGrey, Black)

  /** A blank cell: a space in the default attribute (0x0720). */
  const BlankCell: CellWord := Entry(' ' as Byte, DefaultColor)

  /** The smaller of two naturals. */
  function Min(a: nat, b: nat): nat { if a <= b then a else b }

  /** The newline byte, which both consoles treat as a line feed. */
  const Newline: Byte := '\n' as Byte
}
