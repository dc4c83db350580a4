/**
 The HD44780 text panel of bertos/drv/lcd_hd44.c. Display rows are interleaved in the controller's
 memory, and the driver remembers the controller's address so as not to set it every time.
 */
module Hd44780 {
  import opened Bytes
  import opened Division
  import opened Sequences

  const SPACE: Byte := 0x20
  const CELLS: nat := 128

  // ----- The controller -----

  /** Display memory, glyph memory, the address counter, and which memory it addresses. */
  datatype Controller = Controller(ddram: seq<Byte>, cgram: seq<Byte>, counter: nat, glyphs: bool) {

    ghost predicate Valid() {
      |ddram| == 128 && |cgram| == 64 && counter < 128 && (glyphs ==> counter < 64)
    }

    /** Set an address, clear, or do something that concerns neither memory. */
    function Command(v: Byte): (c: Controller)
      requires Valid()
      ensures c.Valid()
    {
      if v >= 0x80 then this.(counter := v - 0x80, glyphs := false)
      else if v >= 0x40 then this.(counter := v - 0x40, glyphs := true)
      else if v == 0x01 then Controller(Copies(SPACE, CELLS), cgram, 0, false)
      else this
    }

    /** A data byte goes to the counter's address, and the counter moves on over the two display lines. */
    function Data(d: Byte): (c: Controller)
      requires Valid()
      ensures c.Valid()
    {
      if glyphs then this.(cgram := cgram[counter := d], counter := (counter + 1) % 64)
      else this.(ddram := ddram[counter := d], counter := NextCell(counter))
    }
  }

  function NextCell(a: nat): (r: nat)
    requires a < 128
    ensures r < 128
  {
    if a == 0x27 then 0x40 else if a >= 0x67 then 0 else a + 1
  }

  // ----- Positions -----

  /** The panels the driver supports. */
  predicate Supported(rows: nat, cols: nat) {
    (rows == 2 || rows == 4) && (cols == 16 || cols == 20)
  }

  /** `col_address`. */
  function RowAddress(row: nat): Byte
    requires row < 4
  {
    if row == 0 then 0x80 else if row == 1 then 0xC0 else if row == 2 then 0x94 else 0xD4
  }

  /** `lcd_address`: the command that goes to position `a`. */
  function Address(rows: nat, cols: nat, a: nat): (v: Byte)
    requires Supported(rows, cols) && a < rows * cols
    ensures 0x80 <= v
  {
    RowAddress(a / cols) + a % cols
  }

  function Cell(rows: nat, cols: nat, a: nat): (c: nat)
    requires Supported(rows, cols) && a < rows * cols
    ensures c < 128
  {
    Address(rows, cols, a) - 0x80
  }

  /** The rows of a panel begin at 0x00, 0x40, 0x14 and 0x54 of display memory. */
  lemma CellIs(rows: nat, cols: nat, row: nat, col: nat)
    requires Supported(rows, cols) && row < rows && col < cols
    ensures row * cols + col < rows * cols
    ensures Cell(rows, cols, row * cols + col) == [0x00, 0x40, 0x14, 0x54][row] + col
  {
    Steps(row, rows, cols);
    Divides(row, cols, col);
  }

  lemma Steps(row: nat, rows: nat, cols: nat)
    requires row < rows
    ensures row * cols + cols <= rows * cols
  {
    assert (row + 1) * cols <= rows * cols;
  }

  /** No two positions share a cell. */
  lemma CellsDiffer(rows: nat, cols: nat, a: nat, b: nat)
    requires Supported(rows, cols) && a < rows * cols && b < rows * cols
    ensures Cell(rows, cols, a) == Cell(rows, cols, b) <==> a == b
  {
  }

  /** Inside a row the controller's next cell is the driver's next position. */
  lemma NextInRow(rows: nat, cols: nat, a: nat)
    requires Supported(rows, cols) && a < rows * cols && (a + 1) % cols != 0
    ensures a + 1 < rows * cols && Cell(rows, cols, a + 1) == NextCell(Cell(rows, cols, a))
  {
    if cols == 16 {
      Along16(a);
    } else {
      Along20(a);
    }
  }

  lemma Along16(a: nat)
    requires (a + 1) % 16 != 0
    ensures (a + 1) / 16 == a / 16 && (a + 1) % 16 == a % 16 + 1
  {
  }

  lemma Along20(a: nat)
    requires (a + 1) % 20 != 0
    ensures (a + 1) / 20 == a / 20 && (a + 1) % 20 == a % 20 + 1
  {
  }

  /** `glyph[..i]` written over `s` at `at`, and then one byte more. */
  lemma GlyphGrows(s: seq<Byte>, at: nat, glyph: seq<Byte>, i: nat)
    requires i < |glyph| && at + |glyph| <= |s|
    ensures (s[..at] + glyph[..i] + s[at + i..])[at + i := glyph[i]] == s[..at] + glyph[..i + 1] + s[at + i + 1..]
  {
  }

  /** Position by position, `screen` is what display memory holds. */
  ghost predicate Mirrors(rows: nat, cols: nat, ddram: seq<Byte>, screen: seq<Byte>)
    requires Supported(rows, cols) && |ddram| == 128
  {
    |screen| == rows * cols && forall a :: 0 <= a < |screen| ==> screen[a] == ddram[Cell(rows, cols, a)]
  }

  lemma BlankMirrors(rows: nat, cols: nat, ddram: seq<Byte>, screen: seq<Byte>)
    requires Supported(rows, cols) && |ddram| == 128 && |screen| == rows * cols
    requires forall i :: 0 <= i < |ddram| ==> ddram[i] == SPACE
    requires forall i :: 0 <= i < |screen| ==> screen[i] == SPACE
    ensures Mirrors(rows, cols, ddram, screen)
  {
  }

  lemma MirrorsWrite(rows: nat, cols: nat, ddram: seq<Byte>, screen: seq<Byte>, a: nat, c: Byte)
    requires Supported(rows, cols) && |ddram| == 128 && Mirrors(rows, cols, ddram, screen) && a < |screen|
    ensures Mirrors(rows, cols, ddram[Cell(rows, cols, a) := c], screen[a := c])
  {
    forall b | 0 <= b < |screen| ensures Cell(rows, cols, a) == Cell(rows, cols, b) <==> a == b {
      CellsDiffer(rows, cols, a, b);
    }
  }

  // ----- The driver -----

  class Panel {
    const rows: nat
    const cols: nat
    var chip: Controller
    var current: nat
    ghost var screen: seq<Byte>

    ghost predicate Valid()
      reads this
    {
      && Supported(rows, cols) && chip.Valid()
      && current < rows * cols
      && !chip.glyphs && chip.counter == Cell(rows, cols, current)
      && Mirrors(rows, cols, chip.ddram, screen)
    }

    /** `lcd_hw_init`, which clears the display. */
    constructor (rows: nat, cols: nat, chip: Controller)
      requires Supported(rows, cols) && chip.Valid()
      ensures Valid() && this.rows == rows && this.cols == cols
      ensures forall a :: 0 <= a < |screen| ==> screen[a] == SPACE
    {
      this.rows, this.cols := rows, cols;
      this.chip := chip.Command(0x38).Command(0x0F).Command(0x01).Command(0x06);
      current := 0;
      screen := Copies(SPACE, rows * cols);
      new;
      BlankMirrors(rows, cols, this.chip.ddram, screen);
    }

    /** `lcd_setReg`. */
    method SetReg(v: Byte)
      requires chip.Valid()
      modifies this`chip
      ensures chip == old(chip).Command(v)
    {
      chip := chip.Command(v);
    }

    /** `lcd_moveTo`. */
    method MoveTo(a: nat)
      requires Valid() && a < rows * cols
      modifies this`chip, this`current
      ensures Valid() && current == a
    {
      if a != current {
        SetReg(Address(rows, cols, a));
        current := a;
      }
    }

    /** `lcd_putc`. */
    method Putc(a: nat, c: Byte)
      requires Valid() && a < rows * cols
      modifies this
      ensures Valid() && screen == old(screen)[a := c]
    {
      if a != current {
        SetReg(Address(rows, cols, a));
      }
      MirrorsWrite(rows, cols, chip.ddram, screen, a, c);
      chip := chip.Data(c);
      screen := screen[a := c];
      current := a + 1;
      if current == cols * rows {
        current := 0;
      }
      if current % cols == 0 {
        SetReg(Address(rows, cols, current));
      } else {
        NextInRow(rows, cols, a);
      }
    }

    /** `lcd_remapChar`: the glyph is loaded and the display is where it was. */
    method RemapChar(glyph: seq<Byte>, code: nat)
      requires Valid() && |glyph| == 8 && code < 8
      modifies this`chip
      ensures Valid() && chip == old(chip).(cgram := chip.cgram)
      ensures chip.cgram == old(chip).cgram[..8 * code] + glyph + old(chip).cgram[8 * code + 8..]
    {
      SetReg(0x40 + 8 * code);
      ghost var before := chip.cgram;
      var i := 0;
      while i < 8
        invariant 0 <= i <= 8 && chip.Valid() && chip.glyphs && (i < 8 ==> chip.counter == 8 * code + i)
        invariant chip.ddram == old(chip).ddram
        invariant chip.cgram == before[..8 * code] + glyph[..i] + before[8 * code + i..]
      {
        GlyphGrows(before, 8 * code, glyph, i);
        chip := chip.Data(glyph[i]);
        i := i + 1;
      }
      assert glyph[..8] == glyph;
      SetReg(Address(rows, cols, current));
    }
  }
}
