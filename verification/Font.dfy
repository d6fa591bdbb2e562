/** The 12 by 22 bitmap font: which pixels a text inks. */
module Fonts {
  import opened Integers
  import opened Framebuffer

  const GLYPH_WIDTH := 12
  const GLYPH_HEIGHT := 22
  const BYTES_PER_ROW := 6
  const BYTES_PER_GLYPH := 132
  const FONT_BYTES := 33792

  type Point = (uint32, uint32)

  // Where byte b of a row of the glyph of a code lies in the font.
  function GlyphIndex(code: nat, row: nat, b: nat): (k: nat)
    requires code < 256 && row < GLYPH_HEIGHT && b < BYTES_PER_ROW
    ensures k < FONT_BYTES
  {
    code * BYTES_PER_GLYPH + row * BYTES_PER_ROW + b
  }

  /** Glyphs follow one another by code, in each the rows from the top, in each row the bytes from the left. */
  lemma {:induction false} GlyphsInOrder(code: nat, row: nat, b: nat, code': nat, row': nat, b': nat)
    requires code < 256 && row < 22 && b < 6 && code' < 256 && row' < 22 && b' < 6
    ensures GlyphIndex(code, row, b) < GlyphIndex(code', row', b') <==>
            code < code' || (code == code' && (row < row' || (row == row' && b < b')))
  {}

  /** Every byte of the font belongs to a glyph. */
  lemma {:induction false} GlyphsCoverFont(k: nat) returns (code: nat, row: nat, b: nat)
    requires k < 33792
    ensures code < 256 && row < 22 && b < 6 && GlyphIndex(code, row, b) == k
  {
    code, row, b := k / 132, k % 132 / 6, k % 6;
  }

  // One byte holds two pixels of a glyph row; a pixel is inked when its half is not zero.
  function GlyphByte(font: seq<bv8>, c: char, row: nat, b: nat): bv8
    requires |font| == FONT_BYTES && row < GLYPH_HEIGHT && b < BYTES_PER_ROW
  {
    font[GlyphIndex(c as int % 256, row, b)]
  }

  predicate Ink(font: seq<bv8>, c: char, row: nat, col: nat)
    requires |font| == FONT_BYTES && row < GLYPH_HEIGHT && col < GLYPH_WIDTH
  {
    NibbleAt(GlyphByte(font, c, row, col / 2), col) > 0
  }

  // The points that drawing a text at (x, y) inks, row by row; coordinates wrap at 32 bits.
  ghost function RowInk(font: seq<bv8>, c: char, row: nat, x: uint32, y: uint32, cols: nat): set<Point>
    requires |font| == FONT_BYTES && row < GLYPH_HEIGHT && cols <= GLYPH_WIDTH
  {
    if cols == 0 then {}
    else RowInk(font, c, row, x, y, cols - 1)
         + if Ink(font, c, row, cols - 1) then {(Wrap(x + (cols - 1)), y)} else {}
  }

  ghost function CharInk(font: seq<bv8>, c: char, x: uint32, y: uint32, rows: nat): set<Point>
    requires |font| == FONT_BYTES && rows <= GLYPH_HEIGHT
  {
    if rows == 0 then {}
    else CharInk(font, c, x, y, rows - 1) + RowInk(font, c, rows - 1, x, Wrap(y + (rows - 1)), GLYPH_WIDTH)
  }

  ghost function TextInk(font: seq<bv8>, text: string, x: uint32, y: uint32): set<Point>
    requires |font| == FONT_BYTES
  {
    if text == [] then {}
    else
      var n := |text| - 1;
      TextInk(font, text[..n], x, y) + CharInk(font, text[n], Wrap(x + GLYPH_WIDTH * n), y, GLYPH_HEIGHT)
  }

  // Cell (row, col) of character i of the text, drawn at (x, y), is inked and lands on p.
  ghost predicate InkLands(font: seq<bv8>, text: string, x: uint32, y: uint32, i: int, row: int, col: int, p: Point)
    requires |font| == FONT_BYTES
  {
    0 <= i < |text| && 0 <= row < GLYPH_HEIGHT && 0 <= col < GLYPH_WIDTH
    && Ink(font, text[i], row, col) && p == (Wrap(x + GLYPH_WIDTH * i + col), Wrap(y + row))
  }

  lemma {:induction false} RowInkExactly(font: seq<bv8>, c: char, row: nat, x: uint32, y: uint32, cols: nat, p: Point)
    requires |font| == FONT_BYTES && row < GLYPH_HEIGHT && cols <= GLYPH_WIDTH
    ensures p in RowInk(font, c, row, x, y, cols) <==>
            exists col :: 0 <= col < cols && Ink(font, c, row, col) && p == (Wrap(x + col), y)
  {
    if cols > 0 {
      RowInkExactly(font, c, row, x, y, cols - 1, p);
    }
  }

  lemma {:induction false} RowInkByByte(font: seq<bv8>, c: char, row: nat, x: uint32, y: uint32, b: nat)
    requires |font| == FONT_BYTES && row < GLYPH_HEIGHT && b < BYTES_PER_ROW
    ensures RowInk(font, c, row, x, y, 2 * b + 1) == RowInk(font, c, row, x, y, 2 * b)
            + if (GlyphByte(font, c, row, b) >> 4) & 0x0F > 0 then {(Wrap(x + 2 * b), y)} else {}
    ensures RowInk(font, c, row, x, y, 2 * (b + 1)) == RowInk(font, c, row, x, y, 2 * b + 1)
            + if GlyphByte(font, c, row, b) & 0x0F > 0 then {(Wrap(x + (2 * b + 1)), y)} else {}
  {}

  lemma {:induction false} CharInkExactly(font: seq<bv8>, c: char, x: uint32, y: uint32, rows: nat, p: Point)
    requires |font| == FONT_BYTES && rows <= GLYPH_HEIGHT
    ensures p in CharInk(font, c, x, y, rows) <==>
            exists row, col :: 0 <= row < rows && 0 <= col < GLYPH_WIDTH
                               && Ink(font, c, row, col) && p == (Wrap(x + col), Wrap(y + row))
  {
    if rows > 0 {
      CharInkExactly(font, c, x, y, rows - 1, p);
      RowInkExactly(font, c, rows - 1, x, Wrap(y + (rows - 1)), GLYPH_WIDTH, p);
    }
  }

  lemma {:induction false} TextInkByChars(font: seq<bv8>, text: string, x: uint32, y: uint32, p: Point)
    requires |font| == FONT_BYTES
    ensures p in TextInk(font, text, x, y) <==>
            exists i :: 0 <= i < |text| && p in CharInk(font, text[i], Wrap(x + GLYPH_WIDTH * i), y, GLYPH_HEIGHT)
  {
    if text != [] {
      var n := |text| - 1;
      TextInkByChars(font, text[..n], x, y, p);
      assert forall i :: 0 <= i < n ==> text[..n][i] == text[i];
    }
  }

  lemma {:induction false} CharLands(font: seq<bv8>, text: string, x: uint32, y: uint32, i: nat, p: Point)
    requires |font| == FONT_BYTES && i < |text|
    ensures p in CharInk(font, text[i], Wrap(x + GLYPH_WIDTH * i), y, GLYPH_HEIGHT) <==>
            exists row, col :: InkLands(font, text, x, y, i, row, col, p)
  {
    CharInkExactly(font, text[i], Wrap(x + GLYPH_WIDTH * i), y, GLYPH_HEIGHT, p);
    forall row, col | 0 <= row < GLYPH_HEIGHT && 0 <= col < GLYPH_WIDTH
      ensures InkLands(font, text, x, y, i, row, col, p) <==>
              Ink(font, text[i], row, col) && p == (Wrap(Wrap(x + GLYPH_WIDTH * i) + col), Wrap(y + row))
    {
      WrapAdd(x + GLYPH_WIDTH * i, col);
    }
  }

  /** Drawing inks exactly the inked cells of the glyphs, each glyph 12 pixels after the one before. */
  lemma {:induction false} TextInkExactly(font: seq<bv8>, text: string, x: uint32, y: uint32, p: Point)
    requires |font| == FONT_BYTES
    ensures p in TextInk(font, text, x, y) <==> exists i, row, col :: InkLands(font, text, x, y, i, row, col, p)
  {
    TextInkByChars(font, text, x, y, p);
    forall i | 0 <= i < |text|
      ensures p in CharInk(font, text[i], Wrap(x + GLYPH_WIDTH * i), y, GLYPH_HEIGHT) <==>
              exists row, col :: InkLands(font, text, x, y, i, row, col, p)
    {
      CharLands(font, text, x, y, i, p);
    }
  }

  // Drawing turned exactly these points black.
  ghost predicate Blackened(g: Geometry, before: seq<bv8>, after: seq<bv8>, ink: set<Point>) {
    Fits(g, before) && Fits(g, after)
    && forall x: uint32, y: uint32 :: OnScreen(g, x, y) ==>
         Pixel(g, after, x, y) == if (x, y) in ink then 0 else Pixel(g, before, x, y)
  }

  lemma {:induction false} BlackenOne(g: Geometry, before: seq<bv8>, after: seq<bv8>, ink: set<Point>, x: uint32,
                                      y: uint32)
    requires Blackened(g, before, after, ink)
    ensures Blackened(g, before, WithPixel(g, after, x, y, 0), ink + {(x, y)})
  {
    forall px: uint32, py: uint32 | OnScreen(g, px, py)
      ensures Pixel(g, WithPixel(g, after, x, y, 0), px, py) ==
              if (px, py) in ink + {(x, y)} then 0 else Pixel(g, before, px, py)
    {
      PixelAfterWrite(g, after, x, y, 0, px, py);
    }
  }

  lemma {:induction false} BlackenMore(g: Geometry, a: seq<bv8>, b: seq<bv8>, c: seq<bv8>, ink: set<Point>,
                                       more: set<Point>)
    requires Blackened(g, a, b, ink) && Blackened(g, b, c, more)
    ensures Blackened(g, a, c, ink + more)
  {}

  class FontRenderer {
    const font: seq<bv8>

    ghost predicate Valid() { |font| == FONT_BYTES }

    constructor (font: seq<bv8>)
      requires |font| == FONT_BYTES
      ensures Valid() && this.font == font
    {
      this.font := font;
    }

    // Sets one pixel black, whatever was inked before.
    method InkPixel(display: KindleDisplay, x: uint32, y: uint32, ghost before: seq<bv8>, ghost ink: set<Point>)
      requires display.Valid() && Blackened(display.bounds, before, display.Bytes(), ink)
      modifies display.memory
      ensures Blackened(display.bounds, before, display.Bytes(), ink + {(x, y)})
    {
      BlackenOne(display.bounds, before, display.Bytes(), ink, x, y);
      display.SetPixel(x, y, 0x00);
    }

    method RenderGlyphRow(display: KindleDisplay, x: uint32, y: uint32, c: char, row: nat)
      requires Valid() && display.Valid() && row < GLYPH_HEIGHT
      modifies display.memory
      ensures Blackened(display.bounds, old(display.Bytes()), display.Bytes(),
                        RowInk(font, c, row, x, y, GLYPH_WIDTH))
    {
      var byteIdx := 0;
      while byteIdx < BYTES_PER_ROW
        invariant 0 <= byteIdx <= BYTES_PER_ROW
        invariant Blackened(display.bounds, old(display.Bytes()), display.Bytes(),
                            RowInk(font, c, row, x, y, 2 * byteIdx))
      {
        ghost var ink := RowInk(font, c, row, x, y, 2 * byteIdx);
        ghost var half := RowInk(font, c, row, x, y, 2 * byteIdx + 1);
        RowInkByByte(font, c, row, x, y, byteIdx);
        var byteVal := GlyphByte(font, c, row, byteIdx);
        var leftNibble := (byteVal >> 4) & 0x0F;
        var rightNibble := byteVal & 0x0F;
        if leftNibble > 0 {
          InkPixel(display, Wrap(x + 2 * byteIdx), y, old(display.Bytes()), ink);
        }
        if rightNibble > 0 {
          InkPixel(display, Wrap(x + (2 * byteIdx + 1)), y, old(display.Bytes()), half);
        }
        byteIdx := byteIdx + 1;
      }
    }

    method DrawChar(display: KindleDisplay, x: uint32, y: uint32, c: char)
      requires Valid() && display.Valid()
      modifies display.memory
      ensures Blackened(display.bounds, old(display.Bytes()), display.Bytes(), CharInk(font, c, x, y, GLYPH_HEIGHT))
    {
      var row := 0;
      while row < GLYPH_HEIGHT
        invariant 0 <= row <= GLYPH_HEIGHT
        invariant Blackened(display.bounds, old(display.Bytes()), display.Bytes(), CharInk(font, c, x, y, row))
      {
        ghost var before := display.Bytes();
        RenderGlyphRow(display, x, Wrap(y + row), c, row);
        BlackenMore(display.bounds, old(display.Bytes()), before, display.Bytes(),
                    CharInk(font, c, x, y, row), RowInk(font, c, row, x, Wrap(y + row), GLYPH_WIDTH));
        row := row + 1;
      }
    }

    method DrawString(display: KindleDisplay, x: uint32, y: uint32, text: string)
      requires Valid() && display.Valid()
      modifies display.memory
      ensures Blackened(display.bounds, old(display.Bytes()), display.Bytes(), TextInk(font, text, x, y))
    {
      var currentX := x;
      var i := 0;
      while i < |text|
        invariant 0 <= i <= |text|
        invariant currentX == Wrap(x + GLYPH_WIDTH * i)
        invariant Blackened(display.bounds, old(display.Bytes()), display.Bytes(), TextInk(font, text[..i], x, y))
      {
        ghost var before := display.Bytes();
        DrawChar(display, currentX, y, text[i]);
        BlackenMore(display.bounds, old(display.Bytes()), before, display.Bytes(),
                    TextInk(font, text[..i], x, y), CharInk(font, text[i], currentX, y, GLYPH_HEIGHT));
        WrapAdd(x + GLYPH_WIDTH * i, GLYPH_WIDTH);
        currentX := Wrap(currentX + GLYPH_WIDTH);
        assert text[..i + 1][..i] == text[..i];
        i := i + 1;
      }
      assert text[..i] == text;
    }
  }
}
