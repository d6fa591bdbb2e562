/** What a user sees of the status bar: the pixels it shows, and every update of the display. */
module BarFrames {
  import opened Integers
  import opened Framebuffer
  import opened Fonts
  import opened StatusBars

  // Cell (row, col) of character i is inked: the half byte that the font holds for it is not zero.
  predicate CellInked(font: seq<bv8>, text: string, i: int, row: int, col: int)
    requires |font| == 33792
  {
    0 <= i < |text| && 0 <= row < 22 && 0 <= col < 12
    && (var b := font[text[i] as int % 256 * 132 + row * 6 + col / 2] as int;
        if col % 2 == 0 then b / 16 != 0 else b % 16 != 0)
  }

  lemma {:induction false} CellInkedIsInk(font: seq<bv8>, text: string, i: int, row: int, col: int)
    requires |font| == FONT_BYTES && 0 <= i < |text| && 0 <= row < GLYPH_HEIGHT && 0 <= col < GLYPH_WIDTH
    ensures CellInked(font, text, i, row, col) <==> Ink(font, text[i], row, col)
  {
    HalvesOfByte(GlyphByte(font, text[i], row, col / 2), col);
  }

  // The column and the row where such a cell is drawn: 12 columns a character from column 30 on, one row
  // below the upper edge of a bar of 24 rows at the bottom of the screen.
  predicate CellAt(g: Geometry, i: int, row: int, col: int, x: uint32, y: uint32) {
    x == (30 + 12 * i + col) % 0x1_0000_0000
    && y == (if g.height > 24 then g.height - 24 else 0) + 1 + row
  }

  /** The pixels of a bar with a text: black where a cell of the text is inked, white elsewhere in the last 24
      rows, and unchanged above them. */
  lemma {:induction false} BarPixelShown(g: Geometry, font: seq<bv8>, mem: seq<bv8>, text: string, x: uint32, y: uint32)
    requires Fits(g, mem) && |font| == FONT_BYTES && OnScreen(g, x, y)
    ensures Pixel(g, TextPainted(g, font, mem, text), x, y) ==
            if y < g.height - 24 then Pixel(g, mem, x, y)
            else if exists i, row, col :: CellInked(font, text, i, row, col) && CellAt(g, i, row, col, x, y)
            then 0 else 255
  {
    var top := Wrap(Top(g) + 1);
    NoWrap(Top(g) + 1);
    PaintedPixel(g, mem, TextInk(font, text, 30, top), x, y);
    TextInkExactly(font, text, 30, top, (x, y));
    forall i, row, col
      ensures InkLands(font, text, 30, top, i, row, col, (x, y)) <==>
              CellInked(font, text, i, row, col) && CellAt(g, i, row, col, x, y)
    {
      CellLands(g, font, text, i, row, col, x, y);
    }
  }

  lemma {:induction false} CellLands(g: Geometry, font: seq<bv8>, text: string, i: int, row: int, col: int,
                                     x: uint32, y: uint32)
    requires |font| == FONT_BYTES
    ensures InkLands(font, text, 30, Wrap(Top(g) + 1), i, row, col, (x, y)) <==>
            CellInked(font, text, i, row, col) && CellAt(g, i, row, col, x, y)
  {
    if 0 <= i < |text| && 0 <= row < GLYPH_HEIGHT && 0 <= col < GLYPH_WIDTH {
      CellInkedIsInk(font, text, i, row, col);
      NoWrap(Top(g) + 1);
      NoWrap(Top(g) + 1 + row);
    }
  }

  // ---- Updates of the display ----

  // Painting the bar hides whatever it covered: over any overlay of a base it looks as over the base.
  lemma {:induction false} PaintedOverBase(g: Geometry, font: seq<bv8>, base: seq<bv8>, o: Overlay, text: string)
    requires Covers(g, base, o) && |font| == FONT_BYTES
    ensures TextPainted(g, font, o.mem, text) == TextPainted(g, font, base, text)
  {
    var ink := TextInk(font, text, 30, Wrap(Top(g) + 1));
    forall x: uint32, y: uint32 | OnScreen(g, x, y)
      ensures Pixel(g, Painted(g, o.mem, ink), x, y) == Pixel(g, Painted(g, base, ink), x, y)
    {
      PaintedPixel(g, o.mem, ink, x, y);
      PaintedPixel(g, base, ink, x, y);
    }
    PixelsDetermineBytes(g, Painted(g, o.mem, ink), Painted(g, base, ink));
  }

  /** Showing a text updates the display once, with the bar over the base, and activates the bar. */
  lemma {:induction false} ShowUpdates(g: Geometry, font: seq<bv8>, base: seq<bv8>, o: Overlay, text: string)
    requires Covers(g, base, o) && |font| == FONT_BYTES
    ensures var r := Shown(g, font, o, text);
            && Covers(g, base, r) && r.active && r.mem == TextPainted(g, font, base, text)
            && r.frames == o.frames + [r.mem]
  {
    OverlayKeepsBase(g, font, base, o, text, true);
    PaintedOverBase(g, font, base, o, text);
  }

  /** So does reporting a result. */
  lemma {:induction false} ResultUpdates(g: Geometry, font: seq<bv8>, base: seq<bv8>, o: Overlay, success: bool)
    requires Covers(g, base, o) && o.active && |font| == FONT_BYTES
    ensures var r := ResultShown(g, font, o, success);
            && Covers(g, base, r) && r.active
            && r.mem == TextPainted(g, font, base, if success then "Success!" else "Failure.")
            && r.frames == o.frames + [r.mem]
  {
    OverlayKeepsBase(g, font, base, o, "", success);
    PaintedOverBase(g, font, base, o, if success then "Success!" else "Failure.");
  }

  /** Hiding an active bar updates the display once, with the base, and deactivates it; hiding an inactive one
      does nothing. */
  lemma {:induction false} HideUpdates(g: Geometry, font: seq<bv8>, base: seq<bv8>, o: Overlay)
    requires Covers(g, base, o) && |font| == FONT_BYTES && g.width > 0
    ensures var r := Hidden(g, o);
            && Covers(g, base, r) && !r.active && r.mem == base
            && r.frames == if o.active then o.frames + [base] else o.frames
  {
    OverlayKeepsBase(g, font, base, o, "", true);
    RowsMonotone(g.width, 0, STATUS_BAR_HEIGHT);
  }

  // Every update showed the base, or the base with a bar; the last one is what the screen holds.
  ghost predicate FramesOver(g: Geometry, font: seq<bv8>, base: seq<bv8>, o: Overlay)
    requires Fits(g, base) && |font| == FONT_BYTES
  {
    && (forall k :: 0 <= k < |o.frames| ==> IsFrame(g, font, base, o.frames[k]))
    && o.mem == if o.frames == [] then base else o.frames[|o.frames| - 1]
  }

  ghost predicate IsFrame(g: Geometry, font: seq<bv8>, base: seq<bv8>, frame: seq<bv8>)
    requires Fits(g, base) && |font| == FONT_BYTES
  {
    frame == base || exists text :: frame == TextPainted(g, font, base, text)
  }

  lemma {:induction false} OneMoreFrame(g: Geometry, font: seq<bv8>, base: seq<bv8>, o: Overlay, r: Overlay)
    requires Fits(g, base) && |font| == FONT_BYTES && FramesOver(g, font, base, o)
    requires r.frames == o.frames + [r.mem] && IsFrame(g, font, base, r.mem)
    ensures FramesOver(g, font, base, r)
  {}

  lemma {:induction false} ShowKeepsFrames(g: Geometry, font: seq<bv8>, base: seq<bv8>, o: Overlay, text: string)
    requires Covers(g, base, o) && |font| == FONT_BYTES && FramesOver(g, font, base, o)
    ensures FramesOver(g, font, base, Shown(g, font, o, text))
  {
    ShowUpdates(g, font, base, o, text);
    OneMoreFrame(g, font, base, o, Shown(g, font, o, text));
  }

  lemma {:induction false} ResultKeepsFrames(g: Geometry, font: seq<bv8>, base: seq<bv8>, o: Overlay, success: bool)
    requires Covers(g, base, o) && o.active && |font| == FONT_BYTES && FramesOver(g, font, base, o)
    ensures FramesOver(g, font, base, ResultShown(g, font, o, success))
  {
    ResultUpdates(g, font, base, o, success);
    OneMoreFrame(g, font, base, o, ResultShown(g, font, o, success));
  }

  lemma {:induction false} HideKeepsFrames(g: Geometry, font: seq<bv8>, base: seq<bv8>, o: Overlay)
    requires Covers(g, base, o) && |font| == FONT_BYTES && FramesOver(g, font, base, o)
    ensures FramesOver(g, font, base, Hidden(g, o))
  {
    if o.active && o.saved != [] {
      WriteBackRestoresBase(g, base, o);
      OneMoreFrame(g, font, base, o, Hidden(g, o));
    }
  }
}
