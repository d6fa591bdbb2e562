/** The C program's status bar: extract the rows, draw over them, blit them back. */
module LegacyStatusBars {
  import opened Integers
  import opened Framebuffer
  import opened Pixmaps

  const STATUSBAR_HEIGHT := 30

  lemma {:induction false} CellsDetermineBytes(stride: nat, h: nat, a: seq<bv8>, b: seq<bv8>)
    requires |a| == |b| == Rows(stride, h)
    requires forall r: nat, c: nat :: r < h && c < stride ==> Cell(stride, a, r, c) == Cell(stride, b, r, c)
    ensures a == b
  {
    forall k | 0 <= k < |a|
      ensures a[k] == b[k]
    {
      var r, c := CellOf(k, stride, h);
      assert Cell(stride, a, r, c) == Cell(stride, b, r, c);
    }
  }

  // Only bytes of the window at (x, y), as large as a saved pixmap, have changed.
  ghost predicate ChangedInWindow(w: nat, h: nat, before: seq<bv8>, after: seq<bv8>, x: int, y: int, sw: nat, sh: nat) {
    |before| == |after|
    && forall r: nat, c: nat :: r < h && c < ByteWidth(w) && !InRectangle(r, c, y, HalfDown(x), sh, ByteWidth(sw)) ==>
         Cell(ByteWidth(w), after, r, c) == Cell(ByteWidth(w), before, r, c)
  }

  /** Extract a window, change anything inside it, blit it back at the same non-negative position: the
      surface is as it was, for every size, odd positions and windows partly off the surface included. */
  lemma {:induction false} ExtractThenBlitRestores(w: nat, h: nat, surface: seq<bv8>, drawn: seq<bv8>,
                                                   restored: seq<bv8>, x: nat, y: nat, sw: nat, sh: nat,
                                                   buffer: seq<bv8>, saved: seq<bv8>)
    requires |surface| == Rows(ByteWidth(w), h)
    requires Extracted(sw, sh, buffer, saved, x, y, w, h, surface)
    requires ChangedInWindow(w, h, surface, drawn, x, y, sw, sh)
    requires Blitted(w, h, drawn, restored, x, y, sw, sh, saved)
    ensures restored == surface
  {
    forall r: nat, c: nat | r < h && c < ByteWidth(w)
      ensures Cell(ByteWidth(w), restored, r, c) == Cell(ByteWidth(w), surface, r, c)
    {
      if InRectangle(r, c, y, HalfDown(x), sh, ByteWidth(sw)) {
        assert Cell(ByteWidth(sw), saved, r - y, c - HalfDown(x)) == Cell(ByteWidth(w), surface, r, c);
      } else {
        assert Cell(ByteWidth(w), drawn, r, c) == Cell(ByteWidth(w), surface, r, c);
      }
    }
    CellsDetermineBytes(ByteWidth(w), h, restored, surface);
  }

  // Only rows y0 to y0 + rows - 1 have changed.
  ghost predicate ChangedInRows(w: nat, h: nat, before: seq<bv8>, after: seq<bv8>, y0: int, rows: int) {
    |before| == |after|
    && forall r: nat, c: nat :: r < h && c < ByteWidth(w) && !(y0 <= r < y0 + rows) ==>
         Cell(ByteWidth(w), after, r, c) == Cell(ByteWidth(w), before, r, c)
  }

  // 256 glyphs of one size, none of them sharing its bytes with the surface.
  ghost predicate GlyphsFor(surface: Pixmap, glyphs: seq<Pixmap>, gw: nat, gh: nat) {
    |glyphs| == 256 && gw > 2
    && forall i :: 0 <= i < |glyphs| ==> glyphs[i].Valid() && glyphs[i].surf != surface.surf
                                         && glyphs[i].width == gw && glyphs[i].height == gh
  }

  // The bytes of every glyph.
  ghost function FontOf(glyphs: seq<Pixmap>): (font: seq<seq<bv8>>)
    reads set g | g in glyphs :: g.surf
    ensures |font| == |glyphs| && forall i :: 0 <= i < |font| ==> font[i] == glyphs[i].surf[..]
  {
    if glyphs == [] then [] else FontOf(glyphs[..|glyphs| - 1]) + [glyphs[|glyphs| - 1].surf[..]]
  }

  // The code of character i; behind the last one comes the terminator.
  function CodeAt(text: string, i: nat): (code: nat)
    ensures code < 256
  {
    if i < |text| then text[i] as int % 256 else 0
  }

  // Byte (r, c) of the surface after the first n glyphs of the text were drawn from (x0, y0) on;
  // where two share a byte the later one shows.
  ghost function TextCell(cell: bv8, font: seq<seq<bv8>>, gw: nat, gh: nat, x0: nat, y0: int, text: string,
                          n: nat, r: nat, c: nat): bv8
    requires |font| == 256
  {
    if n == 0 then cell
    else
      var first := HalfDown(x0 + Rows(gw, n - 1));
      if InRectangle(r, c, y0, first, gh, ByteWidth(gw))
      then Cell(ByteWidth(gw), font[CodeAt(text, n - 1)], r - y0, c - first)
      else TextCell(cell, font, gw, gh, x0, y0, text, n - 1, r, c)
  }

  // Glyph i of a text, gw columns behind the one before it, covers byte column c of the surface.
  predicate GlyphCovers(x0: nat, gw: nat, i: nat, c: nat) {
    (x0 + i * gw) / 2 <= c < (x0 + i * gw) / 2 + (gw + 1) / 2
  }

  /** What a drawn text leaves in a byte: that of the last glyph which covers it. */
  lemma {:induction false} LastGlyphShows(cell: bv8, font: seq<seq<bv8>>, gw: nat, gh: nat, x0: nat, y0: int,
                                          text: string, n: nat, r: nat, c: nat, i: nat)
    requires |font| == 256 && i < n && y0 <= r < y0 + gh
    requires GlyphCovers(x0, gw, i, c) && forall j :: i < j < n ==> !GlyphCovers(x0, gw, j, c)
    ensures TextCell(cell, font, gw, gh, x0, y0, text, n, r, c) ==
            Cell((gw + 1) / 2, font[if i < |text| then text[i] as int % 256 else 0], r - y0, c - (x0 + i * gw) / 2)
  {
    RowsIsProduct(gw, n - 1);
    if i < n - 1 {
      assert !GlyphCovers(x0, gw, n - 1, c);
      LastGlyphShows(cell, font, gw, gh, x0, y0, text, n - 1, r, c, i);
    }
  }

  ghost predicate TextDrawn(w: nat, h: nat, before: seq<bv8>, after: seq<bv8>,
                            font: seq<seq<bv8>>, gw: nat, gh: nat, x0: nat, y0: int, text: string, n: nat)
    requires |font| == 256
  {
    |before| == |after|
    && forall r: nat, c: nat :: r < h && c < ByteWidth(w) ==>
         Cell(ByteWidth(w), after, r, c) ==
         TextCell(Cell(ByteWidth(w), before, r, c), font, gw, gh, x0, y0, text, n, r, c)
  }

  lemma {:induction false} OneMoreGlyph(w: nat, h: nat, before: seq<bv8>, mid: seq<bv8>, after: seq<bv8>,
                                        font: seq<seq<bv8>>, gw: nat, gh: nat, x0: nat, y0: int, text: string, n: nat)
    requires |font| == 256 && TextDrawn(w, h, before, mid, font, gw, gh, x0, y0, text, n)
    requires Blitted(w, h, mid, after, x0 + Rows(gw, n), y0, gw, gh, font[CodeAt(text, n)])
    ensures TextDrawn(w, h, before, after, font, gw, gh, x0, y0, text, n + 1)
  {
    forall r: nat, c: nat | r < h && c < ByteWidth(w)
      ensures Cell(ByteWidth(w), after, r, c) ==
              TextCell(Cell(ByteWidth(w), before, r, c), font, gw, gh, x0, y0, text, n + 1, r, c)
    {}
  }

  // The loop over the characters, which draws at least one glyph.
  method DrawGlyphs(surface: Pixmap, glyphs: seq<Pixmap>, gw: nat, gh: nat, x0: nat, y0: int, text: string, n: nat)
    requires surface.Valid() && GlyphsFor(surface, glyphs, gw, gh)
    modifies surface.surf
    ensures TextDrawn(surface.width, surface.height, old(surface.surf[..]), surface.surf[..],
                      old(FontOf(glyphs)), gw, gh, x0, y0, text, Max(1, n))
  {
    ghost var font := FontOf(glyphs);
    var x := x0;
    var i := 0;
    var more := true;
    while more
      invariant 0 <= i && (if more then i < Max(1, n) else i == Max(1, n))
      invariant x == x0 + Rows(gw, i)
      invariant TextDrawn(surface.width, surface.height, old(surface.surf[..]), surface.surf[..],
                          font, gw, gh, x0, y0, text, i)
      decreases Max(1, n) - i
    {
      var glyph := glyphs[CodeAt(text, i)];
      assert glyph.surf[..] == font[CodeAt(text, i)];
      ghost var mid := surface.surf[..];
      var drawn := PixBlt(surface, x, y0, glyph);
      OneMoreGlyph(surface.width, surface.height, old(surface.surf[..]), mid, surface.surf[..],
                   font, gw, gh, x0, y0, text, i);
      x := x + gw;
      i := i + 1;
      more := i < n;
    }
  }

  // Draws the characters that fit, and nothing when the first one does not; an empty text still draws
  // the glyph of its terminator.
  method ScreenStringAt(surface: Pixmap, glyphs: seq<Pixmap>, gw: nat, gh: nat, x0: nat, y0: int, text: string)
    returns (nchars: nat)
    requires surface.Valid() && GlyphsFor(surface, glyphs, gw, gh)
    modifies surface.surf
    ensures y0 + gh > surface.height || x0 + gw > surface.width ==>
              surface.surf[..] == old(surface.surf[..]) && nchars == 0
    ensures y0 + gh <= surface.height && x0 + gw <= surface.width ==>
              && nchars == Min((surface.width - x0) / (gw - 2), |text|)
              && TextDrawn(surface.width, surface.height, old(surface.surf[..]), surface.surf[..],
                           old(FontOf(glyphs)), gw, gh, x0, y0, text, Max(1, nchars))
  {
    nchars := 0;
    if y0 + gh <= surface.height {
      if x0 + gw <= surface.width {
        var n := (surface.width - x0) / (gw - 2);
        if n > |text| {
          n := |text|;
        }
        nchars := n;
        DrawGlyphs(surface, glyphs, gw, gh, x0, y0, text, n);
      }
    }
  }

  lemma {:induction false} TextCellOutside(cell: bv8, font: seq<seq<bv8>>, gw: nat, gh: nat, x0: nat, y0: int,
                                           text: string, n: nat, r: nat, c: nat)
    requires |font| == 256 && !(y0 <= r < y0 + gh)
    ensures TextCell(cell, font, gw, gh, x0, y0, text, n, r, c) == cell
  {
    if n > 0 {
      TextCellOutside(cell, font, gw, gh, x0, y0, text, n - 1, r, c);
    }
  }

  // Drawing a text touches the rows of its glyphs only.
  lemma {:induction false} TextStaysInRows(w: nat, h: nat, before: seq<bv8>, after: seq<bv8>, font: seq<seq<bv8>>,
                                           gw: nat, gh: nat, x0: nat, y0: int, text: string, n: nat)
    requires |font| == 256 && TextDrawn(w, h, before, after, font, gw, gh, x0, y0, text, n)
    ensures ChangedInRows(w, h, before, after, y0, gh)
  {
    forall r: nat, c: nat | r < h && c < ByteWidth(w) && !(y0 <= r < y0 + gh)
      ensures Cell(ByteWidth(w), after, r, c) == Cell(ByteWidth(w), before, r, c)
    {
      TextCellOutside(Cell(ByteWidth(w), before, r, c), font, gw, gh, x0, y0, text, n, r, c);
    }
  }

  lemma {:induction false} StillInRows(w: nat, h: nat, before: seq<bv8>, mid: seq<bv8>, after: seq<bv8>, y0: int,
                                       rows: int)
    requires ChangedInRows(w, h, before, mid, y0, rows) && ChangedInRows(w, h, mid, after, y0, rows)
    ensures ChangedInRows(w, h, before, after, y0, rows)
  {
    forall r: nat, c: nat | r < h && c < ByteWidth(w) && !(y0 <= r < y0 + rows)
      ensures Cell(ByteWidth(w), after, r, c) == Cell(ByteWidth(w), before, r, c)
    {
      assert Cell(ByteWidth(w), mid, r, c) == Cell(ByteWidth(w), before, r, c);
    }
  }

  method StatusbarShow(surface: Pixmap) returns (saved: Pixmap)
    requires surface.Valid()
    modifies surface.surf
    ensures fresh(saved) && fresh(saved.surf) && saved.Valid()
    ensures saved.width == surface.width && saved.height == STATUSBAR_HEIGHT
    ensures Extracted(surface.width, STATUSBAR_HEIGHT, seq(|saved.surf[..]|, i => 0), saved.surf[..],
                      0, surface.height - STATUSBAR_HEIGHT, surface.width, surface.height, old(surface.surf[..]))
    ensures Filled(surface.width, surface.height, old(surface.surf[..]), surface.surf[..],
                   0, surface.height - STATUSBAR_HEIGHT, surface.width, STATUSBAR_HEIGHT, 0)
    ensures ChangedInRows(surface.width, surface.height, old(surface.surf[..]), surface.surf[..],
                          surface.height - STATUSBAR_HEIGHT, STATUSBAR_HEIGHT)
  {
    saved := new Pixmap(surface.width, STATUSBAR_HEIGHT);
    var copied := PixmapExtract(saved, 0, surface.height - STATUSBAR_HEIGHT, surface);
    var filled := PixFill(surface, 0, surface.height - STATUSBAR_HEIGHT, surface.width, STATUSBAR_HEIGHT, 0);
  }

  // The bar's text: the rows blanked, and the characters that fit drawn from column 30 on.
  ghost predicate BarText(w: nat, h: nat, before: seq<bv8>, after: seq<bv8>, font: seq<seq<bv8>>, gw: nat, gh: nat,
                          text: string)
    requires |font| == 256 && gw > 2
  {
    var y0 := h - STATUSBAR_HEIGHT;
    exists blank ::
      Filled(w, h, before, blank, 0, y0, w, STATUSBAR_HEIGHT, 0)
      && if y0 + gh <= h && 30 + gw <= w
         then TextDrawn(w, h, blank, after, font, gw, gh, 30, y0, text, Max(1, Min((w - 30) / (gw - 2), |text|)))
         else after == blank
  }

  method StatusbarText(surface: Pixmap, glyphs: seq<Pixmap>, gw: nat, gh: nat, text: string)
    requires surface.Valid() && GlyphsFor(surface, glyphs, gw, gh)
    modifies surface.surf
    ensures BarText(surface.width, surface.height, old(surface.surf[..]), surface.surf[..],
                    old(FontOf(glyphs)), gw, gh, text)
    ensures ChangedInRows(surface.width, surface.height, old(surface.surf[..]), surface.surf[..],
                          surface.height - STATUSBAR_HEIGHT, STATUSBAR_HEIGHT)
  {
    var y0 := surface.height - STATUSBAR_HEIGHT;
    var filled := PixFill(surface, 0, y0, surface.width, STATUSBAR_HEIGHT, 0);
    ghost var mid := surface.surf[..];
    ghost var font := FontOf(glyphs);
    var nchars := ScreenStringAt(surface, glyphs, gw, gh, 30, y0, text);
    if y0 + gh <= surface.height && 30 + gw <= surface.width {
      TextStaysInRows(surface.width, surface.height, mid, surface.surf[..],
                      font, gw, gh, 30, y0, text, Max(1, nchars));
    }
    StillInRows(surface.width, surface.height, old(surface.surf[..]), mid, surface.surf[..], y0, STATUSBAR_HEIGHT);
  }

  method StatusbarHide(surface: Pixmap, saved: Pixmap)
    requires surface.Valid() && saved.Valid() && saved.surf != surface.surf
    modifies surface.surf
    ensures Blitted(surface.width, surface.height, old(surface.surf[..]), surface.surf[..],
                    0, surface.height - STATUSBAR_HEIGHT, saved.width, saved.height, saved.surf[..])
  {
    var copied := PixBlt(surface, 0, surface.height - STATUSBAR_HEIGHT, saved);
  }

  /** Showing the bar, writing any texts and hiding it leaves the screen as it was if the screen is at
      least as high as the bar, whatever the glyph size; on a lower screen it blanks everything. */
  method ShowTextsHide(surface: Pixmap, glyphs: seq<Pixmap>, gw: nat, gh: nat, texts: seq<string>)
    requires surface.Valid() && GlyphsFor(surface, glyphs, gw, gh)
    modifies surface.surf
    ensures surface.surf[..] ==
            if surface.height >= STATUSBAR_HEIGHT then old(surface.surf[..]) else seq(|old(surface.surf[..])|, i => 0)
  {
    ghost var before := surface.surf[..];
    var y0 := surface.height - STATUSBAR_HEIGHT;
    var saved := StatusbarShow(surface);
    ghost var zeros := seq(|saved.surf[..]|, i => 0);
    ghost var kept := saved.surf[..];
    var i := 0;
    while i < |texts|
      invariant 0 <= i <= |texts| && saved.surf[..] == kept
      invariant ChangedInRows(surface.width, surface.height, before, surface.surf[..], y0, STATUSBAR_HEIGHT)
    {
      ghost var mid := surface.surf[..];
      StatusbarText(surface, glyphs, gw, gh, texts[i]);
      StillInRows(surface.width, surface.height, before, mid, surface.surf[..], y0, STATUSBAR_HEIGHT);
      i := i + 1;
    }
    ghost var drawn := surface.surf[..];
    StatusbarHide(surface, saved);
    HiddenScreen(surface.width, surface.height, before, drawn, surface.surf[..], zeros, kept);
  }

  lemma {:induction false} HiddenScreen(w: nat, h: nat, before: seq<bv8>, drawn: seq<bv8>, after: seq<bv8>,
                                        zeros: seq<bv8>, saved: seq<bv8>)
    requires |before| == Rows(ByteWidth(w), h)
    requires zeros == seq(|zeros|, i => 0)
    requires Extracted(w, STATUSBAR_HEIGHT, zeros, saved, 0, h - STATUSBAR_HEIGHT, w, h, before)
    requires ChangedInRows(w, h, before, drawn, h - STATUSBAR_HEIGHT, STATUSBAR_HEIGHT)
    requires Blitted(w, h, drawn, after, 0, h - STATUSBAR_HEIGHT, w, STATUSBAR_HEIGHT, saved)
    ensures after == if h >= STATUSBAR_HEIGHT then before else seq(|before|, i => 0)
  {
    if h >= STATUSBAR_HEIGHT {
      ExtractThenBlitRestores(w, h, before, drawn, after, 0, h - STATUSBAR_HEIGHT, w, STATUSBAR_HEIGHT, zeros, saved);
    } else {
      var blank := seq(|before|, i => 0);
      forall r: nat, c: nat | r < h && c < ByteWidth(w)
        ensures Cell(ByteWidth(w), after, r, c) == Cell(ByteWidth(w), blank, r, c)
      {
        var line := r - (h - STATUSBAR_HEIGHT);
        assert Cell(ByteWidth(w), saved, line, c) == Cell(ByteWidth(w), zeros, line, c) == 0;
      }
      CellsDetermineBytes(ByteWidth(w), h, after, blank);
    }
  }
}
