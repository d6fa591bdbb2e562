/** The status bar: saves the screen's last rows, draws over them and restores them. */
module StatusBars {
  import opened Integers
  import opened Framebuffer
  import opened Fonts

  const STATUS_BAR_HEIGHT := 24

  // The first row of the bar.
  function Top(g: Geometry): uint32 {
    if g.height > STATUS_BAR_HEIGHT then g.height - STATUS_BAR_HEIGHT else 0
  }

  predicate InBar(g: Geometry, y: int) { Top(g) <= y < Top(g) + STATUS_BAR_HEIGHT }

  // The bar's state, the screen under it, and what the screen held at each update of the display.
  datatype Overlay = Overlay(active: bool, saved: seq<bv8>, mem: seq<bv8>, frames: seq<seq<bv8>>)

  // The display updated with these bytes.
  function Updated(o: Overlay, mem: seq<bv8>): Overlay { o.(mem := mem, frames := o.frames + [mem]) }

  // ---- The saved pixels, a flat sequence of rows ----

  function BarSize(g: Geometry): nat { Rows(g.width, STATUS_BAR_HEIGHT) }

  function RowPixels(g: Geometry, mem: seq<bv8>, row: nat, n: nat): (p: seq<bv8>)
    requires Fits(g, mem) && row < STATUS_BAR_HEIGHT && n <= g.width
    ensures |p| == n
  {
    if n == 0 then [] else RowPixels(g, mem, row, n - 1) + [Pixel(g, mem, n - 1, Top(g) + row)]
  }

  function RowsPixels(g: Geometry, mem: seq<bv8>, rows: nat): (p: seq<bv8>)
    requires Fits(g, mem) && rows <= STATUS_BAR_HEIGHT
    ensures |p| == Rows(g.width, rows)
  {
    if rows == 0 then [] else RowsPixels(g, mem, rows - 1) + RowPixels(g, mem, rows - 1, g.width)
  }

  // The pixels of the bar, row by row.
  function BarPixels(g: Geometry, mem: seq<bv8>): seq<bv8>
    requires Fits(g, mem)
  {
    RowsPixels(g, mem, STATUS_BAR_HEIGHT)
  }

  lemma {:induction false} RowPixelAt(g: Geometry, mem: seq<bv8>, row: nat, n: nat, x: nat)
    requires Fits(g, mem) && row < STATUS_BAR_HEIGHT && x < n <= g.width
    ensures RowPixels(g, mem, row, n)[x] == Pixel(g, mem, x, Top(g) + row)
  {
    if x < n - 1 {
      RowPixelAt(g, mem, row, n - 1, x);
    }
  }

  /** Where the saved pixels hold a pixel of the bar. */
  lemma {:induction false} SavedPixelAt(g: Geometry, mem: seq<bv8>, rows: nat, row: nat, x: nat)
    requires Fits(g, mem) && row < rows <= STATUS_BAR_HEIGHT && x < g.width
    ensures Rows(g.width, row) + x < Rows(g.width, rows)
    ensures RowsPixels(g, mem, rows)[Rows(g.width, row) + x] == Pixel(g, mem, x, Top(g) + row)
  {
    if row < rows - 1 {
      SavedPixelAt(g, mem, rows - 1, row, x);
    } else {
      RowPixelAt(g, mem, row, g.width, x);
    }
  }

  // ---- Writing them back ----

  function RowRestored(g: Geometry, mem: seq<bv8>, saved: seq<bv8>, row: nat, n: nat): (r: seq<bv8>)
    requires Fits(g, mem) && |saved| == BarSize(g) && row < STATUS_BAR_HEIGHT && n <= g.width
    ensures Fits(g, r)
  {
    if n == 0 then mem
    else
      RowsMonotone(g.width, row, STATUS_BAR_HEIGHT);
      WithPixel(g, RowRestored(g, mem, saved, row, n - 1), n - 1, Top(g) + row, saved[Rows(g.width, row) + (n - 1)])
  }

  function RowsRestored(g: Geometry, mem: seq<bv8>, saved: seq<bv8>, rows: nat): (r: seq<bv8>)
    requires Fits(g, mem) && |saved| == BarSize(g) && rows <= STATUS_BAR_HEIGHT
    ensures Fits(g, r)
  {
    if rows == 0 then mem else RowRestored(g, RowsRestored(g, mem, saved, rows - 1), saved, rows - 1, g.width)
  }

  function Restored(g: Geometry, mem: seq<bv8>, saved: seq<bv8>): (r: seq<bv8>)
    requires Fits(g, mem) && |saved| == BarSize(g)
    ensures Fits(g, r)
  {
    RowsRestored(g, mem, saved, STATUS_BAR_HEIGHT)
  }

  lemma {:induction false} RowRestoredPixel(g: Geometry, mem: seq<bv8>, saved: seq<bv8>, row: nat, n: nat, x: uint32,
                                            y: uint32)
    requires Fits(g, mem) && |saved| == BarSize(g) && row < STATUS_BAR_HEIGHT && n <= g.width && OnScreen(g, x, y)
    ensures Rows(g.width, row) + x < |saved|
    ensures Pixel(g, RowRestored(g, mem, saved, row, n), x, y) ==
            if y == Top(g) + row && x < n then Quantize(saved[Rows(g.width, row) + x]) else Pixel(g, mem, x, y)
  {
    RowsMonotone(g.width, row, STATUS_BAR_HEIGHT);
    if n > 0 {
      RowRestoredPixel(g, mem, saved, row, n - 1, x, y);
      PixelAfterWrite(g, RowRestored(g, mem, saved, row, n - 1), n - 1, Top(g) + row,
                      saved[Rows(g.width, row) + (n - 1)], x, y);
    }
  }

  lemma {:induction false} RestoredPixel(g: Geometry, mem: seq<bv8>, saved: seq<bv8>, rows: nat, x: uint32, y: uint32)
    requires Fits(g, mem) && |saved| == BarSize(g) && rows <= STATUS_BAR_HEIGHT && OnScreen(g, x, y)
    ensures Top(g) <= y < Top(g) + rows ==> Rows(g.width, y - Top(g)) + x < |saved|
    ensures Pixel(g, RowsRestored(g, mem, saved, rows), x, y) ==
            if Top(g) <= y < Top(g) + rows then Quantize(saved[Rows(g.width, y - Top(g)) + x])
            else Pixel(g, mem, x, y)
  {
    if rows > 0 {
      RestoredPixel(g, mem, saved, rows - 1, x, y);
      RowRestoredPixel(g, RowsRestored(g, mem, saved, rows - 1), saved, rows - 1, g.width, x, y);
    }
  }

  lemma {:induction false} QuotientOfCell(stride: nat, row: nat, c: nat)
    requires c < stride
    ensures (Rows(stride, row) + c) / stride == row && (Rows(stride, row) + c) % stride == c
  {
    var k := Rows(stride, row) + c;
    RowsIsProduct(stride, k / stride);
    SameCell(stride, k / stride, k % stride, row, c);
  }

  // ---- What drawing the bar does to each byte ----

  function Packed(left: bv8, right: bv8): bv8 { (left << 4) | (right & 0x0F) }

  // Byte k after the bar was painted white with black ink.
  ghost function PaintedByte(g: Geometry, raw: bv8, k: nat, ink: set<Point>): bv8
    requires g.width % 2 == 0 && k < Rows(Stride(g), g.height)
  {
    ByteCell(g, k);
    var x, y := 2 * (k % Stride(g)), k / Stride(g);
    if InBar(g, y) then Packed(if (x, y) in ink then 15 else 0, if (x + 1, y) in ink then 15 else 0) else raw
  }

  lemma {:induction false} ByteCell(g: Geometry, k: nat)
    requires g.width % 2 == 0 && k < Rows(Stride(g), g.height)
    ensures Stride(g) > 0 && 0 <= k / Stride(g) < g.height && 0 <= k % Stride(g) < Stride(g)
    ensures 0 <= 2 * (k % Stride(g)) < g.width - 1
  {
    var row, c := CellOf(k, Stride(g), g.height);
    QuotientOfCell(Stride(g), row, c);
  }

  ghost function Painted(g: Geometry, mem: seq<bv8>, ink: set<Point>): seq<bv8>
    requires Fits(g, mem)
  {
    seq(|mem|, k requires 0 <= k < |mem| => PaintedByte(g, mem[k], k, ink))
  }

  lemma {:induction false} PackedNibbles(left: bv8, right: bv8)
    requires left < 16 && right < 16
    ensures NibbleAt(Packed(left, right), 0) == left && NibbleAt(Packed(left, right), 1) == right
  {}

  lemma {:induction false} NibbleByParity(raw: bv8, x: nat)
    ensures NibbleAt(raw, x) == NibbleAt(raw, x % 2)
  {}

  lemma {:induction false} PaintedPixel(g: Geometry, mem: seq<bv8>, ink: set<Point>, x: uint32, y: uint32)
    requires Fits(g, mem) && OnScreen(g, x, y)
    ensures Pixel(g, Painted(g, mem, ink), x, y) ==
            if InBar(g, y) then (if (x, y) in ink then 0 else 0xFF) else Pixel(g, mem, x, y)
  {
    var k := ByteIndex(g, x, y);
    QuotientOfCell(Stride(g), y, x / 2);
    var left := x - x % 2;
    PackedNibbles(if (left, y) in ink then 15 else 0, if (left + 1, y) in ink then 15 else 0);
    NibbleByParity(PaintedByte(g, mem[k], k, ink), x);
  }

  // ---- The operations on the overlay ----

  ghost predicate WellKept(g: Geometry, o: Overlay) {
    Fits(g, o.mem) && |o.saved| == if o.active then BarSize(g) else 0
  }

  ghost function TextPainted(g: Geometry, font: seq<bv8>, mem: seq<bv8>, text: string): seq<bv8>
    requires Fits(g, mem) && |font| == FONT_BYTES
  {
    Painted(g, mem, TextInk(font, text, 30, Wrap(Top(g) + 1)))
  }

  ghost function Shown(g: Geometry, font: seq<bv8>, o: Overlay, text: string): (r: Overlay)
    requires WellKept(g, o) && |font| == FONT_BYTES
    ensures WellKept(g, r)
  {
    Updated(o.(active := true, saved := if o.active then o.saved else BarPixels(g, o.mem)),
            TextPainted(g, font, o.mem, text))
  }

  ghost function ResultShown(g: Geometry, font: seq<bv8>, o: Overlay, success: bool): (r: Overlay)
    requires WellKept(g, o) && |font| == FONT_BYTES
    ensures WellKept(g, r)
  {
    Updated(o, TextPainted(g, font, o.mem, if success then "Success!" else "Failure."))
  }

  ghost function Hidden(g: Geometry, o: Overlay): (r: Overlay)
    requires WellKept(g, o)
    ensures WellKept(g, r)
  {
    if !o.active || o.saved == [] then o
    else Updated(o.(active := false, saved := []), Restored(g, o.mem, o.saved))
  }

  // ---- The overlay destroys nothing ----

  // The screen is the base, except for what an active bar covers, and that is saved.
  ghost predicate Covers(g: Geometry, base: seq<bv8>, o: Overlay) {
    && Fits(g, base) && WellKept(g, o)
    && (!o.active ==> o.mem == base)
    && (o.active ==> o.saved == BarPixels(g, base))
    && forall x: uint32, y: uint32 ::
         OnScreen(g, x, y) && !InBar(g, y) ==> Pixel(g, o.mem, x, y) == Pixel(g, base, x, y)
  }

  /** Writing the saved pixels back yields the base, byte for byte. */
  lemma {:induction false} WriteBackRestoresBase(g: Geometry, base: seq<bv8>, o: Overlay)
    requires Covers(g, base, o) && o.active
    ensures Restored(g, o.mem, o.saved) == base
  {
    var back := Restored(g, o.mem, o.saved);
    forall x: uint32, y: uint32 | OnScreen(g, x, y)
      ensures Pixel(g, back, x, y) == Pixel(g, base, x, y)
    {
      RestoredPixel(g, o.mem, o.saved, STATUS_BAR_HEIGHT, x, y);
      if InBar(g, y) {
        SavedPixelAt(g, base, STATUS_BAR_HEIGHT, y - Top(g), x);
        LevelIsFixed(NibbleAt(base[ByteIndex(g, x, y)], x));
      }
    }
    PixelsDetermineBytes(g, back, base);
  }

  lemma {:induction false} PaintingStaysInBar(g: Geometry, base: seq<bv8>, mem: seq<bv8>, ink: set<Point>)
    requires Fits(g, base) && Fits(g, mem)
    requires forall x: uint32, y: uint32 ::
               OnScreen(g, x, y) && !InBar(g, y) ==> Pixel(g, mem, x, y) == Pixel(g, base, x, y)
    ensures forall x: uint32, y: uint32 ::
              OnScreen(g, x, y) && !InBar(g, y) ==> Pixel(g, Painted(g, mem, ink), x, y) == Pixel(g, base, x, y)
  {
    forall x: uint32, y: uint32 | OnScreen(g, x, y) && !InBar(g, y)
      ensures Pixel(g, Painted(g, mem, ink), x, y) == Pixel(g, base, x, y)
    {
      PaintedPixel(g, mem, ink, x, y);
    }
  }

  /** Showing, reporting and hiding all keep the base recoverable; hiding puts it back. */
  lemma {:induction false} OverlayKeepsBase(g: Geometry, font: seq<bv8>, base: seq<bv8>, o: Overlay, text: string,
                                            success: bool)
    requires Covers(g, base, o) && |font| == FONT_BYTES
    ensures Covers(g, base, Shown(g, font, o, text))
    ensures o.active ==> Covers(g, base, ResultShown(g, font, o, success))
    ensures Covers(g, base, Hidden(g, o))
    ensures Hidden(g, o).mem == base
  {
    PaintingStaysInBar(g, base, o.mem, TextInk(font, text, 30, Wrap(Top(g) + 1)));
    PaintingStaysInBar(g, base, o.mem,
                       TextInk(font, if success then "Success!" else "Failure.", 30, Wrap(Top(g) + 1)));
    if o.active {
      WriteBackRestoresBase(g, base, o);
      RowsMonotone(g.width, 0, STATUS_BAR_HEIGHT);
      if g.width == 0 {
        RowsIsProduct(0, g.height);
      }
    }
  }

  // ---- Loops over the bar, row by row ----

  // Of the bar, the pixels before (x, y) are as in the target and the others as before.
  ghost predicate Reached(g: Geometry, before: seq<bv8>, now: seq<bv8>, target: seq<bv8>, y: int, x: int) {
    Fits(g, before) && Fits(g, now) && Fits(g, target)
    && forall px: uint32, py: uint32 :: OnScreen(g, px, py) ==>
         Pixel(g, now, px, py) ==
         if InBar(g, py) && (py < y || (py == y && px < x)) then Pixel(g, target, px, py)
         else Pixel(g, before, px, py)
  }

  lemma {:induction false} ReachedNext(g: Geometry, before: seq<bv8>, now: seq<bv8>, target: seq<bv8>, y: uint32,
                                       x: uint32, gray: bv8)
    requires Reached(g, before, now, target, y, x) && InBar(g, y)
    requires OnScreen(g, x, y) ==> Pixel(g, target, x, y) == Quantize(gray)
    ensures Reached(g, before, WithPixel(g, now, x, y, gray), target, y, x + 1)
  {
    forall px: uint32, py: uint32 | OnScreen(g, px, py)
      ensures Pixel(g, WithPixel(g, now, x, y, gray), px, py) ==
              if InBar(g, py) && (py < y || (py == y && px < x + 1)) then Pixel(g, target, px, py)
              else Pixel(g, before, px, py)
    {
      PixelAfterWrite(g, now, x, y, gray, px, py);
    }
  }

  lemma {:induction false} AllReached(g: Geometry, before: seq<bv8>, now: seq<bv8>, target: seq<bv8>)
    requires Reached(g, before, now, target, Top(g) + STATUS_BAR_HEIGHT, 0)
    requires forall x: uint32, y: uint32 ::
               OnScreen(g, x, y) && !InBar(g, y) ==> Pixel(g, target, x, y) == Pixel(g, before, x, y)
    ensures now == target
  {
    PixelsDetermineBytes(g, now, target);
  }

  lemma {:induction false} InkInBar(g: Geometry, font: seq<bv8>, text: string, p: Point)
    requires |font| == FONT_BYTES
    ensures p in TextInk(font, text, 30, Wrap(Top(g) + 1)) ==> InBar(g, p.1)
  {
    TextInkExactly(font, text, 30, Wrap(Top(g) + 1), p);
    if p in TextInk(font, text, 30, Wrap(Top(g) + 1)) {
      var i, row, col :| InkLands(font, text, 30, Wrap(Top(g) + 1), i, row, col, p);
      NoWrap(Top(g) + 1);
      NoWrap(Top(g) + 1 + row);
    }
  }

  // White first, black ink second: the same as painting at once.
  lemma {:induction false} InkOverWhite(g: Geometry, before: seq<bv8>, now: seq<bv8>, ink: set<Point>)
    requires Fits(g, before) && Blackened(g, Painted(g, before, {}), now, ink)
    requires forall p :: p in ink ==> InBar(g, p.1)
    ensures now == Painted(g, before, ink)
  {
    forall x: uint32, y: uint32 | OnScreen(g, x, y)
      ensures Pixel(g, now, x, y) == Pixel(g, Painted(g, before, ink), x, y)
    {
      PaintedPixel(g, before, {}, x, y);
      PaintedPixel(g, before, ink, x, y);
    }
    PixelsDetermineBytes(g, now, Painted(g, before, ink));
  }

  class StatusBar {
    const display: KindleDisplay
    const font: FontRenderer
    var active: bool
    var savedPixels: seq<bv8>
    // What each update of the display showed.
    ghost var frames: seq<seq<bv8>>

    ghost predicate Valid()
      reads this, display.memory
    {
      display.Valid() && font.Valid() && WellKept(display.bounds, State())
    }

    ghost function State(): Overlay
      reads this, display.memory
    {
      Overlay(active, savedPixels, display.Bytes(), frames)
    }

    constructor (display: KindleDisplay, font: FontRenderer)
      requires display.Valid() && font.Valid()
      ensures Valid() && this.display == display && this.font == font
      ensures State() == Overlay(false, [], display.Bytes(), [])
    {
      this.display, this.font := display, font;
      active, savedPixels, frames := false, [], [];
    }

    // The inner loop of the capture: one row of the bar.
    method CaptureRow(y: uint32)
      requires display.Valid() && InBar(display.bounds, y)
      modifies this`savedPixels
      ensures savedPixels == old(savedPixels) +
              RowPixels(display.bounds, display.Bytes(), y - Top(display.bounds), display.bounds.width)
    {
      var x := 0;
      while x < display.bounds.width
        invariant 0 <= x <= display.bounds.width
        invariant savedPixels == old(savedPixels) +
                  RowPixels(display.bounds, display.Bytes(), y - Top(display.bounds), x)
      {
        var pixel := display.GetPixel(x, y);
        savedPixels := savedPixels + [pixel];
        x := x + 1;
      }
    }

    method CaptureBackground()
      requires Valid()
      modifies this`active, this`savedPixels
      ensures Valid()
      ensures State() == Overlay(true, BarPixels(display.bounds, display.Bytes()), old(display.Bytes()), frames)
    {
      var g := display.bounds;
      savedPixels := [];
      var y := Top(g);
      while y < Top(g) + STATUS_BAR_HEIGHT
        invariant Top(g) <= y <= Top(g) + STATUS_BAR_HEIGHT
        invariant savedPixels == RowsPixels(g, display.Bytes(), y - Top(g))
      {
        CaptureRow(y);
        y := y + 1;
      }
      active := true;
    }

    // The inner loop of the restore: one row of the bar.
    method RestoreRow(y: uint32, idx: nat)
      requires display.Valid() && InBar(display.bounds, y)
      requires |savedPixels| == BarSize(display.bounds) && idx == Rows(display.bounds.width, y - Top(display.bounds))
      modifies display.memory
      ensures display.Bytes() ==
              RowRestored(display.bounds, old(display.Bytes()), savedPixels,
                          y - Top(display.bounds), display.bounds.width)
    {
      ghost var row := y - Top(display.bounds);
      RowsMonotone(display.bounds.width, row, STATUS_BAR_HEIGHT);
      var x := 0;
      while x < display.bounds.width
        invariant 0 <= x <= display.bounds.width
        invariant display.Bytes() == RowRestored(display.bounds, old(display.Bytes()), savedPixels, row, x)
      {
        display.SetPixel(x, y, savedPixels[idx + x]);
        x := x + 1;
      }
    }

    method RestoreBackground()
      requires Valid()
      modifies this, display.memory
      ensures Valid()
      ensures State() == Hidden(display.bounds, old(State()))
    {
      if !active || savedPixels == [] {
        return;
      }
      var g := display.bounds;
      var idx := 0;
      var y := Top(g);
      while y < Top(g) + STATUS_BAR_HEIGHT
        invariant Top(g) <= y <= Top(g) + STATUS_BAR_HEIGHT
        invariant savedPixels == old(savedPixels) && frames == old(frames) && idx == Rows(g.width, y - Top(g))
        invariant display.Bytes() == RowsRestored(g, old(display.Bytes()), savedPixels, y - Top(g))
      {
        RestoreRow(y, idx);
        idx := idx + g.width;
        y := y + 1;
      }
      savedPixels := [];
      active := false;
      UpdateDisplay();
    }

    method FillBar()
      requires Valid()
      modifies display.memory
      ensures display.Bytes() == Painted(display.bounds, old(display.Bytes()), {})
    {
      var g := display.bounds;
      ghost var before := display.Bytes();
      ghost var target := Painted(g, before, {});
      var y := Top(g);
      while y < Top(g) + STATUS_BAR_HEIGHT
        invariant Top(g) <= y <= Top(g) + STATUS_BAR_HEIGHT
        invariant Reached(g, before, display.Bytes(), target, y, 0)
      {
        var x := 0;
        while x < g.width
          invariant 0 <= x <= g.width
          invariant Reached(g, before, display.Bytes(), target, y, x)
        {
          if OnScreen(g, x, y) {
            PaintedPixel(g, before, {}, x, y);
          }
          ReachedNext(g, before, display.Bytes(), target, y, x, 0xFF);
          display.SetPixel(x, y, 0xFF);
          x := x + 1;
        }
        y := y + 1;
      }
      PaintingStaysInBar(g, before, before, {});
      AllReached(g, before, display.Bytes(), target);
    }

    // The e-ink controller is told to show the bar's rows.
    method UpdateDisplay()
      modifies this`frames
      ensures frames == old(frames) + [display.Bytes()]
    {
      frames := frames + [display.Bytes()];
    }

    method DrawBarText(text: string)
      requires Valid()
      modifies this`frames, display.memory
      ensures display.Bytes() == TextPainted(display.bounds, font.font, old(display.Bytes()), text)
      ensures frames == old(frames) + [display.Bytes()]
    {
      var y := Wrap(Top(display.bounds) + 1);
      FillBar();
      font.DrawString(display, 30, y, text);
      forall p | p in TextInk(font.font, text, 30, y)
        ensures InBar(display.bounds, p.1)
      {
        InkInBar(display.bounds, font.font, text, p);
      }
      InkOverWhite(display.bounds, old(display.Bytes()), display.Bytes(), TextInk(font.font, text, 30, y));
      UpdateDisplay();
    }

    method ShowStatus(message: string)
      requires Valid()
      modifies this, display.memory
      ensures Valid()
      ensures State() == Shown(display.bounds, font.font, old(State()), message)
    {
      if !active {
        CaptureBackground();
      }
      DrawBarText(message);
    }

    method ShowResult(success: bool)
      requires Valid()
      modifies this`frames, display.memory
      ensures Valid()
      ensures State() == ResultShown(display.bounds, font.font, old(State()), success)
    {
      if success {
        DrawBarText("Success!");
        return;
      }
      DrawBarText("Failure.");
    }

    method HideStatus()
      requires Valid()
      modifies this, display.memory
      ensures Valid()
      ensures State() == Hidden(display.bounds, old(State()))
    {
      RestoreBackground();
    }
  }
}
