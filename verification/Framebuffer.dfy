/** The packed framebuffer: two pixels a byte, sixteen levels, with the nibble 0 for white. */
module Framebuffer {
  import opened Integers

  datatype Geometry = Geometry(width: uint32, height: uint32)

  function Stride(g: Geometry): nat { (g.width + 1) / 2 }

  // The size of n rows, and so the offset of row n: the product n * stride.
  function Rows(stride: nat, n: nat): nat {
    if n == 0 then 0 else Rows(stride, n - 1) + stride
  }

  lemma {:induction false} RowsIsProduct(stride: nat, n: nat)
    ensures Rows(stride, n) == n * stride
  {
    if n > 0 {
      RowsIsProduct(stride, n - 1);
    }
  }

  lemma {:induction false} RowsMonotone(stride: nat, row: nat, end: nat)
    requires row < end
    ensures Rows(stride, row) + stride <= Rows(stride, end)
  {
    if row + 1 < end {
      RowsMonotone(stride, row, end - 1);
    }
  }

  // The bytes allocated for a screen of four bits a pixel: width times height times depth, in 32 bits.
  function AllocatedSize(g: Geometry): nat { Wrap(Wrap(Rows(g.width, g.height)) * 4) / 8 }

  // The 32-bit product of width, height and depth does not wrap.
  predicate Addressable(g: Geometry) {
    Rows(g.width, g.height) * 4 < TWO32
  }

  // Even width and an addressable size: what a screen needs for every pixel to have its byte.
  predicate Regular(g: Geometry) { g.width % 2 == 0 && Addressable(g) }

  // The bytes hold the rows of the screen, and each row fills whole bytes.
  ghost predicate Fits(g: Geometry, mem: seq<bv8>) {
    g.width % 2 == 0 && |mem| == Rows(Stride(g), g.height)
  }

  lemma {:induction false} HalfRows(half: nat, n: nat)
    ensures Rows(2 * half, n) == 2 * Rows(half, n)
    ensures Rows(2 * half + 1, n) == 2 * Rows(half, n) + n
    ensures Rows(half + 1, n) == Rows(half, n) + n
  {
    if n > 0 {
      HalfRows(half, n - 1);
    }
  }

  /** The allocated bytes cover the rows exactly when the width is even and the size does not wrap. */
  lemma {:induction false} AllocationCoversRows(g: Geometry)
    ensures Rows(Stride(g), g.height) <= AllocatedSize(g) <==> g.height == 0 || Regular(g)
    ensures Regular(g) ==> Rows(Stride(g), g.height) == AllocatedSize(g)
  {
    HalfRows(g.width / 2, g.height);
    WrappedSize(Rows(g.width, g.height));
  }

  lemma {:induction false} WrappedSize(pixels: nat)
    ensures var size := Wrap(Wrap(pixels) * 4) / 8;
            size <= pixels / 2 && size < 0x2000_0000 && (pixels * 4 < TWO32 ==> size == pixels / 2)
  {}

  function Nibble(gray: bv8): (n: bv8)
    ensures n < 16
  {
    (255 - gray) / 17
  }

  function Level(nibble: bv8): bv8 { 255 - nibble * 17 }

  // What a written level reads back as: the next multiple of 17.
  function Quantize(gray: bv8): (q: bv8)
    ensures q % 17 == 0 && gray <= q && q - gray <= 16
  {
    Level(Nibble(gray))
  }

  lemma {:induction false} QuantizeMonotone(a: bv8, b: bv8)
    requires a <= b
    ensures Quantize(a) <= Quantize(b)
  {}

  lemma {:induction false} LevelIsFixed(n: bv8)
    requires n < 16
    ensures Nibble(Level(n)) == n && Quantize(Level(n)) == Level(n)
  {}

  predicate OnScreen(g: Geometry, x: int, y: int) {
    0 <= x < g.width && 0 <= y < g.height
  }

  function ByteIndex(g: Geometry, x: uint32, y: uint32): (k: nat)
    requires OnScreen(g, x, y)
    ensures k < Rows(Stride(g), g.height)
  {
    RowsMonotone(Stride(g), y, g.height);
    Rows(Stride(g), y) + x / 2
  }

  // The byte index as the driver computes it, in 32 bits.
  function ByteIndex32(g: Geometry, x: uint32, y: uint32): uint32 {
    Wrap(Wrap(y * Stride(g)) + x / 2)
  }

  /** On an addressable screen the 32-bit computation does not wrap. */
  lemma {:induction false} ByteIndexDoesNotWrap(g: Geometry, x: uint32, y: uint32)
    requires OnScreen(g, x, y) && Regular(g)
    ensures ByteIndex32(g, x, y) == ByteIndex(g, x, y)
  {
    AllocationCoversRows(g);
    RowsIsProduct(Stride(g), y);
    RowsMonotone(Stride(g), y, g.height);
    NoWrap(y * Stride(g));
    NoWrap(y * Stride(g) + x / 2);
  }

  lemma {:induction false} SameCell(stride: nat, y1: nat, c1: nat, y2: nat, c2: nat)
    requires c1 < stride && c2 < stride && Rows(stride, y1) + c1 == Rows(stride, y2) + c2
    ensures y1 == y2 && c1 == c2
  {
    if y1 < y2 {
      RowsMonotone(stride, y1, y2);
    } else if y2 < y1 {
      RowsMonotone(stride, y2, y1);
    }
  }

  lemma {:induction false} CellOf(k: nat, stride: nat, height: nat) returns (y: nat, c: nat)
    requires k < Rows(stride, height)
    ensures y < height && c < stride && Rows(stride, y) + c == k
    decreases height
  {
    if k < Rows(stride, height - 1) {
      y, c := CellOf(k, stride, height - 1);
    } else {
      y, c := height - 1, k - Rows(stride, height - 1);
    }
  }

  /** So every pixel's byte, as the driver computes its index, is allocated if and only if the screen has no
      row, or its width is even and its size does not wrap. */
  lemma {:induction false} EveryPixelAllocated(g: Geometry)
    ensures (forall x: uint32, y: uint32 :: OnScreen(g, x, y) ==> ByteIndex32(g, x, y) < AllocatedSize(g)) <==>
            g.height == 0 || Regular(g)
  {
    AllocationCoversRows(g);
    if g.height == 0 || Regular(g) {
      forall x: uint32, y: uint32 | OnScreen(g, x, y)
        ensures ByteIndex32(g, x, y) < AllocatedSize(g)
      {
        ByteIndexDoesNotWrap(g, x, y);
      }
    } else {
      var x, y := PixelOutside(g);
    }
  }

  lemma {:induction false} PixelOutside(g: Geometry) returns (x: uint32, y: uint32)
    requires AllocatedSize(g) < Rows(Stride(g), g.height)
    ensures OnScreen(g, x, y) && ByteIndex32(g, x, y) >= AllocatedSize(g)
  {
    WrappedSize(Rows(g.width, g.height));
    var size := Rows(Stride(g), g.height);
    var k := if size <= 0x2000_0000 then size - 1 else 0x1FFF_FFFF;
    var row, c := CellOf(k, Stride(g), g.height);
    RowsIsProduct(Stride(g), row);
    x, y := 2 * c, row;
    NoWrap(y * Stride(g));
    NoWrap(y * Stride(g) + x / 2);
  }

  // ---- Pixels ----

  function NibbleAt(raw: bv8, x: nat): (n: bv8)
    ensures n < 16
  {
    if x % 2 == 0 then raw >> 4 else raw & 0x0F
  }

  /** The left half of a byte is its high digit in base 16, the right half its low one. */
  lemma {:induction false} HalvesOfByte(raw: bv8, x: nat)
    ensures NibbleAt(raw, x) as int == if x % 2 == 0 then raw as int / 16 else raw as int % 16
  {}

  function WithNibble(raw: bv8, x: nat, n: bv8): bv8 {
    if x % 2 == 0 then (raw & 0x0F) | (n << 4) else (raw & 0xF0) | (n & 0x0F)
  }

  function Pixel(g: Geometry, mem: seq<bv8>, x: uint32, y: uint32): bv8
    requires Fits(g, mem)
  {
    if x >= g.width || y >= g.height then 0xFF
    else Level(NibbleAt(mem[ByteIndex(g, x, y)], x))
  }

  /** Where a pixel lies and what it means, in numbers. */
  lemma {:induction false} PixelInMemory(g: Geometry, mem: seq<bv8>, x: uint32, y: uint32)
    requires Fits(g, mem) && OnScreen(g, x, y)
    ensures var k := y * ((g.width + 1) / 2) + x / 2;
            0 <= k < |mem|
            && Pixel(g, mem, x, y) as int ==
               255 - 17 * (if x % 2 == 0 then mem[k] as int / 16 else mem[k] as int % 16)
  {
    RowsIsProduct(Stride(g), y);
    HalvesOfByte(mem[ByteIndex(g, x, y)], x);
    LevelInNumbers(NibbleAt(mem[ByteIndex(g, x, y)], x));
  }

  lemma {:induction false} LevelInNumbers(n: bv8)
    requires n < 16
    ensures Level(n) as int == 255 - 17 * (n as int)
  {}

  function WithPixel(g: Geometry, mem: seq<bv8>, x: uint32, y: uint32, gray: bv8): seq<bv8>
    requires Fits(g, mem)
  {
    if x >= g.width || y >= g.height then mem
    else
      var k := ByteIndex(g, x, y);
      mem[k := WithNibble(mem[k], x, Nibble(gray))]
  }

  /** Reading after writing: the written pixel is quantised and every other pixel, the one in the same
      byte included, is unchanged. */
  lemma {:induction false} PixelAfterWrite(g: Geometry, mem: seq<bv8>, x: uint32, y: uint32, gray: bv8, px: uint32,
                                           py: uint32)
    requires Fits(g, mem)
    ensures Pixel(g, WithPixel(g, mem, x, y, gray), px, py) ==
            if (px, py) == (x, y) && OnScreen(g, x, y) then Quantize(gray) else Pixel(g, mem, px, py)
  {
    if OnScreen(g, x, y) && OnScreen(g, px, py) {
      var k := ByteIndex(g, x, y);
      NibbleAfterWrite(mem[k], x, px, Nibble(gray));
      if ByteIndex(g, px, py) == k {
        SameCell(Stride(g), y, x / 2, py, px / 2);
      }
    }
  }

  lemma {:induction false} NibbleAfterWrite(raw: bv8, x: nat, px: nat, n: bv8)
    requires n < 16
    ensures NibbleAt(WithNibble(raw, x, n), px) == if px % 2 == x % 2 then n else NibbleAt(raw, px)
  {}

  /** Writing back a pixel that was read changes no byte. */
  lemma {:induction false} WriteBackIsIdentity(g: Geometry, mem: seq<bv8>, x: uint32, y: uint32)
    requires Fits(g, mem)
    ensures WithPixel(g, mem, x, y, Pixel(g, mem, x, y)) == mem
  {
    if OnScreen(g, x, y) {
      var raw := mem[ByteIndex(g, x, y)];
      LevelIsFixed(NibbleAt(raw, x));
      assert WithNibble(raw, x, NibbleAt(raw, x)) == raw;
    }
  }

  ghost predicate SamePixels(g: Geometry, a: seq<bv8>, b: seq<bv8>)
    requires Fits(g, a) && Fits(g, b)
  {
    forall x: uint32, y: uint32 :: OnScreen(g, x, y) ==> Pixel(g, a, x, y) == Pixel(g, b, x, y)
  }

  // The pixel in the left half of a byte.
  lemma {:induction false} LeftPixel(g: Geometry, k: nat) returns (x: uint32, y: uint32)
    requires g.width % 2 == 0 && k < Rows(Stride(g), g.height)
    ensures x % 2 == 0 && OnScreen(g, x, y) && OnScreen(g, x + 1, y)
    ensures ByteIndex(g, x, y) == k && ByteIndex(g, x + 1, y) == k
  {
    var row, c := CellOf(k, Stride(g), g.height);
    x, y := 2 * c, row;
  }

  /** The pixels determine the bytes. */
  lemma {:induction false} PixelsDetermineBytes(g: Geometry, a: seq<bv8>, b: seq<bv8>)
    requires Fits(g, a) && Fits(g, b) && SamePixels(g, a, b)
    ensures a == b
  {
    forall k | 0 <= k < |a|
      ensures a[k] == b[k]
    {
      var x, y := LeftPixel(g, k);
      assert Pixel(g, a, x, y) == Pixel(g, b, x, y);
      assert Pixel(g, a, x + 1, y) == Pixel(g, b, x + 1, y);
      HalvesDetermineByte(a[k], b[k]);
    }
  }

  lemma {:induction false} HalvesDetermineByte(a: bv8, b: bv8)
    requires Level(a >> 4) == Level(b >> 4) && Level(a & 0x0F) == Level(b & 0x0F)
    ensures a == b
  {}

  // Clearing fills both halves of each byte with the high nibble of the colour, not inverted.
  function ClearByte(color: bv8): bv8 { ((color >> 4) << 4) | (color >> 4) }

  // Reading and writing the byte at the driver's own index, on any screen that has the byte.
  predicate HasByte(g: Geometry, mem: seq<bv8>, x: uint32, y: uint32) {
    OnScreen(g, x, y) ==> ByteIndex32(g, x, y) < |mem|
  }

  function DriverRead(g: Geometry, mem: seq<bv8>, x: uint32, y: uint32): bv8
    requires HasByte(g, mem, x, y)
  {
    if OnScreen(g, x, y) then Level(NibbleAt(mem[ByteIndex32(g, x, y)], x)) else 0xFF
  }

  function DriverWrite(g: Geometry, mem: seq<bv8>, x: uint32, y: uint32, gray: bv8): seq<bv8>
    requires HasByte(g, mem, x, y)
  {
    if OnScreen(g, x, y) then
      var k := ByteIndex32(g, x, y);
      mem[k := WithNibble(mem[k], x, Nibble(gray))]
    else mem
  }

  /** On a regular screen these are the pixels. */
  lemma {:induction false} RegularPixels(g: Geometry, mem: seq<bv8>, x: uint32, y: uint32, gray: bv8)
    requires Regular(g) && Fits(g, mem)
    ensures HasByte(g, mem, x, y)
    ensures DriverRead(g, mem, x, y) == Pixel(g, mem, x, y)
    ensures DriverWrite(g, mem, x, y, gray) == WithPixel(g, mem, x, y, gray)
  {
    if OnScreen(g, x, y) {
      ByteIndexDoesNotWrap(g, x, y);
    }
  }

  class KindleDisplay {
    const bounds: Geometry
    const memory: array<bv8>

    ghost predicate Valid() {
      Regular(bounds) && memory.Length == Rows(Stride(bounds), bounds.height)
    }

    function Bytes(): seq<bv8>
      reads memory
    {
      memory[..]
    }

    // The heap buffer used when no device can be mapped starts with every byte 0xFF.
    constructor (bounds: Geometry)
      ensures this.bounds == bounds && fresh(memory)
      ensures Bytes() == seq(AllocatedSize(bounds), i => 0xFF)
      ensures Regular(bounds) ==> Valid()
    {
      AllocationCoversRows(bounds);
      this.bounds := bounds;
      memory := new bv8[AllocatedSize(bounds)](i => 0xFF);
    }

    method Clear(color: bv8)
      modifies memory
      ensures Bytes() == seq(memory.Length, i => ClearByte(color))
    {
      var nibble := color >> 4;
      var packed := (nibble << 4) | nibble;
      var i := 0;
      while i < memory.Length
        invariant 0 <= i <= memory.Length
        invariant forall j :: 0 <= j < i ==> memory[j] == packed
      {
        memory[i] := packed;
        i := i + 1;
      }
    }

    method SetPixel(x: uint32, y: uint32, grayLevel: bv8)
      requires Valid() || HasByte(bounds, Bytes(), x, y)
      modifies memory
      ensures HasByte(bounds, old(Bytes()), x, y) && Bytes() == DriverWrite(bounds, old(Bytes()), x, y, grayLevel)
      ensures Valid() ==> Bytes() == WithPixel(bounds, old(Bytes()), x, y, grayLevel)
    {
      if Valid() {
        RegularPixels(bounds, Bytes(), x, y, grayLevel);
      }
      if x >= bounds.width || y >= bounds.height {
        return;
      }
      var byteIndex := ByteIndex32(bounds, x, y);
      var nibble := (255 - grayLevel) / 17;
      if x % 2 == 0 {
        memory[byteIndex] := (memory[byteIndex] & 0x0F) | (nibble << 4);
        return;
      }
      memory[byteIndex] := (memory[byteIndex] & 0xF0) | (nibble & 0x0F);
    }

    method GetPixel(x: uint32, y: uint32) returns (gray: bv8)
      requires Valid() || HasByte(bounds, Bytes(), x, y)
      ensures HasByte(bounds, Bytes(), x, y) && gray == DriverRead(bounds, Bytes(), x, y)
      ensures Valid() ==> gray == Pixel(bounds, Bytes(), x, y)
    {
      if Valid() {
        RegularPixels(bounds, Bytes(), x, y, 0);
      }
      if x >= bounds.width || y >= bounds.height {
        return 0xFF;
      }
      var raw := memory[ByteIndex32(bounds, x, y)];
      var nibble := if x % 2 == 0 then raw >> 4 else raw & 0x0F;
      return 255 - nibble * 17;
    }
  }
}

/** The in-memory display of the tests, one byte a pixel, and its relation to the packed framebuffer. */
module MockDisplays {
  import opened Integers
  import opened Framebuffer

  function PixelCount(g: Geometry): nat { Rows(g.width, g.height) }

  // The index as the mock computes it, in 32 bits; on a screen of at most 2^32 pixels it does not wrap.
  function MockIndex(g: Geometry, x: uint32, y: uint32): (k: nat)
    requires OnScreen(g, x, y)
    ensures k < PixelCount(g)
    ensures PixelCount(g) <= TWO32 ==> k == Rows(g.width, y) + x
  {
    RowsIsProduct(g.width, y);
    RowsMonotone(g.width, y, g.height);
    WrapAdd(y * g.width, x);
    Wrap(Wrap(y * g.width) + x)
  }

  class MockDisplay {
    const bounds: Geometry
    var pixels: seq<bv8>

    ghost predicate Valid()
      reads this
    {
      |pixels| == PixelCount(bounds)
    }

    function At(x: uint32, y: uint32): bv8
      requires Valid()
      reads this
    {
      if x >= bounds.width || y >= bounds.height then 0xFF else pixels[MockIndex(bounds, x, y)]
    }

    constructor (bounds: Geometry)
      ensures Valid() && this.bounds == bounds && pixels == seq(PixelCount(bounds), i => 0xFF)
    {
      this.bounds := bounds;
      pixels := seq(PixelCount(bounds), i => 0xFF);
    }

    method Clear(color: bv8)
      requires Valid()
      modifies this
      ensures Valid() && pixels == seq(|old(pixels)|, i => color)
    {
      pixels := seq(|pixels|, i => color);
    }

    method SetPixel(x: uint32, y: uint32, grayLevel: bv8)
      requires Valid()
      modifies this
      ensures Valid()
      ensures pixels ==
              if OnScreen(bounds, x, y) then old(pixels)[MockIndex(bounds, x, y) := grayLevel] else old(pixels)
      ensures PixelCount(bounds) <= TWO32 ==> forall px: uint32, py: uint32 ::
                At(px, py) == if (px, py) == (x, y) && OnScreen(bounds, x, y) then grayLevel else old(At(px, py))
    {
      if x >= bounds.width || y >= bounds.height {
        return;
      }
      var k := MockIndex(bounds, x, y);
      pixels := pixels[k := grayLevel];
      if PixelCount(bounds) <= TWO32 {
        forall px: uint32, py: uint32 | OnScreen(bounds, px, py) && MockIndex(bounds, px, py) == k
          ensures (px, py) == (x, y)
        {
          SameCell(bounds.width, y, x, py, px);
        }
      }
    }

    method GetPixel(x: uint32, y: uint32) returns (gray: bv8)
      requires Valid()
      ensures gray == At(x, y)
    {
      if x >= bounds.width || y >= bounds.height {
        return 0xFF;
      }
      return pixels[MockIndex(bounds, x, y)];
    }
  }

  // The packed display shows the mock's pixels, each rounded up to a level it has.
  ghost predicate Refines(display: KindleDisplay, mock: MockDisplay)
    requires display.Valid() && mock.Valid()
    reads display.memory, mock
  {
    display.bounds == mock.bounds
    && forall x: uint32, y: uint32 :: OnScreen(mock.bounds, x, y) ==>
         Pixel(display.bounds, display.Bytes(), x, y) == Quantize(mock.At(x, y))
  }

  /** The refinement is kept by writing the same pixel on both displays. */
  method WriteBoth(display: KindleDisplay, mock: MockDisplay, x: uint32, y: uint32, gray: bv8)
    requires display.Valid() && mock.Valid() && Refines(display, mock)
    modifies display.memory, mock
    ensures mock.Valid() && Refines(display, mock)
  {
    ghost var mem := display.Bytes();
    display.SetPixel(x, y, gray);
    mock.SetPixel(x, y, gray);
    forall px: uint32, py: uint32 | OnScreen(mock.bounds, px, py)
      ensures Pixel(display.bounds, display.Bytes(), px, py) == Quantize(mock.At(px, py))
    {
      PixelAfterWrite(display.bounds, mem, x, y, gray, px, py);
    }
  }

  /** Clearing has the opposite polarity: a cleared byte shows the cleared colour for eight colours only. */
  lemma {:induction false} ClearedLevel(color: bv8)
    ensures Level(NibbleAt(ClearByte(color), 0)) == Quantize(color) <==> 0x78 <= color <= 0x7F
    ensures Level(NibbleAt(ClearByte(color), 1)) == Quantize(color) <==> 0x78 <= color <= 0x7F
  {}
}

/** Any calls on both displays, from their construction. */
module DisplayRuns {
  import opened Integers
  import opened Framebuffer
  import opened MockDisplays

  datatype DisplayCall = PixelSet(x: uint32, y: uint32, gray: bv8) | Cleared(color: bv8)

  const NEW: bv8 := 0xFF

  // What a plain array of levels holds.
  function PlainLevel(calls: seq<DisplayCall>, x: uint32, y: uint32): bv8 {
    if calls == [] then NEW
    else
      match calls[|calls| - 1]
      case PixelSet(px, py, gray) => if (px, py) == (x, y) then gray else PlainLevel(calls[..|calls| - 1], x, y)
      case Cleared(color) => color
  }

  // What the packed framebuffer holds.
  function PackedAfter(g: Geometry, calls: seq<DisplayCall>): (mem: seq<bv8>)
    requires Regular(g)
    ensures Fits(g, mem)
  {
    if calls == [] then seq(Rows(Stride(g), g.height), i => NEW)
    else
      var before := PackedAfter(g, calls[..|calls| - 1]);
      match calls[|calls| - 1]
      case PixelSet(x, y, gray) => WithPixel(g, before, x, y, gray)
      case Cleared(color) => seq(|before|, i => ClearByte(color))
  }

  // No call behind position k clears the display.
  ghost predicate NoneCleared(calls: seq<DisplayCall>, k: int) {
    forall j :: k < j < |calls| && 0 <= j ==> !calls[j].Cleared?
  }

  // The pixel was written since the display was constructed or cleared.
  ghost predicate Written(calls: seq<DisplayCall>, x: uint32, y: uint32) {
    exists k :: 0 <= k < |calls| && calls[k].PixelSet? && (calls[k].x, calls[k].y) == (x, y) && NoneCleared(calls, k)
  }

  // The last clear had one of the colours that clearing and setting show alike.
  ghost predicate ClearedAlike(calls: seq<DisplayCall>) {
    exists k :: 0 <= k < |calls| && calls[k].Cleared? && 0x78 <= calls[k].color <= 0x7F && NoneCleared(calls, k)
  }

  lemma {:induction false} WrittenStep(calls: seq<DisplayCall>, x: uint32, y: uint32)
    requires calls != []
    ensures var before, last := calls[..|calls| - 1], calls[|calls| - 1];
            && Written(calls, x, y) ==
               (last.PixelSet? && ((last.x, last.y) == (x, y) || Written(before, x, y)))
            && ClearedAlike(calls) ==
               if last.Cleared? then 0x78 <= last.color <= 0x7F else ClearedAlike(before)
  {
    var n := |calls| - 1;
    var before := calls[..n];
    assert forall k :: 0 <= k < n ==> before[k] == calls[k];
    assert calls[n].PixelSet? ==> forall k :: 0 <= k < n ==> NoneCleared(before, k) == NoneCleared(calls, k);
    assert NoneCleared(calls, n);
  }

  /** A pixel of the packed display shows the plain level, rounded, if and only if it was written since the
      display was constructed or cleared, or the last clear had one of eight colours. */
  lemma {:induction false} ShowsPlainExactly(g: Geometry, calls: seq<DisplayCall>, x: uint32, y: uint32)
    requires Regular(g) && OnScreen(g, x, y)
    ensures Pixel(g, PackedAfter(g, calls), x, y) == Quantize(PlainLevel(calls, x, y)) <==>
            Written(calls, x, y) || ClearedAlike(calls)
  {
    if calls != [] {
      var before, last := calls[..|calls| - 1], calls[|calls| - 1];
      ShowsPlainExactly(g, before, x, y);
      WrittenStep(calls, x, y);
      if last.Cleared? {
        ClearedPixel(g, |PackedAfter(g, before)|, x, y, last.color);
      } else {
        PixelAfterWrite(g, PackedAfter(g, before), last.x, last.y, last.gray, x, y);
      }
    }
  }

  lemma {:induction false} ClearedPixel(g: Geometry, n: nat, x: uint32, y: uint32, color: bv8)
    requires g.width % 2 == 0 && OnScreen(g, x, y) && n == Rows(Stride(g), g.height)
    ensures Pixel(g, seq(n, i => ClearByte(color)), x, y) == Quantize(color) <==> 0x78 <= color <= 0x7F
  {
    ClearedLevel(color);
    HalvesOfClear(color, x);
  }

  /** What a cleared screen shows, in numbers: the colour's high digit, inverted. */
  lemma {:induction false} ClearShows(g: Geometry, n: nat, x: uint32, y: uint32, color: bv8)
    requires g.width % 2 == 0 && OnScreen(g, x, y) && n == Rows(Stride(g), g.height)
    ensures Pixel(g, seq(n, i => ClearByte(color)), x, y) as int == 255 - 17 * (color as int / 16)
  {
    HalvesOfClear(color, x);
    HalvesOfByte(ClearByte(color), x);
    ClearDigit(color);
    LevelInNumbers(NibbleAt(ClearByte(color), x));
  }

  lemma {:induction false} ClearDigit(color: bv8)
    ensures NibbleAt(ClearByte(color), 0) == color >> 4 && (color >> 4) as int == color as int / 16
  {
    HalvesOfByte(color, 0);
  }

  lemma {:induction false} HalvesOfClear(color: bv8, x: nat)
    ensures NibbleAt(ClearByte(color), x) == NibbleAt(ClearByte(color), 0) == NibbleAt(ClearByte(color), 1)
  {}

  // The same calls on both classes, from their constructors.
  method DrawOnBoth(bounds: Geometry, calls: seq<DisplayCall>) returns (display: KindleDisplay, mock: MockDisplay)
    requires Regular(bounds)
    ensures display.Valid() && mock.Valid() && display.bounds == mock.bounds == bounds
    ensures display.Bytes() == PackedAfter(bounds, calls)
    ensures forall x: uint32, y: uint32 :: OnScreen(bounds, x, y) ==> mock.At(x, y) == PlainLevel(calls, x, y)
    ensures forall x: uint32, y: uint32 :: OnScreen(bounds, x, y) ==>
              (Pixel(bounds, display.Bytes(), x, y) == Quantize(mock.At(x, y)) <==>
               Written(calls, x, y) || ClearedAlike(calls))
  {
    AllocationCoversRows(bounds);
    display := new KindleDisplay(bounds);
    mock := new MockDisplay(bounds);
    var i := 0;
    while i < |calls|
      invariant 0 <= i <= |calls| && fresh(display.memory) && fresh(mock)
      invariant display.Valid() && mock.Valid() && display.bounds == mock.bounds == bounds
      invariant display.Bytes() == PackedAfter(bounds, calls[..i])
      invariant forall x: uint32, y: uint32 :: OnScreen(bounds, x, y) ==> mock.At(x, y) == PlainLevel(calls[..i], x, y)
    {
      assert calls[..i + 1][..i] == calls[..i];
      match calls[i] {
        case PixelSet(x, y, gray) =>
          display.SetPixel(x, y, gray);
          mock.SetPixel(x, y, gray);
        case Cleared(color) =>
          display.Clear(color);
          mock.Clear(color);
      }
      i := i + 1;
    }
    assert calls[..i] == calls;
    forall x: uint32, y: uint32 | OnScreen(bounds, x, y)
      ensures Pixel(bounds, display.Bytes(), x, y) == Quantize(mock.At(x, y)) <==>
              Written(calls, x, y) || ClearedAlike(calls)
    {
      ShowsPlainExactly(bounds, calls, x, y);
    }
  }

  /** So two new displays agree on no pixel at all: 0xFF is white to one and two black pixels to the other. */
  lemma {:induction false} NewDisplaysDiffer(g: Geometry, x: uint32, y: uint32)
    requires Regular(g) && OnScreen(g, x, y)
    ensures Pixel(g, PackedAfter(g, []), x, y) == 0 && Quantize(PlainLevel([], x, y)) == 0xFF
  {}
}
