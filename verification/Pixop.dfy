/** The C program's blitters on packed pixmaps: two pixels a byte, rows of whole bytes. */
module Pixmaps {
  import opened Integers
  import opened Framebuffer

  function ByteWidth(w: nat): nat { (w + 1) / 2 }

  // `x & ~1` and then `/ 2`: rounds down, for negative numbers too.
  function HalfDown(x: int): int { x / 2 }

  /** In numbers: the byte column of pixel column x, also left of the surface. */
  lemma {:induction false} HalfInNumbers(x: int)
    ensures 2 * HalfDown(x) <= x < 2 * HalfDown(x) + 2
  {}

  function Max(a: int, b: int): int { if a < b then b else a }
  function Min(a: int, b: int): int { if a < b then a else b }

  // Byte c of row r; 0 for bytes that are not there.
  function Cell(stride: nat, mem: seq<bv8>, r: nat, c: nat): bv8 {
    var k := Rows(stride, r) + c;
    if k < |mem| then mem[k] else 0
  }

  lemma {:induction false} CellInMemory(stride: nat, mem: seq<bv8>, r: nat, c: nat)
    requires 0 <= r * stride + c < |mem|
    ensures Cell(stride, mem, r, c) == mem[r * stride + c]
  {
    RowsIsProduct(stride, r);
  }

  predicate InRectangle(r: int, c: int, r0: int, c0: int, rows: int, cols: int) {
    r0 <= r < r0 + rows && c0 <= c < c0 + cols
  }

  // ---- What the operations should do: a bounds test for every byte ----

  // Source bytes that land inside the destination are copied; all other bytes stay.
  ghost predicate Blitted(w: nat, h: nat, before: seq<bv8>, after: seq<bv8>,
                          x: int, y: int, sw: nat, sh: nat, src: seq<bv8>) {
    |before| == |after|
    && forall r: nat, c: nat :: r < h && c < ByteWidth(w) ==>
         Cell(ByteWidth(w), after, r, c) ==
         if InRectangle(r, c, y, HalfDown(x), sh, ByteWidth(sw))
         then Cell(ByteWidth(sw), src, r - y, c - HalfDown(x)) else Cell(ByteWidth(w), before, r, c)
  }

  // A window of the source is copied, as far as the source reaches; a negative position copies nothing.
  ghost predicate Extracted(w: nat, h: nat, before: seq<bv8>, after: seq<bv8>,
                            x: int, y: int, sw: nat, sh: nat, src: seq<bv8>) {
    |before| == |after|
    && forall r: nat, c: nat :: r < h && c < ByteWidth(w) ==>
         Cell(ByteWidth(w), after, r, c) ==
         if x >= 0 && y >= 0 && y + r < sh && HalfDown(x) + c < ByteWidth(sw)
         then Cell(ByteWidth(sw), src, y + r, HalfDown(x) + c) else Cell(ByteWidth(w), before, r, c)
  }

  // A byte is filled when its left pixel lies in the rectangle and on the pixmap.
  ghost predicate Filled(w: nat, h: nat, before: seq<bv8>, after: seq<bv8>,
                         x: int, y: int, wd: int, ht: int, value: bv8) {
    |before| == |after|
    && forall r: nat, c: nat :: r < h && c < ByteWidth(w) ==>
         Cell(ByteWidth(w), after, r, c) ==
         if InRectangle(r, 2 * c, y, 2 * HalfDown(x), ht, wd) then value else Cell(ByteWidth(w), before, r, c)
  }

  // How many of 0, 1, ..., n - 1 lie in a range, by looking at each.
  function CountIn(n: nat, from: int, size: int): nat {
    if n == 0 then 0 else CountIn(n - 1, from, size) + if from <= n - 1 < from + size then 1 else 0
  }

  lemma {:induction false} CountInExactly(n: nat, from: int, size: int)
    ensures CountIn(n, from, size) == Max(0, Min(n, from + size) - Max(0, from))
  {
    if n > 0 {
      CountInExactly(n - 1, from, size);
    }
  }

  // The bytes of a grid of rows and columns that lie in a rectangle.
  function Touched(rows: nat, cols: nat, y: int, x: int, height: int, width: int): nat {
    CountIn(rows, y, height) * CountIn(cols, x, width)
  }

  lemma {:induction false} TouchedExactly(rows: nat, cols: nat, y: int, x: int, height: int, width: int, nLines: nat,
                                          nBytes: nat)
    requires nLines == Max(0, Min(rows, y + height) - Max(0, y)) && nBytes == Max(0, Min(cols, x + width) - Max(0, x))
    ensures Touched(rows, cols, y, x, height, width) == Rows(nBytes, nLines)
  {
    CountInExactly(rows, y, height);
    CountInExactly(cols, x, width);
    RowsIsProduct(nBytes, nLines);
  }

  lemma {:induction false} TouchesNothing(rows: nat, cols: nat, y: int, x: int, height: int, width: int)
    requires Min(rows, y + height) <= Max(0, y) || Min(cols, x + width) <= Max(0, x)
    ensures Touched(rows, cols, y, x, height, width) == 0
  {
    CountInExactly(rows, y, height);
    CountInExactly(cols, x, width);
  }

  // ---- Rows of bytes ----

  // Lines of n bytes were replaced, from row r0 and column c0 on, by the lines of a source.
  ghost predicate LinesCopied(stride: nat, h: nat, before: seq<bv8>, after: seq<bv8>,
                              r0: nat, c0: nat, lines: nat, n: nat,
                              srcStride: nat, src: seq<bv8>, sr: nat, sc: nat) {
    |before| == |after|
    && forall r: nat, c: nat :: r < h && c < stride ==>
         Cell(stride, after, r, c) ==
         if InRectangle(r, c, r0, c0, lines, n) then Cell(srcStride, src, sr + (r - r0), sc + (c - c0))
         else Cell(stride, before, r, c)
  }

  // One more line: a row of bytes copied over position to.
  lemma {:induction false} LineCopied(stride: nat, h: nat, before: seq<bv8>, mid: seq<bv8>, after: seq<bv8>, r0: nat,
                                      c0: nat, line: nat, n: nat, srcStride: nat, src: seq<bv8>, sr: nat, sc: nat)
    requires LinesCopied(stride, h, before, mid, r0, c0, line, n, srcStride, src, sr, sc)
    requires c0 + n <= stride && r0 + line < h && Rows(stride, h) == |mid| == |after|
    requires Rows(srcStride, sr + line) + sc + n <= |src|
    requires forall k :: 0 <= k < |mid| ==>
               var to := Rows(stride, r0 + line) + c0;
               after[k] == if to <= k < to + n then src[Rows(srcStride, sr + line) + sc + (k - to)] else mid[k]
    ensures LinesCopied(stride, h, before, after, r0, c0, line + 1, n, srcStride, src, sr, sc)
  {
    var to := Rows(stride, r0 + line) + c0;
    forall r: nat, c: nat | r < h && c < stride
      ensures Cell(stride, after, r, c) ==
              if InRectangle(r, c, r0, c0, line + 1, n) then Cell(srcStride, src, sr + (r - r0), sc + (c - c0))
              else Cell(stride, before, r, c)
    {
      var k := Rows(stride, r) + c;
      RowsMonotone(stride, r, h);
      if to <= k < to + n {
        SameCell(stride, r, c, r0 + line, c0 + (k - to));
        assert sr + (r - r0) == sr + line;
      } else {
        assert Cell(stride, after, r, c) == Cell(stride, mid, r, c);
      }
    }
  }

  class Pixmap {
    const width: nat
    const height: nat
    const surf: array<bv8>

    ghost predicate Valid() { Rows(ByteWidth(width), height) == surf.Length }

    // pixbuf_alloc: a zeroed buffer.
    constructor (w: nat, h: nat)
      ensures Valid() && width == w && height == h && fresh(surf)
      ensures surf[..] == seq(Rows(ByteWidth(w), h), i => 0)
    {
      width, height := w, h;
      surf := new bv8[Rows(ByteWidth(w), h)](i => 0);
    }
  }

  // The copy loop the blitters share; returns the number of bytes copied.
  method CopyLines(dst: Pixmap, r0: nat, c0: nat, src: Pixmap, sr: nat, sc: nat, nBytes: nat, nLines: nat)
    returns (n: nat)
    requires dst.Valid() && src.Valid() && dst.surf != src.surf
    requires r0 + nLines <= dst.height && c0 + nBytes <= ByteWidth(dst.width)
    requires sr + nLines <= src.height && sc + nBytes <= ByteWidth(src.width)
    modifies dst.surf
    ensures LinesCopied(ByteWidth(dst.width), dst.height, old(dst.surf[..]), dst.surf[..], r0, c0, nLines, nBytes,
                        ByteWidth(src.width), src.surf[..], sr, sc)
    ensures n == Rows(nBytes, nLines)
  {
    var dstStride, srcStride := ByteWidth(dst.width), ByteWidth(src.width);
    RowsIsProduct(dstStride, r0);
    RowsIsProduct(srcStride, sr);
    var dstp, srcp := r0 * dstStride + c0, sr * srcStride + sc;
    n := 0;
    var line := 0;
    while line < nLines
      invariant 0 <= line <= nLines
      invariant dstp == Rows(dstStride, r0 + line) + c0 && srcp == Rows(srcStride, sr + line) + sc
      invariant n == Rows(nBytes, line)
      invariant LinesCopied(dstStride, dst.height, old(dst.surf[..]), dst.surf[..], r0, c0, line, nBytes,
                            srcStride, src.surf[..], sr, sc)
    {
      RowsMonotone(dstStride, r0 + line, dst.height);
      RowsMonotone(srcStride, sr + line, src.height);
      ghost var mid := dst.surf[..];
      CopyRow(dst.surf, dstp, src.surf, srcp, nBytes);
      LineCopied(dstStride, dst.height, old(dst.surf[..]), mid, dst.surf[..], r0, c0, line, nBytes,
                 srcStride, src.surf[..], sr, sc);
      dstp := dstp + dstStride;
      srcp := srcp + srcStride;
      n := n + nBytes;
      line := line + 1;
    }
  }

  // memcpy of one row.
  method CopyRow(dst: array<bv8>, to: nat, src: array<bv8>, from: nat, n: nat)
    requires dst != src && to + n <= dst.Length && from + n <= src.Length
    modifies dst
    ensures forall k :: 0 <= k < dst.Length ==>
              dst[k] == if to <= k < to + n then src[from + (k - to)] else old(dst[k])
  {
    forall i | 0 <= i < n {
      dst[to + i] := src[from + i];
    }
  }

  // memset of one row.
  method FillRow(dst: array<bv8>, to: nat, value: bv8, n: nat)
    requires to + n <= dst.Length
    modifies dst
    ensures forall k :: 0 <= k < dst.Length ==> dst[k] == if to <= k < to + n then value else old(dst[k])
  {
    forall i | 0 <= i < n {
      dst[to + i] := value;
    }
  }

  /** The clipped row copy does what a bounds test for every byte would do, and returns twice the
      number of bytes it touched. */
  method PixBlt(dst: Pixmap, x: int, y: int, src: Pixmap) returns (pixels: int)
    requires dst.Valid() && src.Valid() && dst.surf != src.surf
    modifies dst.surf
    ensures Blitted(dst.width, dst.height, old(dst.surf[..]), dst.surf[..], x, y, src.width, src.height, src.surf[..])
    ensures pixels ==
            2 * Touched(dst.height, ByteWidth(dst.width), y, HalfDown(x), src.height, ByteWidth(src.width))
  {
    var bx := HalfDown(x);
    var bY := y;
    var srcBx, srcBy := 0, 0;
    var dstStride := ByteWidth(dst.width);
    var nBytes: int := ByteWidth(src.width);
    if bx < 0 {
      srcBx := -bx;
      nBytes := nBytes + bx;
      bx := 0;
    }
    if bx + nBytes > dstStride {
      nBytes := dstStride - bx;
    }
    if nBytes <= 0 {
      TouchesNothing(dst.height, dstStride, y, HalfDown(x), src.height, ByteWidth(src.width));
      return 0;
    }
    var nLines: int := src.height;
    if bY < 0 {
      srcBy := -bY;
      nLines := nLines + bY;
      bY := 0;
    }
    if bY + nLines > dst.height {
      nLines := dst.height - bY;
    }
    if nLines <= 0 {
      TouchesNothing(dst.height, dstStride, y, HalfDown(x), src.height, ByteWidth(src.width));
      return 0;
    }
    var n := CopyLines(dst, bY, bx, src, srcBy, srcBx, nBytes, nLines);
    TouchedExactly(dst.height, dstStride, y, HalfDown(x), src.height, ByteWidth(src.width), nLines, nBytes);
    return n * 2;
  }

  /** The same for extracting a window. */
  method PixmapExtract(dst: Pixmap, x: int, y: int, src: Pixmap) returns (pixels: int)
    requires dst.Valid() && src.Valid() && dst.surf != src.surf
    modifies dst.surf
    ensures Extracted(dst.width, dst.height, old(dst.surf[..]), dst.surf[..], x, y, src.width, src.height, src.surf[..])
    ensures pixels == if x < 0 || y < 0 then 0
                      else 2 * Touched(src.height, ByteWidth(src.width), y, HalfDown(x),
                                       dst.height, ByteWidth(dst.width))
  {
    if x < 0 || y < 0 {
      return 0;
    }
    var bx := HalfDown(x);
    var dstStride, srcStride := ByteWidth(dst.width), ByteWidth(src.width);
    var nBytes: int := if dstStride > srcStride - bx then srcStride - bx else dstStride;
    if nBytes <= 0 {
      TouchesNothing(src.height, srcStride, y, bx, dst.height, dstStride);
      return 0;
    }
    var nLines: int := if dst.height <= src.height - y then dst.height else src.height - y;
    if nLines <= 0 {
      TouchesNothing(src.height, srcStride, y, bx, dst.height, dstStride);
      return 0;
    }
    var n := CopyLines(dst, 0, 0, src, y, bx, nBytes, nLines);
    TouchedExactly(src.height, srcStride, y, bx, dst.height, dstStride, nLines, nBytes);
    return n * 2;
  }

  // Lines of n bytes were overwritten with a value, from row r0 and column c0 on.
  ghost predicate LinesFilled(stride: nat, h: nat, before: seq<bv8>, after: seq<bv8>,
                              r0: nat, c0: nat, lines: nat, n: nat, value: bv8) {
    |before| == |after|
    && forall r: nat, c: nat :: r < h && c < stride ==>
         Cell(stride, after, r, c) ==
         if InRectangle(r, c, r0, c0, lines, n) then value else Cell(stride, before, r, c)
  }

  lemma {:induction false} LineFilled(stride: nat, h: nat, before: seq<bv8>, mid: seq<bv8>, after: seq<bv8>, r0: nat,
                                      c0: nat, line: nat, n: nat, value: bv8)
    requires LinesFilled(stride, h, before, mid, r0, c0, line, n, value)
    requires c0 + n <= stride && r0 + line < h && Rows(stride, h) == |mid| == |after|
    requires forall k :: 0 <= k < |mid| ==>
               var to := Rows(stride, r0 + line) + c0;
               after[k] == if to <= k < to + n then value else mid[k]
    ensures LinesFilled(stride, h, before, after, r0, c0, line + 1, n, value)
  {
    var to := Rows(stride, r0 + line) + c0;
    forall r: nat, c: nat | r < h && c < stride
      ensures Cell(stride, after, r, c) ==
              if InRectangle(r, c, r0, c0, line + 1, n) then value else Cell(stride, before, r, c)
    {
      var k := Rows(stride, r) + c;
      RowsMonotone(stride, r, h);
      if to <= k < to + n {
        SameCell(stride, r, c, r0 + line, c0 + (k - to));
      } else {
        assert Cell(stride, after, r, c) == Cell(stride, mid, r, c);
      }
    }
  }

  // The fill loop; returns the number of bytes filled.
  method FillLines(dst: Pixmap, r0: nat, c0: nat, nBytes: nat, nLines: nat, value: bv8) returns (n: nat)
    requires dst.Valid() && r0 + nLines <= dst.height && c0 + nBytes <= ByteWidth(dst.width)
    modifies dst.surf
    ensures LinesFilled(ByteWidth(dst.width), dst.height, old(dst.surf[..]), dst.surf[..],
                        r0, c0, nLines, nBytes, value)
    ensures n == Rows(nBytes, nLines)
  {
    var dstStride := ByteWidth(dst.width);
    RowsIsProduct(dstStride, r0);
    var dp := r0 * dstStride + c0;
    n := 0;
    var line := 0;
    while line < nLines
      invariant 0 <= line <= nLines
      invariant dp == Rows(dstStride, r0 + line) + c0 && n == Rows(nBytes, line)
      invariant LinesFilled(dstStride, dst.height, old(dst.surf[..]), dst.surf[..], r0, c0, line, nBytes, value)
    {
      RowsMonotone(dstStride, r0 + line, dst.height);
      ghost var mid := dst.surf[..];
      FillRow(dst.surf, dp, value, nBytes);
      LineFilled(dstStride, dst.height, old(dst.surf[..]), mid, dst.surf[..], r0, c0, line, nBytes, value);
      dp := dp + dstStride;
      n := n + nBytes;
      line := line + 1;
    }
  }

  /** The clipped row fill does what a bounds test for every byte would do, and returns twice the
      number of bytes it touched. */
  method PixFill(dst: Pixmap, x: int, y: int, width: int, height: int, color: bv8) returns (pixels: int)
    requires dst.Valid()
    modifies dst.surf
    ensures Filled(dst.width, dst.height, old(dst.surf[..]), dst.surf[..], x, y, width, height, DoubledColor(color))
    ensures pixels == 2 * Touched(dst.height, ByteWidth(dst.width), y, HalfDown(x), height, (width + 1) / 2)
  {
    var bx, bY, wd, ht := 2 * HalfDown(x), y, width, height;
    if bx < 0 {
      wd := wd + bx;
      bx := 0;
    }
    if bY < 0 {
      ht := ht + bY;
      bY := 0;
    }
    if bx + wd > dst.width {
      wd := dst.width - bx;
    }
    if bY + ht > dst.height {
      ht := dst.height - bY;
    }
    if wd <= 0 || ht <= 0 {
      TouchesNothing(dst.height, ByteWidth(dst.width), y, HalfDown(x), height, (width + 1) / 2);
      return 0;
    }
    var n := FillLines(dst, bY, bx / 2, (wd + 1) / 2, ht, DoubledColor(color));
    TouchedExactly(dst.height, ByteWidth(dst.width), y, HalfDown(x), height, (width + 1) / 2, ht, (wd + 1) / 2);
    return n * 2;
  }

  /** Both pixels of a filled byte have the low digit of the color. */
  lemma {:induction false} DoubledInNumbers(color: bv8, x: nat)
    ensures NibbleAt(DoubledColor(color), x) as int == color as int % 16
  {
    HalvesOfByte(color, 1);
    BothHalves(color, x);
  }

  lemma {:induction false} BothHalves(color: bv8, x: nat)
    ensures NibbleAt(DoubledColor(color), x) == NibbleAt(color, 1)
  {}

  function DoubledColor(color: bv8): bv8 { (color & 0x0F) | ((color & 0x0F) << 4) }
}
