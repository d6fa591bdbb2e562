/** Little-endian numbers as byte sequences. */
module LittleEndian {

  predicate IsByte(b: bv8, value: nat) { b as int == value }

  lemma {:induction false} ByteExists(value: nat)
    requires value < 256
    ensures exists b :: IsByte(b, value)
  {
    if value == 0 {
      assert IsByte(0, 0);
    } else {
      ByteExists(value - 1);
      var b :| IsByte(b, value - 1);
      assert IsByte(b + 1, value);
    }
  }

  function Byte(value: nat): (b: bv8)
    requires value < 256
    ensures b as int == value
  {
    ByteExists(value);
    ByteIsUnique(value);
    var b :| IsByte(b, value);
    b
  }

  lemma {:induction false} ByteIsUnique(value: nat)
    ensures forall b, c :: IsByte(b, value) && IsByte(c, value) ==> b == c
  {
    forall b, c | IsByte(b, value) && IsByte(c, value)
      ensures b == c
    {
      ByteOfBits(b);
      ByteOfBits(c);
    }
  }

  lemma {:induction false} ByteOfBits(b: bv8)
    ensures 0 <= b as int < 256 && (b as int) as bv8 == b
  {}

  // The n low bytes of a number, least significant first.
  function Bytes(n: nat, value: nat): (b: seq<bv8>)
    ensures |b| == n
  {
    if n == 0 then [] else [Byte(value % 256)] + Bytes(n - 1, value / 256)
  }

  function Value(b: seq<bv8>): nat {
    if b == [] then 0 else b[0] as int + 256 * Value(b[1..])
  }

  function Power256(n: nat): nat {
    if n == 0 then 1 else 256 * Power256(n - 1)
  }

  /** The bytes in numbers: byte k has the weight 256 to the k. */
  lemma {:induction false} ByteOfNumber(n: nat, value: nat, k: nat)
    requires k < n
    ensures Power256(k) > 0 && Bytes(n, value)[k] as int == value / Power256(k) % 256
  {
    if k == 0 {
      assert value / Power256(0) == value;
    } else {
      ByteOfNumber(n - 1, value / 256, k - 1);
      DivideTwice(value, Power256(k - 1));
    }
  }

  lemma {:induction false} DivideTwice(value: nat, p: nat)
    requires p > 0
    ensures 256 * p > 0 && value / 256 / p == value / (256 * p)
  {
    var q, r := value / 256 / p, value / 256 % p;
    var low := value % 256;
    assert value == 256 * (q * p + r) + low;
    assert value == q * (256 * p) + (256 * r + low);
    QuotientIs(value, 256 * p, q, 256 * r + low);
  }

  lemma {:induction false} QuotientIs(value: nat, d: nat, q: nat, r: nat)
    requires r < d && value == q * d + r
    ensures value / d == q
  {
    var q' := value / d;
    assert value == q' * d + value % d;
    assert q < q' ==> q' * d >= (q + 1) * d;
    assert q' < q ==> q * d >= (q' + 1) * d;
  }

  /** Reading back what was written. */
  lemma {:induction false} ValueOfBytes(n: nat, value: nat)
    requires value < Power256(n)
    ensures Value(Bytes(n, value)) == value
  {
    if n > 0 {
      ValueOfBytes(n - 1, value / 256);
      assert Bytes(n, value)[1..] == Bytes(n - 1, value / 256);
    }
  }
}

/** Writing the screen as a bitmap file of four bits a pixel, and reading such a file. */
module Screenshots {
  import opened Integers
  import opened Framebuffer
  import opened LittleEndian

  const PIXEL_OFFSET := 118
  const COLORS: nat := 16

  // The row size of a bitmap file, as the writer computes it in 32 bits.
  function FileStride(width: uint32): nat { Wrap(Wrap(width * 4) + 31) / 32 * 4 }

  const MAX_WIDTH := 0x3FFF_FFF8

  // The screens whose rows fit the writer's row buffer, and whose height is a positive 32-bit int.
  predicate Writable(g: Geometry) { g.width <= MAX_WIDTH && g.height < 0x8000_0000 }

  // The screens whose file size fits its 32-bit header field.
  predicate SizeFits(g: Geometry) { PIXEL_OFFSET + Rows(FileStride(g.width), g.height) < TWO32 }

  /** The row size is a multiple of four bytes. It holds the pixels of a row if and only if the 32-bit
      computation does not wrap, and then it is the least such size. */
  lemma {:induction false} StrideIsLeast(width: uint32, stride: nat)
    ensures FileStride(width) % 4 == 0
    ensures FileStride(width) >= (width + 1) / 2 <==> width <= MAX_WIDTH
    ensures width <= MAX_WIDTH && stride % 4 == 0 && stride >= (width + 1) / 2 ==> stride >= FileStride(width)
  {
    if width <= MAX_WIDTH {
      NoWrap(width * 4);
      NoWrap(width * 4 + 31);
    }
  }

  // A fixed-size header field.
  datatype Field = Field(size: nat, value: nat)

  // The fields of the two headers, in file order; sizes are computed in 32 bits.
  function Fields(g: Geometry): seq<Field> {
    var image := Rows(FileStride(g.width), g.height);
    [Field(2, 0x4D42), Field(4, Wrap(PIXEL_OFFSET + Wrap(image))), Field(4, 0), Field(4, PIXEL_OFFSET),
     Field(4, 40), Field(4, g.width), Field(4, g.height), Field(2, 1), Field(2, 4), Field(4, 0),
     Field(4, Wrap(image)), Field(4, 2835), Field(4, 2835), Field(4, 16), Field(4, 16)]
  }

  // Where field i starts.
  function OffsetOf(fields: seq<Field>, i: nat): nat
    requires i <= |fields|
  {
    if i == 0 then 0 else OffsetOf(fields, i - 1) + fields[i - 1].size
  }

  function Encoded(fields: seq<Field>, n: nat): (b: seq<bv8>)
    requires n <= |fields|
    ensures |b| == OffsetOf(fields, n)
  {
    if n == 0 then [] else Encoded(fields, n - 1) + Bytes(fields[n - 1].size, fields[n - 1].value)
  }

  lemma {:induction false} SliceOfPrefix(a: seq<bv8>, b: seq<bv8>, i: nat, j: nat)
    requires i <= j <= |a|
    ensures (a + b)[i..j] == a[i..j]
  {}

  lemma {:induction false} FieldAt(fields: seq<Field>, n: nat, i: nat)
    requires i < n <= |fields|
    ensures OffsetOf(fields, i + 1) <= OffsetOf(fields, n)
    ensures Encoded(fields, n)[OffsetOf(fields, i)..OffsetOf(fields, i + 1)] == Bytes(fields[i].size, fields[i].value)
  {
    if i < n - 1 {
      FieldAt(fields, n - 1, i);
      SliceOfPrefix(Encoded(fields, n - 1), Bytes(fields[n - 1].size, fields[n - 1].value),
                    OffsetOf(fields, i), OffsetOf(fields, i + 1));
    }
  }

  function Shade(i: nat): bv8
    requires i < 16
  {
    255 - (i as bv8) * 17
  }

  function PaletteByte(k: nat): bv8
    requires k < 64
  {
    if k % 4 == 3 then 0 else Shade(k / 4)
  }

  function Palette(n: nat): seq<bv8>
    requires n <= COLORS
  {
    seq(4 * n, k requires 0 <= k < 64 => PaletteByte(k))
  }

  lemma {:induction false} OneMoreColour(n: nat)
    requires n < COLORS
    ensures Palette(n + 1) == Palette(n) + [Shade(n), Shade(n), Shade(n), 0]
  {
    var a, b := Palette(n + 1), Palette(n) + [Shade(n), Shade(n), Shade(n), 0];
    assert PaletteByte(4 * n) == PaletteByte(4 * n + 1) == PaletteByte(4 * n + 2) == Shade(n);
    assert forall k :: 0 <= k < |a| ==> a[k] == b[k];
  }

  // The display, as far as the writer sees it: the level of a pixel.
  type Pixels = (nat, nat) -> bv8

  // The byte of a row that holds pixels 2c and 2c + 1; padding is zero.
  function RowByte(px: Pixels, width: nat, y: nat, c: nat): bv8 {
    (if 2 * c < width then Nibble(px(2 * c, y)) << 4 else 0)
    | (if 2 * c + 1 < width then Nibble(px(2 * c + 1, y)) else 0)
  }

  function RowBytes(px: Pixels, width: nat, y: nat, stride: nat): seq<bv8> {
    seq(stride, c requires 0 <= c < stride => RowByte(px, width, y, c))
  }

  // The first n rows of the file: the screen from its last row up.
  function PixelRows(px: Pixels, g: Geometry, n: nat): (b: seq<bv8>)
    requires n <= g.height
    ensures |b| == Rows(FileStride(g.width), n)
  {
    if n == 0 then []
    else PixelRows(px, g, n - 1) + RowBytes(px, g.width, g.height - n, FileStride(g.width))
  }

  function Body(px: Pixels, g: Geometry): seq<bv8> { Palette(COLORS) + PixelRows(px, g, g.height) }

  function Bitmap(px: Pixels, g: Geometry): seq<bv8> { Encoded(Fields(g), |Fields(g)|) + Body(px, g) }

  // ---- The writer ----

  method WriteHeaders(g: Geometry) returns (file: seq<bv8>)
    ensures file == Encoded(Fields(g), |Fields(g)|)
  {
    var fields := Fields(g);
    file := [];
    var i := 0;
    while i < |fields|
      invariant 0 <= i <= |fields| && file == Encoded(fields, i)
    {
      file := file + Bytes(fields[i].size, fields[i].value);
      i := i + 1;
    }
  }

  method WritePalette(file: seq<bv8>) returns (r: seq<bv8>)
    ensures r == file + Palette(COLORS)
  {
    r := file;
    var i := 0;
    while i < COLORS
      invariant 0 <= i <= COLORS && r == file + Palette(i)
    {
      var shade := 255 - (i as bv8) * 17;
      r := r + [shade, shade, shade, 0];
      OneMoreColour(i);
      i := i + 1;
    }
  }

  method WriteRow(px: Pixels, width: nat, y: nat, rowBuffer: array<bv8>)
    requires (width + 1) / 2 <= rowBuffer.Length
    modifies rowBuffer
    ensures rowBuffer[..] == RowBytes(px, width, y, rowBuffer.Length)
  {
    var c := 0;
    while c < rowBuffer.Length
      invariant 0 <= c <= rowBuffer.Length && forall j :: 0 <= j < c ==> rowBuffer[j] == 0
    {
      rowBuffer[c] := 0;
      c := c + 1;
    }
    var x := 0;
    while x < width
      invariant 0 <= x <= width
      invariant forall j :: 0 <= j < rowBuffer.Length ==> rowBuffer[j] == RowByte(px, x, y, j)
    {
      var raw := px(x, y);
      var paletteIdx := (255 - raw) / 17;
      RowByteGrows(px, x, y);
      if x % 2 == 0 {
        rowBuffer[x / 2] := rowBuffer[x / 2] | (paletteIdx << 4);
      }
      if x % 2 != 0 {
        rowBuffer[x / 2] := rowBuffer[x / 2] | (paletteIdx & 0x0F);
      }
      x := x + 1;
    }
  }

  // One more pixel changes one byte.
  lemma {:induction false} RowByteGrows(px: Pixels, x: nat, y: nat)
    ensures RowByte(px, x + 1, y, x / 2) ==
            if x % 2 == 0 then RowByte(px, x, y, x / 2) | (Nibble(px(x, y)) << 4)
            else RowByte(px, x, y, x / 2) | (Nibble(px(x, y)) & 0x0F)
    ensures forall j: nat :: j != x / 2 ==> RowByte(px, x + 1, y, j) == RowByte(px, x, y, j)
  {}

  method WritePixelRows(px: Pixels, g: Geometry, stride: nat) returns (rows: seq<bv8>)
    requires stride == FileStride(g.width) && (g.width + 1) / 2 <= stride
    ensures rows == PixelRows(px, g, g.height)
  {
    rows := [];
    var rowBuffer := new bv8[stride](i => 0);
    var y: int := g.height - 1;
    while y >= 0
      invariant -1 <= y < g.height
      invariant rows == PixelRows(px, g, g.height - 1 - y)
    {
      WriteRow(px, g.width, y, rowBuffer);
      rows := rows + rowBuffer[..];
      y := y - 1;
    }
  }

  lemma {:induction false} PartsOfBitmap(px: Pixels, g: Geometry, headers: seq<bv8>, rows: seq<bv8>)
    requires headers == Encoded(Fields(g), |Fields(g)|) && rows == PixelRows(px, g, g.height)
    ensures headers + Palette(COLORS) + rows == Bitmap(px, g)
  {
    Grouped(headers, Palette(COLORS), rows);
  }

  lemma {:induction false} Grouped(a: seq<bv8>, b: seq<bv8>, c: seq<bv8>)
    ensures a + b + c == a + (b + c)
  {}

  method WriteBmp(px: Pixels, g: Geometry) returns (file: seq<bv8>)
    requires Writable(g)
    ensures file == Bitmap(px, g)
  {
    var stride := FileStride(g.width);
    StrideIsLeast(g.width, 0);
    var headers := WriteHeaders(g);
    file := WritePalette(headers);
    var rows := WritePixelRows(px, g, stride);
    PartsOfBitmap(px, g, headers, rows);
    file := file + rows;
  }

  // ---- A reader that trusts nothing but the file ----

  function ReadField(file: seq<bv8>, start: nat, size: nat): nat {
    if start + size <= |file| then Value(file[start..start + size]) else 0
  }

  // It refuses any file that is not a bitmap of four bits a pixel in one plane, without compression, behind a
  // header of 40 bytes. The blue, green and red of the pixel in column x of row y, counted from the top.
  function ReadPixel(file: seq<bv8>, x: nat, y: nat): ReadBack {
    var offset, width, height := ReadField(file, 10, 4), ReadField(file, 18, 4), ReadField(file, 22, 4);
    var stride := (width * 4 + 31) / 32 * 4;
    if ReadField(file, 0, 2) != 0x4D42 || ReadField(file, 14, 4) != 40 || ReadField(file, 26, 2) != 1
       || ReadField(file, 28, 2) != 4 || ReadField(file, 30, 4) != 0 || x >= width || y >= height
    then NoPixel
    else
      var k := offset + (height - 1 - y) * stride + x / 2;
      if k < 0 || k >= |file| then NoPixel
      else
        var entry := 54 + 4 * (NibbleAt(file[k], x) as int);
        if entry + 2 < |file| then Colour(file[entry], file[entry + 1], file[entry + 2]) else NoPixel
  }

  datatype ReadBack = NoPixel | Colour(blue: bv8, green: bv8, red: bv8)

  lemma {:induction false} EncodedFieldReads(fields: seq<Field>, body: seq<bv8>, i: nat)
    requires i < |fields| && fields[i].value < Power256(fields[i].size)
    ensures ReadField(Encoded(fields, |fields|) + body, OffsetOf(fields, i), fields[i].size) == fields[i].value
  {
    FieldAt(fields, |fields|, i);
    ValueOfBytes(fields[i].size, fields[i].value);
    SliceOfPrefix(Encoded(fields, |fields|), body, OffsetOf(fields, i), OffsetOf(fields, i + 1));
  }

  lemma {:induction false} FieldReads(px: Pixels, g: Geometry, fields: seq<Field>, i: nat)
    requires fields == Fields(g) && i < 15 && fields[i].value < Power256(fields[i].size)
    ensures ReadField(Bitmap(px, g), OffsetOf(fields, i), fields[i].size) == fields[i].value
  {
    EncodedFieldReads(fields, Body(px, g), i);
  }

  lemma {:induction false} Offsets(g: Geometry)
    ensures var f := Fields(g);
            OffsetOf(f, 0) == 0 && OffsetOf(f, 1) == 2 && OffsetOf(f, 2) == 6 && OffsetOf(f, 3) == 10
            && OffsetOf(f, 4) == 14 && OffsetOf(f, 5) == 18 && OffsetOf(f, 6) == 22 && OffsetOf(f, 7) == 26
            && OffsetOf(f, 8) == 28 && OffsetOf(f, 9) == 30 && OffsetOf(f, 10) == 34 && OffsetOf(f, 11) == 38
            && OffsetOf(f, 12) == 42 && OffsetOf(f, 13) == 46 && OffsetOf(f, 14) == 50 && OffsetOf(f, 15) == 54
  {
    var f := Fields(g);
    assert OffsetOf(f, 0) == 0;
    assert OffsetOf(f, 1) == 2;
    assert OffsetOf(f, 2) == 6;
    assert OffsetOf(f, 3) == 10;
    assert OffsetOf(f, 4) == 14;
    assert OffsetOf(f, 5) == 18;
    assert OffsetOf(f, 6) == 22;
    assert OffsetOf(f, 7) == 26;
    assert OffsetOf(f, 8) == 28;
    assert OffsetOf(f, 9) == 30;
    assert OffsetOf(f, 10) == 34;
    assert OffsetOf(f, 11) == 38;
    assert OffsetOf(f, 12) == 42;
    assert OffsetOf(f, 13) == 46;
    assert OffsetOf(f, 14) == 50;
  }

  lemma {:induction false} Powers()
    ensures Power256(2) == 0x1_0000 && Power256(4) == TWO32
  {
    assert Power256(1) == 256;
    assert Power256(3) == 0x100_0000;
  }

  lemma {:induction false} WrappedSizes(image: nat)
    ensures Wrap(PIXEL_OFFSET + Wrap(image)) == PIXEL_OFFSET + image <==> PIXEL_OFFSET + image < TWO32
    ensures Wrap(image) == image <==> image < TWO32
  {
    WrapAdd(image, PIXEL_OFFSET);
  }

  /** The size fields are the real lengths if and only if these fit their 32 bits; the offset always is. */
  lemma {:induction false} SizeFieldsAreLengths(px: Pixels, g: Geometry)
    requires Writable(g)
    ensures ReadField(Bitmap(px, g), 2, 4) == |Bitmap(px, g)| <==> SizeFits(g)
    ensures ReadField(Bitmap(px, g), 34, 4) == |Bitmap(px, g)| - PIXEL_OFFSET <==>
            Rows(FileStride(g.width), g.height) < TWO32
    ensures ReadField(Bitmap(px, g), 10, 4) == PIXEL_OFFSET
  {
    Offsets(g);
    Powers();
    FieldReads(px, g, Fields(g), 1);
    FieldReads(px, g, Fields(g), 3);
    FieldReads(px, g, Fields(g), 10);
    HeaderLength(g);
    WrappedSizes(Rows(FileStride(g.width), g.height));
  }

  /** Every other field of the two headers, in numbers: the letters BM, nothing in the reserved bytes, a header
      of 40 bytes, width and height, one plane, four bits a pixel, no compression, 2835 pixels a metre either
      way, and sixteen colours, all of them important. */
  lemma {:induction false} FieldsInNumbers(px: Pixels, g: Geometry)
    requires Writable(g)
    ensures var file := Bitmap(px, g);
            && ReadField(file, 0, 2) == 0x42 + 256 * 0x4D && ReadField(file, 6, 4) == 0
            && ReadField(file, 14, 4) == 40
            && ReadField(file, 18, 4) == g.width && ReadField(file, 22, 4) == g.height
            && ReadField(file, 26, 2) == 1 && ReadField(file, 28, 2) == 4 && ReadField(file, 30, 4) == 0
            && ReadField(file, 38, 4) == 2835 && ReadField(file, 42, 4) == 2835
            && ReadField(file, 46, 4) == 16 && ReadField(file, 50, 4) == 16
  {
    Offsets(g);
    Powers();
    FieldReads(px, g, Fields(g), 0);
    FieldReads(px, g, Fields(g), 2);
    FieldReads(px, g, Fields(g), 4);
    FieldReads(px, g, Fields(g), 5);
    FieldReads(px, g, Fields(g), 6);
    FieldReads(px, g, Fields(g), 7);
    FieldReads(px, g, Fields(g), 8);
    FieldReads(px, g, Fields(g), 9);
    FieldReads(px, g, Fields(g), 11);
    FieldReads(px, g, Fields(g), 12);
    FieldReads(px, g, Fields(g), 13);
    FieldReads(px, g, Fields(g), 14);
  }

  lemma {:induction false} PaletteAt(i: nat)
    requires i < COLORS
    ensures var p := Palette(COLORS);
            p[4 * i] == p[4 * i + 1] == p[4 * i + 2] == Shade(i) && p[4 * i + 3] == 0
  {
    assert (4 * i + 1) / 4 == i && (4 * i + 2) / 4 == i;
  }

  lemma {:induction false} PixelRowAt(px: Pixels, g: Geometry, n: nat, row: nat, c: nat)
    requires row < n <= g.height && c < FileStride(g.width)
    ensures Rows(FileStride(g.width), row) + c < Rows(FileStride(g.width), n)
    ensures PixelRows(px, g, n)[Rows(FileStride(g.width), row) + c] == RowByte(px, g.width, g.height - 1 - row, c)
  {
    if row < n - 1 {
      PixelRowAt(px, g, n - 1, row, c);
    }
  }

  lemma {:induction false} RowByteNibble(px: Pixels, width: nat, y: nat, x: nat)
    requires x < width
    ensures NibbleAt(RowByte(px, width, y, x / 2), x) == Nibble(px(x, y))
  {}

  lemma {:induction false} NibbleIndex(n: bv8)
    requires n < 16
    ensures 0 <= n as int < 16 && (n as int) as bv8 == n
  {
    ByteOfBits(n);
  }

  lemma {:induction false} IndexInTail(a: seq<bv8>, b: seq<bv8>, c: seq<bv8>, k: nat)
    requires k < |c|
    ensures (a + (b + c))[|a| + |b| + k] == c[k]
  {}

  lemma {:induction false} HeaderLength(g: Geometry)
    ensures |Encoded(Fields(g), |Fields(g)|)| == 54
  {
    Offsets(g);
  }

  lemma {:induction false} BodyByteAt(px: Pixels, g: Geometry, k: nat)
    requires k < Rows(FileStride(g.width), g.height)
    ensures PIXEL_OFFSET + k < |Bitmap(px, g)|
    ensures Bitmap(px, g)[PIXEL_OFFSET + k] == PixelRows(px, g, g.height)[k]
  {
    HeaderLength(g);
    IndexInTail(Encoded(Fields(g), |Fields(g)|), Palette(COLORS), PixelRows(px, g, g.height), k);
  }

  // The byte of the pixel rows that holds a pixel.
  lemma {:induction false} PixelInRows(px: Pixels, g: Geometry, x: nat, y: nat, k: nat)
    requires Writable(g) && x < g.width && y < g.height
    requires k == Rows(FileStride(g.width), g.height - 1 - y) + x / 2
    ensures k < Rows(FileStride(g.width), g.height)
    ensures NibbleAt(PixelRows(px, g, g.height)[k], x) == Nibble(px(x, y))
  {
    StrideIsLeast(g.width, 0);
    PixelRowAt(px, g, g.height, g.height - 1 - y, x / 2);
    RowByteNibble(px, g.width, y, x);
  }

  // The palette entry of index i is this shade of gray.
  predicate HasEntry(file: seq<bv8>, i: nat, shade: bv8) {
    54 + 4 * i + 2 < |file|
    && file[54 + 4 * i] == file[54 + 4 * i + 1] == file[54 + 4 * i + 2] == shade
  }

  lemma {:induction false} IndexInMiddle(a: seq<bv8>, b: seq<bv8>, c: seq<bv8>, k: nat)
    requires k < |b|
    ensures |a| + k < |a + (b + c)| && (a + (b + c))[|a| + k] == b[k]
  {}

  // Where a file of three parts holds an entry of its palette.
  lemma {:induction false} EntryInFile(headers: seq<bv8>, palette: seq<bv8>, rows: seq<bv8>, i: nat, shade: bv8)
    requires |headers| == 54 && 4 * i + 3 < |palette|
    requires palette[4 * i] == palette[4 * i + 1] == palette[4 * i + 2] == shade && palette[4 * i + 3] == 0
    ensures HasEntry(headers + (palette + rows), i, shade)
    ensures (headers + (palette + rows))[54 + 4 * i + 3] == 0
  {
    IndexInMiddle(headers, palette, rows, 4 * i);
    IndexInMiddle(headers, palette, rows, 4 * i + 1);
    IndexInMiddle(headers, palette, rows, 4 * i + 2);
    IndexInMiddle(headers, palette, rows, 4 * i + 3);
  }

  lemma {:induction false} ShadeInNumbers(i: nat)
    requires i < 16
    ensures Shade(i) as int == 255 - 17 * i
  {
    ByteOfBits(i as bv8);
  }

  /** The palette: sixteen entries of four bytes behind the headers, from white down to black in steps of 17,
      the fourth byte zero. */
  lemma {:induction false} PaletteInNumbers(px: Pixels, g: Geometry, i: nat)
    requires i < 16
    ensures var k := 54 + 4 * i;
            k + 3 < |Bitmap(px, g)|
            && Bitmap(px, g)[k] as int == 255 - 17 * i && Bitmap(px, g)[k + 1] as int == 255 - 17 * i
            && Bitmap(px, g)[k + 2] as int == 255 - 17 * i && Bitmap(px, g)[k + 3] == 0
  {
    HeaderLength(g);
    PaletteAt(i);
    EntryInFile(Encoded(Fields(g), |Fields(g)|), Palette(COLORS), PixelRows(px, g, g.height), i, Shade(i));
    ShadeInNumbers(i);
  }

  lemma {:induction false} ShadeIsLevel(n: bv8)
    requires n < 16
    ensures 0 <= n as int < COLORS && Shade(n as int) == Level(n)
  {
    NibbleIndex(n);
  }

  predicate HasHeader(file: seq<bv8>, g: Geometry) {
    ReadField(file, 0, 2) == 0x4D42 && ReadField(file, 10, 4) == PIXEL_OFFSET && ReadField(file, 14, 4) == 40
    && ReadField(file, 18, 4) == g.width && ReadField(file, 22, 4) == g.height
    && ReadField(file, 26, 2) == 1 && ReadField(file, 28, 2) == 4 && ReadField(file, 30, 4) == 0
  }

  // What the reader does once the header, the palette and the pixel's byte are as written.
  lemma {:induction false} ReadsThroughPalette(file: seq<bv8>, g: Geometry, x: nat, y: nat, k: nat, i: nat,
                                               shade: bv8)
    requires Writable(g) && x < g.width && y < g.height && HasHeader(file, g) && HasEntry(file, i, shade)
    requires k == Rows(FileStride(g.width), g.height - 1 - y) + x / 2
    requires PIXEL_OFFSET + k < |file| && NibbleAt(file[PIXEL_OFFSET + k], x) as int == i
    ensures ReadPixel(file, x, y) == Colour(shade, shade, shade)
  {
    NoWrap(g.width * 4);
    NoWrap(g.width * 4 + 31);
    RowsIsProduct(FileStride(g.width), g.height - 1 - y);
  }

  lemma {:induction false} NibbleIsSmall(v: bv8)
    ensures Nibble(v) < 16 && Level(Nibble(v)) == Quantize(v)
  {}

  // Reading a pixel through any headers that describe the screen and any palette with the pixel's gray.
  lemma {:induction false} ReadsFromParts(headers: seq<bv8>, palette: seq<bv8>, px: Pixels, g: Geometry,
                                          x: nat, y: nat, i: nat)
    requires Writable(g) && x < g.width && y < g.height && i == Nibble(px(x, y)) as int < COLORS
    requires |headers| == 54 && |palette| == 64
    requires HasHeader(headers + (palette + PixelRows(px, g, g.height)), g)
    requires palette[4 * i] == palette[4 * i + 1] == palette[4 * i + 2] == Quantize(px(x, y))
    requires palette[4 * i + 3] == 0
    ensures ReadPixel(headers + (palette + PixelRows(px, g, g.height)), x, y) ==
            Colour(Quantize(px(x, y)), Quantize(px(x, y)), Quantize(px(x, y)))
  {
    var k := Rows(FileStride(g.width), g.height - 1 - y) + x / 2;
    var rows := PixelRows(px, g, g.height);
    PixelInRows(px, g, x, y, k);
    EntryInFile(headers, palette, rows, i, Quantize(px(x, y)));
    IndexInTail(headers, palette, rows, k);
    ReadsThroughPalette(headers + (palette + rows), g, x, y, k, i, Quantize(px(x, y)));
  }

  /** Reading any pixel of a written file gives its level rounded up to a multiple of 17, in gray. */
  lemma {:induction false} BitmapRoundTrip(px: Pixels, g: Geometry, x: nat, y: nat)
    requires Writable(g) && x < g.width && y < g.height
    ensures ReadPixel(Bitmap(px, g), x, y) ==
            Colour(Quantize(px(x, y)), Quantize(px(x, y)), Quantize(px(x, y)))
  {
    var n := Nibble(px(x, y));
    NibbleIsSmall(px(x, y));
    ShadeIsLevel(n);
    HeaderLength(g);
    PaletteAt(n as int);
    assert HasHeader(Bitmap(px, g), g) by {
      FieldsInNumbers(px, g);
      SizeFieldsAreLengths(px, g);
    }
    ReadsFromParts(Encoded(Fields(g), |Fields(g)|), Palette(COLORS), px, g, x, y, n as int);
  }

  /** A row is filled up with zeros behind its pixels. */
  lemma {:induction false} PaddingIsZero(px: Pixels, g: Geometry, row: nat, c: nat)
    requires Writable(g) && row < g.height && (g.width + 1) / 2 <= c < FileStride(g.width)
    ensures var k := 118 + row * FileStride(g.width) + c;
            0 <= k < |Bitmap(px, g)| && Bitmap(px, g)[k] == 0
  {
    PixelRowAt(px, g, g.height, row, c);
    BodyByteAt(px, g, Rows(FileStride(g.width), row) + c);
    RowsIsProduct(FileStride(g.width), row);
  }

  /** For the packed framebuffer the file holds every pixel exactly. */
  lemma {:induction false} ScreenRoundTrip(g: Geometry, mem: seq<bv8>, px: Pixels, x: uint32, y: uint32)
    requires Writable(g) && Fits(g, mem) && OnScreen(g, x, y)
    requires forall i: uint32, j: uint32 :: px(i, j) == Pixel(g, mem, i, j)
    ensures ReadPixel(Bitmap(px, g), x, y) ==
            Colour(Pixel(g, mem, x, y), Pixel(g, mem, x, y), Pixel(g, mem, x, y))
  {
    BitmapRoundTrip(px, g, x, y);
    LevelIsFixed(NibbleAt(mem[ByteIndex(g, x, y)], x));
    assert px(x, y) == Pixel(g, mem, x, y);
  }
}
