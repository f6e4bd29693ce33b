/**
 * A decoder for uncompressed bottom-up 24-bit bitmaps that trusts only the written header
 * (BITMAPINFOHEADER, section 2.2.2.3 of [MS-WMF]), and what it finds in an encoded picture.
 */
module BmpDecoder {
  import opened Bmp

  datatype Colour = Colour(b: byte, g: byte, r: byte)

  /** Bytes per row, as the format defines them for 24 bits per pixel. */
  function ScanLine(w: nat): (s: nat)
    ensures 3 * w <= s
  {
    (24 * w + 31) / 32 * 4
  }

  function Width(file: seq<byte>): nat
    requires |file| >= HEADER_SIZE
  {
    U32At(file, 18)
  }

  function Height(file: seq<byte>): nat
    requires |file| >= HEADER_SIZE
  {
    U32At(file, 22)
  }

  function DataOffset(file: seq<byte>): nat
    requires |file| >= HEADER_SIZE
  {
    U32At(file, 10)
  }

  /** The size of `n` rows. */
  function LinesSize(file: seq<byte>, n: nat): nat
    requires |file| >= HEADER_SIZE
  {
    ScanLine(Width(file)) * n
  }

  predicate Decodable(file: seq<byte>) {
    && |file| >= HEADER_SIZE
    && file[0] == 'B' as int && file[1] == 'M' as int
    && U32At(file, 14) == 40 && U16At(file, 26) == 1 && U16At(file, 28) == 24 && U32At(file, 30) == 0
    && DataOffset(file) + LinesSize(file, Height(file)) <= |file|
  }

  /** Where the decoder looks for the row `y` rows below the top. */
  function RowOffset(file: seq<byte>, y: nat): nat
    requires |file| >= HEADER_SIZE && y < Height(file)
  {
    DataOffset(file) + LinesSize(file, Height(file) - 1 - y)
  }

  lemma LineWithin(s: nat, n: nat, y: nat, m: nat, o: nat, size: nat)
    requires y < n && m <= s && o + s * n <= size
    ensures o + s * (n - 1 - y) + m <= size
  {
    assert s * n == s * (n - 1 - y) + s + s * y;
  }

  lemma RowFits(file: seq<byte>, y: nat)
    requires Decodable(file) && y < Height(file)
    ensures RowOffset(file, y) + 3 * Width(file) <= |file|
  {
    var w, n := Width(file), Height(file);
    LineWithin(ScanLine(w), n, y, 3 * w, DataOffset(file), |file|);
  }

  function Decode(file: seq<byte>, x: nat, y: nat): Colour
    requires Decodable(file) && x < Width(file) && y < Height(file)
  {
    RowFits(file, y);
    var o := RowOffset(file, y) + 3 * x;
    Colour(file[o], file[o + 1], file[o + 2])
  }

  lemma ScanLineIsRowSize(w: nat)
    ensures ScanLine(w) == RowSize(w)
    ensures RowSize(w) % 4 == 0
  {
    var q, r := w / 4, w % 4;
    assert 24 * w + 31 == 32 * (3 * q + r) + (31 - 8 * r);
    assert RowSize(w) == 4 * (3 * q + r);
  }

  lemma SameField(file: seq<byte>, n: nat, o: nat)
    requires o + 4 <= n <= |file|
    ensures U32At(file, o) == U32At(file[..n], o) && U16At(file, o) == U16At(file[..n], o)
  {
    assert file[..n][o..o + 4] == file[o..o + 4] && file[..n][o..o + 2] == file[o..o + 2];
  }

  lemma HeaderInFile(file: seq<byte>, px: seq<byte>, w: nat, h: nat, stride: nat)
    requires Covers(px, w, h, stride) && IsBmp(file, px, w, h, stride)
    ensures Width(file) == w && Height(file) == h && DataOffset(file) == HEADER_SIZE
    ensures file[0] == 'B' as int && file[1] == 'M' as int
    ensures U32At(file, 14) == 40 && U16At(file, 26) == 1 && U16At(file, 28) == 24 && U32At(file, 30) == 0
  {
    SameField(file, HEADER_SIZE, 10);
    SameField(file, HEADER_SIZE, 14);
    SameField(file, HEADER_SIZE, 18);
    SameField(file, HEADER_SIZE, 22);
    SameField(file, HEADER_SIZE, 26);
    SameField(file, HEADER_SIZE, 28);
    SameField(file, HEADER_SIZE, 30);
  }

  lemma SizesInFile(file: seq<byte>, px: seq<byte>, w: nat, h: nat, stride: nat)
    requires Covers(px, w, h, stride) && IsBmp(file, px, w, h, stride)
    ensures |file| == HEADER_SIZE + ImageSize(w, h)
    ensures U32At(file, 2) == |file| % U32 && U32At(file, 34) == (|file| - HEADER_SIZE) % U32
  {
    SameField(file, HEADER_SIZE, 2);
    SameField(file, HEADER_SIZE, 34);
    RowsLength(px, w, h, stride);
  }

  lemma EncodedIsDecodable(file: seq<byte>, px: seq<byte>, w: nat, h: nat, stride: nat)
    requires Covers(px, w, h, stride) && IsBmp(file, px, w, h, stride)
    ensures Decodable(file) && Width(file) == w && Height(file) == h && DataOffset(file) == HEADER_SIZE
  {
    HeaderInFile(file, px, w, h, stride);
    assert HEADER_SIZE + ImageSize(w, h) == |file| by { SizesInFile(file, px, w, h, stride); }
    assert ScanLine(w) == RowSize(w) by { ScanLineIsRowSize(w); }
  }

  /** Decoding pixel (x, y) yields exactly the colour bytes of the source buffer. */
  ghost predicate PixelDecodes(file: seq<byte>, px: seq<byte>, stride: nat, x: nat, y: nat) {
    var o := RowBase(y, stride) + 4 * x;
    && Decodable(file) && x < Width(file) && y < Height(file)
    && o + 2 < |px|
    && Decode(file, x, y) == Colour(px[o], px[o + 1], px[o + 2])
  }

  /** Where row `y` is in a file that has the rows. */
  function RowStart(w: nat, h: nat, y: nat): nat
    requires y < h
  {
    HEADER_SIZE + ImageSize(w, h - 1 - y)
  }

  lemma SliceOfDrop(s: seq<byte>, d: nat, k: nat, n: nat)
    requires d + k + n <= |s|
    ensures s[d..][k..k + n] == s[d + k..d + k + n]
  {
  }

  lemma RowInFile(file: seq<byte>, px: seq<byte>, w: nat, h: nat, stride: nat, y: nat)
    requires Covers(px, w, h, stride) && HasRows(file, px, w, h, stride) && y < h
    ensures RowBase(y, stride) + 4 * w <= |px| + 1
    ensures var o := RowStart(w, h, y);
            && o + RowSize(w) <= |file|
            && file[o..o + RowSize(w)] == RowBytes(px, w, y, stride)
  {
    RowAt(px, w, h, stride, y);
    RowLength(px, w, y, stride);
    SliceOfDrop(file, HEADER_SIZE, ImageSize(w, h - 1 - y), RowSize(w));
  }

  lemma ByteOfSlice(s: seq<byte>, o: nat, n: nat, i: nat)
    requires o + n <= |s| && i < n
    ensures s[o..o + n][i] == s[o + i]
  {
  }

  lemma PixelInRow(px: seq<byte>, w: nat, y: nat, stride: nat, x: nat, c: nat)
    requires RowBase(y, stride) + 4 * w <= |px| + 1 && x < w && c < 3
    ensures |RowBytes(px, w, y, stride)| == RowSize(w)
    ensures RowBytes(px, w, y, stride)[3 * x + c] == px[RowBase(y, stride) + 4 * x + c]
  {
    RowLength(px, w, y, stride);
    PixelAt(px, RowBase(y, stride), 0, w, x, c);
  }

  lemma PixelInFile(file: seq<byte>, px: seq<byte>, w: nat, h: nat, stride: nat, x: nat, y: nat, c: nat)
    requires Covers(px, w, h, stride) && HasRows(file, px, w, h, stride) && x < w && y < h && c < 3
    ensures var o, p := RowStart(w, h, y) + 3 * x + c, RowBase(y, stride) + 4 * x + c;
            && o < |file| && p < |px|
            && file[o] == px[p]
  {
    var o := RowStart(w, h, y);
    RowInFile(file, px, w, h, stride, y);
    PixelInRow(px, w, y, stride, x, c);
    ByteOfSlice(file, o, RowSize(w), 3 * x + c);
  }

  lemma RowOffsetIs(file: seq<byte>, w: nat, h: nat, y: nat)
    requires |file| >= HEADER_SIZE && Width(file) == w && Height(file) == h && DataOffset(file) == HEADER_SIZE
    requires y < h
    ensures RowOffset(file, y) == RowStart(w, h, y)
  {
    ScanLineIsRowSize(w);
  }

  lemma DecodeAt(file: seq<byte>, x: nat, y: nat, o: nat)
    requires Decodable(file) && x < Width(file) && y < Height(file) && o == RowOffset(file, y)
    ensures o + 3 * x + 2 < |file|
    ensures Decode(file, x, y) == Colour(file[o + 3 * x], file[o + 3 * x + 1], file[o + 3 * x + 2])
  {
    RowFits(file, y);
  }

  lemma PixelRoundTrip(file: seq<byte>, px: seq<byte>, w: nat, h: nat, stride: nat, x: nat, y: nat)
    requires Covers(px, w, h, stride) && HasRows(file, px, w, h, stride)
    requires Decodable(file) && Width(file) == w && Height(file) == h && DataOffset(file) == HEADER_SIZE
    requires x < w && y < h
    ensures PixelDecodes(file, px, stride, x, y)
  {
    var o := RowStart(w, h, y);
    RowOffsetIs(file, w, h, y);
    DecodeAt(file, x, y, o);
    PixelInFile(file, px, w, h, stride, x, y, 0);
    PixelInFile(file, px, w, h, stride, x, y, 1);
    PixelInFile(file, px, w, h, stride, x, y, 2);
  }

  /** Every encoded picture decodes, to the size and at every pixel to the colours that were encoded. */
  lemma RoundTrip(file: seq<byte>, px: seq<byte>, w: nat, h: nat, stride: nat)
    requires Covers(px, w, h, stride) && IsBmp(file, px, w, h, stride)
    ensures Decodable(file) && Width(file) == w && Height(file) == h
    ensures forall x: nat, y: nat :: x < w && y < h ==> PixelDecodes(file, px, stride, x, y)
  {
    EncodedIsDecodable(file, px, w, h, stride);
    forall x: nat, y: nat | x < w && y < h ensures PixelDecodes(file, px, stride, x, y) {
      PixelRoundTrip(file, px, w, h, stride, x, y);
    }
  }

  lemma WrapsExactly(n: nat)
    ensures n % U32 == n <==> n < U32
  {
  }

  /** The size field is right exactly when the file is smaller than 4 GiB; the pixels decode either way. */
  lemma SizeFieldExactly(file: seq<byte>, px: seq<byte>, w: nat, h: nat, stride: nat)
    requires Covers(px, w, h, stride) && IsBmp(file, px, w, h, stride)
    ensures |file| == HEADER_SIZE + RowSize(w) * h
    ensures U32At(file, 2) == |file| <==> |file| < U32
    ensures U32At(file, 34) == |file| - HEADER_SIZE <==> |file| - HEADER_SIZE < U32
  {
    SizesInFile(file, px, w, h, stride);
    WrapsExactly(|file|);
    WrapsExactly(|file| - HEADER_SIZE);
  }

  /** A picture of 40000 by 40000 pixels decodes, but its size field is wrong. */
  lemma HugePictureWraps(file: seq<byte>, px: seq<byte>, stride: nat)
    requires Covers(px, 40000, 40000, stride) && IsBmp(file, px, 40000, 40000, stride)
    ensures Decodable(file) && U32At(file, 2) < |file|
  {
    EncodedIsDecodable(file, px, 40000, 40000, stride);
    SizesInFile(file, px, 40000, 40000, stride);
    assert RowSize(40000) == 120000;
  }

  /** There is such a file. */
  lemma HugePictureExists() returns (file: seq<byte>, px: seq<byte>)
    ensures Covers(px, 40000, 40000, 160000) && IsBmp(file, px, 40000, 40000, 160000)
  {
    px := Zeros(40000 * 160000);
    assert RowBase(39999, 160000) == 39999 * 160000;
    file := EncodingExists(px, 40000, 40000, 160000);
  }

  lemma DropOfSlice(s: seq<byte>, o: nat, n: nat, i: nat)
    requires o + n <= |s| && i <= n
    ensures s[o..o + n][i..] == s[o + i..o + n]
  {
  }

  lemma PaddingInFile(file: seq<byte>, px: seq<byte>, w: nat, h: nat, stride: nat, y: nat)
    requires Covers(px, w, h, stride) && HasRows(file, px, w, h, stride) && y < h
    ensures var o := RowStart(w, h, y);
            && o + RowSize(w) <= |file|
            && file[o + 3 * w..o + RowSize(w)] == Zeros(Pad(w))
  {
    var o := RowStart(w, h, y);
    RowInFile(file, px, w, h, stride, y);
    var row := RowBytes(px, w, y, stride);
    PixelsLength(px, RowBase(y, stride), 0, w);
    assert row[3 * w..] == Zeros(Pad(w));
    DropOfSlice(file, o, RowSize(w), 3 * w);
  }

  lemma MultipleOfFour(rs: nat, k: nat)
    requires rs % 4 == 0
    ensures rs * k % 4 == 0
  {
    assert rs * k == 4 * (rs / 4 * k);
  }

  lemma RowStartAligned(w: nat, h: nat, y: nat)
    requires y < h
    ensures (RowStart(w, h, y) - HEADER_SIZE) % 4 == 0
  {
    ScanLineIsRowSize(w);
    MultipleOfFour(RowSize(w), h - 1 - y);
  }

  /** Every row starts on a four-byte boundary of the pixel data, and is filled up with zeros. */
  lemma RowsAligned(file: seq<byte>, px: seq<byte>, w: nat, h: nat, stride: nat, y: nat)
    requires Covers(px, w, h, stride) && IsBmp(file, px, w, h, stride) && y < h
    ensures Height(file) == h
    ensures var o := RowOffset(file, y);
            && DataOffset(file) <= o && (o - DataOffset(file)) % 4 == 0
            && o + RowSize(w) <= |file|
            && file[o + 3 * w..o + RowSize(w)] == Zeros(Pad(w))
  {
    var o := RowStart(w, h, y);
    HeaderInFile(file, px, w, h, stride);
    RowOffsetIs(file, w, h, y);
    PaddingInFile(file, px, w, h, stride, y);
    RowStartAligned(w, h, y);
  }

  ghost predicate SamePixel(px: seq<byte>, base: nat, px': seq<byte>, base': nat, x: nat) {
    var o, o' := base + 4 * x, base' + 4 * x;
    o + 3 <= |px| && o' + 3 <= |px'| && px[o..o + 3] == px'[o'..o' + 3]
  }

  /** The colour bytes of two buffers agree at every pixel, whatever their strides, X bytes and padding. */
  ghost predicate SameColours(px: seq<byte>, stride: nat, px': seq<byte>, stride': nat, w: nat, h: nat)
    requires Covers(px, w, h, stride) && Covers(px', w, h, stride')
  {
    forall y: nat, x: nat :: y < h && x < w ==> SamePixel(px, RowBase(y, stride), px', RowBase(y, stride'), x)
  }

  lemma {:induction false} SamePixels(px: seq<byte>, base: nat, px': seq<byte>, base': nat, x0: nat, w: nat)
    requires x0 <= w && base + 4 * w <= |px| + 1 && base' + 4 * w <= |px'| + 1
    requires forall x: nat :: x0 <= x < w ==> SamePixel(px, base, px', base', x)
    ensures PixelsFrom(px, base, x0, w) == PixelsFrom(px', base', x0, w)
    decreases w - x0
  {
    if x0 < w {
      assert SamePixel(px, base, px', base', x0);
      SamePixels(px, base, px', base', x0 + 1, w);
    }
  }

  lemma {:induction false} SameRows(px: seq<byte>, stride: nat, px': seq<byte>, stride': nat, w: nat, h: nat)
    requires Covers(px, w, h, stride) && Covers(px', w, h, stride')
    requires SameColours(px, stride, px', stride', w, h)
    ensures Rows(px, w, h, stride) == Rows(px', w, h, stride')
  {
    if h > 0 {
      var y := h - 1;
      RowInBuffer(px, w, h, stride, y);
      RowInBuffer(px', w, h, stride', y);
      SameRows(px, stride, px', stride', w, y);
      SamePixels(px, RowBase(y, stride), px', RowBase(y, stride'), 0, w);
    }
  }

  /** The four bytes of a 32-bit number, lowest first. */
  function Word(v: nat): seq<byte> {
    [v % 0x100, v / 0x100 % 0x100, v / 0x1_0000 % 0x100, v / 0x100_0000 % 0x100]
  }

  lemma FieldIs(s: seq<byte>, o: nat, v: nat)
    requires o + 4 <= |s| && v < U32 && U32At(s, o) == v
    ensures s[o..o + 4] == Word(v)
  {
    U32OfBytes(v);
    LeInjective(s[o..o + 4], LeBytes(v, 4));
    ShiftedBytes(v);
  }

  lemma HalfFieldIs(s: seq<byte>, o: nat, v: byte)
    requires o + 2 <= |s| && U16At(s, o) == v
    ensures s[o..o + 2] == [v, 0]
  {
    U16OfBytes(v);
    LeInjective(s[o..o + 2], LeBytes(v, 2));
    assert LeBytes(v, 2) == [v % 0x100, v / 0x100 % 0x100];
  }

  lemma Constants()
    ensures Word(0) == [0, 0, 0, 0] && Word(54) == [54, 0, 0, 0] && Word(40) == [40, 0, 0, 0]
    ensures Word(2835) == [0x13, 0x0B, 0, 0]
  {
  }

  /** The bytes of the header that are the same for every picture. */
  lemma HeaderConstants(s: seq<byte>, w: nat, h: nat)
    requires IsHeader(s, w, h)
    ensures s[0] == 0x42 && s[1] == 0x4D && s[6..10] == [0, 0, 0, 0] && s[10..14] == [54, 0, 0, 0]
    ensures s[14..18] == [40, 0, 0, 0] && s[26..28] == [1, 0] && s[28..30] == [24, 0] && s[30..34] == [0, 0, 0, 0]
    ensures s[38..42] == [0x13, 0x0B, 0, 0] && s[42..46] == [0x13, 0x0B, 0, 0]
    ensures s[46..50] == [0, 0, 0, 0] && s[50..54] == [0, 0, 0, 0]
  {
    Constants();
    FieldIs(s, 6, 0);
    FieldIs(s, 10, 54);
    FieldIs(s, 14, 40);
    HalfFieldIs(s, 26, 1);
    HalfFieldIs(s, 28, 24);
    FieldIs(s, 30, 0);
    FieldIs(s, 38, 2835);
    FieldIs(s, 42, 2835);
    FieldIs(s, 46, 0);
    FieldIs(s, 50, 0);
  }

  /** The others: the picture's sizes. */
  lemma HeaderSizes(s: seq<byte>, w: nat, h: nat, n: nat)
    requires IsHeader(s, w, h) && w < U32 && h < U32 && n == (3 * w + w % 4) * h
    ensures s[2..6] == Word((54 + n) % U32) && s[34..38] == Word(n % U32)
    ensures s[18..22] == Word(w) && s[22..26] == Word(h)
  {
    assert n == ImageSize(w, h);
    FieldIs(s, 2, (54 + n) % U32);
    FieldIs(s, 34, n % U32);
    FieldIs(s, 18, w);
    FieldIs(s, 22, h);
  }

  lemma ByParts(s: seq<byte>)
    requires |s| == HEADER_SIZE
    ensures s == [s[0], s[1]] + s[2..6] + s[6..10] + s[10..14] + s[14..18] + s[18..22] + s[22..26]
                 + s[26..28] + s[28..30] + s[30..34] + s[34..38] + s[38..42] + s[42..46] + s[46..50] + s[50..54]
  {
  }

  lemma FieldsDetermine(s: seq<byte>, t: seq<byte>)
    requires |s| == |t| == HEADER_SIZE && s[0] == t[0] && s[1] == t[1]
    requires U32At(s, 2) == U32At(t, 2) && U32At(s, 6) == U32At(t, 6) && U32At(s, 10) == U32At(t, 10)
    requires U32At(s, 14) == U32At(t, 14) && U32At(s, 18) == U32At(t, 18) && U32At(s, 22) == U32At(t, 22)
    requires U16At(s, 26) == U16At(t, 26) && U16At(s, 28) == U16At(t, 28) && U32At(s, 30) == U32At(t, 30)
    requires U32At(s, 34) == U32At(t, 34) && U32At(s, 38) == U32At(t, 38) && U32At(s, 42) == U32At(t, 42)
    requires U32At(s, 46) == U32At(t, 46) && U32At(s, 50) == U32At(t, 50)
    ensures s == t
  {
    LeInjective(s[2..6], t[2..6]);
    LeInjective(s[6..10], t[6..10]);
    LeInjective(s[10..14], t[10..14]);
    LeInjective(s[14..18], t[14..18]);
    LeInjective(s[18..22], t[18..22]);
    LeInjective(s[22..26], t[22..26]);
    LeInjective(s[26..28], t[26..28]);
    LeInjective(s[28..30], t[28..30]);
    LeInjective(s[30..34], t[30..34]);
    LeInjective(s[34..38], t[34..38]);
    LeInjective(s[38..42], t[38..42]);
    LeInjective(s[42..46], t[42..46]);
    LeInjective(s[46..50], t[46..50]);
    LeInjective(s[50..54], t[50..54]);
    ByParts(s);
    ByParts(t);
  }

  /** The fields leave no byte of the header open. */
  lemma HeadersEqual(s: seq<byte>, t: seq<byte>, w: nat, h: nat)
    requires IsHeader(s, w, h) && IsHeader(t, w, h)
    ensures s == t
  {
    FieldsDetermine(s, t);
  }

  /** The file depends on the colours alone: pictures with the same colours encode to the same bytes. */
  lemma OnlyColoursMatter(file: seq<byte>, px: seq<byte>, stride: nat,
                          file': seq<byte>, px': seq<byte>, stride': nat, w: nat, h: nat)
    requires Covers(px, w, h, stride) && Covers(px', w, h, stride')
    requires IsBmp(file, px, w, h, stride) && IsBmp(file', px', w, h, stride')
    requires SameColours(px, stride, px', stride', w, h)
    ensures file == file'
  {
    SameRows(px, stride, px', stride', w, h);
    HeadersEqual(file[..HEADER_SIZE], file'[..HEADER_SIZE], w, h);
    assert file == file[..HEADER_SIZE] + file[HEADER_SIZE..];
    assert file' == file'[..HEADER_SIZE] + file'[HEADER_SIZE..];
  }
}
