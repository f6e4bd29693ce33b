/** `bmp_write_xrgb8888`: the 24-bit BMP encoder, and where things are in the file it writes. */
module Bmp {
  import opened BitOps

  type byte = b: int | 0 <= b < 256

  const U32: int := 0x1_0000_0000
  const HEADER_SIZE: nat := 54

  // ---- Little-endian fields ----

  /** The number whose little-endian bytes are `s`. */
  function Le(s: seq<byte>): nat {
    if s == [] then 0 else s[0] + 0x100 * Le(s[1..])
  }

  /** The `n` low bytes of `v`, lowest first. */
  function LeBytes(v: nat, n: nat): (s: seq<byte>)
    ensures |s| == n
  {
    if n == 0 then [] else [v % 0x100] + LeBytes(v / 0x100, n - 1)
  }

  function U16At(s: seq<byte>, o: nat): nat
    requires o + 2 <= |s|
  {
    Le(s[o..o + 2])
  }

  function U32At(s: seq<byte>, o: nat): nat
    requires o + 4 <= |s|
  {
    Le(s[o..o + 4])
  }

  lemma {:induction false} LeOfBytes(v: nat, n: nat)
    ensures n == 1 && v < 0x100 ==> Le(LeBytes(v, n)) == v
    ensures n > 1 && Le(LeBytes(v / 0x100, n - 1)) == v / 0x100 ==> Le(LeBytes(v, n)) == v
  {
    if n > 0 {
      assert LeBytes(v, n)[1..] == LeBytes(v / 0x100, n - 1);
      assert v == v % 0x100 + 0x100 * (v / 0x100);
      assert Le([]) == 0;
    }
  }

  lemma U16OfBytes(v: nat)
    requires v < 0x1_0000
    ensures Le(LeBytes(v, 2)) == v
  {
    LeOfBytes(v / 0x100, 1);
    LeOfBytes(v, 2);
  }

  lemma U32OfBytes(v: nat)
    requires v < U32
    ensures Le(LeBytes(v, 4)) == v
  {
    var q1 := v / 0x100;
    var q2 := q1 / 0x100;
    LeOfBytes(q2 / 0x100, 1);
    LeOfBytes(q2, 2);
    LeOfBytes(q1, 3);
    LeOfBytes(v, 4);
  }

  /** A field's value determines its bytes. */
  lemma {:induction false} LeInjective(s: seq<byte>, t: seq<byte>)
    requires |s| == |t| && Le(s) == Le(t)
    ensures s == t
  {
    if s != [] {
      assert s[0] == t[0] && Le(s[1..]) == Le(t[1..]);
      LeInjective(s[1..], t[1..]);
      assert s == [s[0]] + s[1..] && t == [t[0]] + t[1..];
    }
  }

  /** The four stores of a 32-bit put are its bytes. */
  lemma ShiftedBytes(v: nat)
    requires v < U32
    ensures LeBytes(v, 4) == [v % 0x100, v / 0x100 % 0x100, v / 0x1_0000 % 0x100, v / 0x100_0000 % 0x100]
  {
    assert v / 0x1_0000 == v / 0x100 / 0x100 && v / 0x100_0000 == v / 0x1_0000 / 0x100;
    assert LeBytes(v / 0x1_0000, 2) == [v / 0x1_0000 % 0x100, v / 0x100_0000 % 0x100];
  }

  method LowByte(v: nat) returns (b: byte)
    ensures b == v % 0x100
  {
    Mask8(v);
    return And(v, 0xFF);
  }

  /** The bytes of a 16-bit value. */
  method Bytes16(v: nat) returns (a: byte, b: byte)
    requires v < 0x1_0000
    ensures [a, b] == LeBytes(v, 2)
  {
    SmallQuotients(v);
    assert LeBytes(v, 2) == [v % 0x100, v / 0x100 % 0x100];
    a := LowByte(v);
    b := Shr(v, 8);
  }

  /** The bytes of a 32-bit value. */
  method Bytes32(v: nat) returns (a: byte, b: byte, c: byte, d: byte)
    requires v < U32
    ensures [a, b, c, d] == LeBytes(v, 4)
  {
    ShrIsQuotient(v);
    ShiftedBytes(v);
    a := LowByte(v);
    b := LowByte(Shr(v, 8));
    c := LowByte(Shr(v, 16));
    d := LowByte(Shr(v, 24));
  }

  function Zeros(n: nat): seq<byte> {
    seq(n, _ => 0)
  }

  /** A field written into the zeros after `done`. */
  function Append(done: seq<byte>, o: nat, field: seq<byte>): seq<byte>
    requires |done| <= o
  {
    if o == |done| then done + field else done + Zeros(o - |done|) + field
  }

  lemma Appended(before: seq<byte>, after: seq<byte>, done: seq<byte>, o: nat, field: seq<byte>)
    requires |done| <= o && o + |field| <= |before|
    requires before == done + Zeros(|before| - |done|)
    requires after == before[..o] + field + before[o + |field|..]
    ensures after == Append(done, o, field) + Zeros(|before| - (o + |field|))
  {
    assert before[..o] == done + Zeros(o - |done|);
    assert before[o + |field|..] == Zeros(|before| - (o + |field|));
  }

  method Put16(p: array<byte>, o: nat, v: nat, ghost done: seq<byte>) returns (ghost done': seq<byte>)
    requires |done| <= o && o + 2 <= p.Length && v < 0x1_0000
    requires p[..] == done + Zeros(p.Length - |done|)
    modifies p
    ensures done' == Append(done, o, LeBytes(v, 2))
    ensures p[..] == done' + Zeros(p.Length - |done'|)
  {
    ghost var before := p[..];
    ghost var field := LeBytes(v, 2);
    p[o], p[o + 1] := Bytes16(v);
    assert p[..] == before[..o] + field + before[o + 2..];
    done' := Append(done, o, field);
    Appended(before, p[..], done, o, field);
  }

  method Put32(p: array<byte>, o: nat, v: nat, ghost done: seq<byte>) returns (ghost done': seq<byte>)
    requires |done| <= o && o + 4 <= p.Length && v < U32
    requires p[..] == done + Zeros(p.Length - |done|)
    modifies p
    ensures done' == Append(done, o, LeBytes(v, 4))
    ensures p[..] == done' + Zeros(p.Length - |done'|)
  {
    ghost var before := p[..];
    ghost var field := LeBytes(v, 4);
    p[o], p[o + 1], p[o + 2], p[o + 3] := Bytes32(v);
    assert p[..] == before[..o] + field + before[o + 4..];
    done' := Append(done, o, field);
    Appended(before, p[..], done, o, field);
  }

  // ---- Layout ----

  /** Zero bytes that bring a row of `w` pixels to a multiple of four. */
  function Pad(w: nat): nat {
    w % 4
  }

  function RowSize(w: nat): nat {
    3 * w + Pad(w)
  }

  /** The number of bytes of pixel data. */
  function ImageSize(w: nat, h: nat): nat {
    RowSize(w) * h
  }

  /** What the header says about a picture; sizes wrap at 32 bits as the encoder computes them. */
  ghost predicate IsHeader(s: seq<byte>, w: nat, h: nat) {
    && |s| == HEADER_SIZE
    && s[0] == 'B' as int && s[1] == 'M' as int
    && U32At(s, 2) == (HEADER_SIZE + ImageSize(w, h)) % U32
    && U32At(s, 6) == 0
    && U32At(s, 10) == HEADER_SIZE
    && U32At(s, 14) == 40
    && U32At(s, 18) == w
    && U32At(s, 22) == h
    && U16At(s, 26) == 1
    && U16At(s, 28) == 24
    && U32At(s, 30) == 0
    && U32At(s, 34) == ImageSize(w, h) % U32
    && U32At(s, 38) == 2835
    && U32At(s, 42) == 2835
    && U32At(s, 46) == 0
    && U32At(s, 50) == 0
  }

  /** Where row `y` starts in the source buffer. */
  function RowBase(y: nat, stride: nat): nat {
    y * stride
  }

  /** The rows of the source buffer are `stride` bytes apart, the first at its start. */
  lemma RowsStrideApart(y: nat, stride: nat)
    ensures RowBase(0, stride) == 0 && RowBase(y + 1, stride) == RowBase(y, stride) + stride
  {
  }

  /**
   * The source buffer holds `h` rows of `w` four-byte pixels, `stride` bytes apart; the very last
   * byte is never read.
   */
  predicate Covers(px: seq<byte>, w: nat, h: nat, stride: nat) {
    4 * w <= stride && (h > 0 ==> RowBase(h - 1, stride) + 4 * w <= |px| + 1)
  }

  lemma RowInBuffer(px: seq<byte>, w: nat, h: nat, stride: nat, y: nat)
    requires Covers(px, w, h, stride) && y < h
    ensures RowBase(y, stride) + 4 * w <= |px| + 1
    ensures Covers(px, w, y, stride)
  {
    assert y * stride <= (h - 1) * stride;
    assert y > 0 ==> (y - 1) * stride <= (h - 1) * stride;
  }

  /** The colour bytes of pixels `x` to `w - 1` of the row that starts at `base`. */
  function PixelsFrom(px: seq<byte>, base: nat, x: nat, w: nat): seq<byte>
    requires x <= w && base + 4 * w <= |px| + 1
    decreases w - x
  {
    if x == w then [] else px[base + 4 * x..base + 4 * x + 3] + PixelsFrom(px, base, x + 1, w)
  }

  /** Row `y`: its colours, and the padding. */
  function RowBytes(px: seq<byte>, w: nat, y: nat, stride: nat): seq<byte>
    requires RowBase(y, stride) + 4 * w <= |px| + 1
  {
    PixelsFrom(px, RowBase(y, stride), 0, w) + Zeros(Pad(w))
  }

  /** Rows `n - 1` down to 0. */
  function Rows(px: seq<byte>, w: nat, n: nat, stride: nat): seq<byte>
    requires Covers(px, w, n, stride)
  {
    if n == 0 then []
    else
      RowInBuffer(px, w, n, stride, n - 1);
      RowBytes(px, w, n - 1, stride) + Rows(px, w, n - 1, stride)
  }

  ghost predicate HasRows(file: seq<byte>, px: seq<byte>, w: nat, h: nat, stride: nat)
    requires Covers(px, w, h, stride)
  {
    HEADER_SIZE <= |file| && file[HEADER_SIZE..] == Rows(px, w, h, stride)
  }

  /** `file` is the encoding of the picture: header, then the rows from bottom to top. */
  ghost predicate IsBmp(file: seq<byte>, px: seq<byte>, w: nat, h: nat, stride: nat)
    requires Covers(px, w, h, stride)
  {
    HasRows(file, px, w, h, stride) && IsHeader(file[..HEADER_SIZE], w, h)
  }

  // ---- The encoder ----

  /** A stream on which any write may come up short. */
  class Sink {
    var written: seq<byte>
    ghost var shortWrites: nat

    constructor ()
      ensures written == [] && shortWrites == 0
    {
      written, shortWrites := [], 0;
    }

    method Fwrite(bytes: seq<byte>) returns (n: nat)
      modifies this
      ensures n <= |bytes| && written == old(written) + bytes[..n]
      ensures shortWrites == old(shortWrites) + if n < |bytes| then 1 else 0
    {
      n :| 0 <= n <= |bytes|;
      written := written + bytes[..n];
      shortWrites := shortWrites + if n < |bytes| then 1 else 0;
    }
  }

  function FileHeaderBytes(fileSize: nat, dataOff: nat): seq<byte> {
    ['B' as int, 'M' as int] + LeBytes(fileSize, 4) + Zeros(4) + LeBytes(dataOff, 4)
  }

  /** The header as one byte string. */
  function HeaderBytes(fileSize: nat, dataOff: nat, w: nat, h: nat, imageSize: nat): seq<byte> {
    FileHeaderBytes(fileSize, dataOff) + LeBytes(40, 4) + LeBytes(w, 4) + LeBytes(h, 4)
    + LeBytes(1, 2) + LeBytes(24, 2) + Zeros(4)
    + LeBytes(imageSize, 4) + LeBytes(2835, 4) + LeBytes(2835, 4) + Zeros(8)
  }

  /** Every header field, at its place in a zeroed buffer. */
  method PutFields(hdr: array<byte>, fileSize: nat, dataOff: nat, w: nat, h: nat, imageSize: nat)
    requires hdr.Length == HEADER_SIZE && hdr[..] == Zeros(HEADER_SIZE)
    requires fileSize < U32 && dataOff < U32 && w < U32 && h < U32 && imageSize < U32
    modifies hdr
    ensures hdr[..] == HeaderBytes(fileSize, dataOff, w, h, imageSize)
  {
    hdr[0], hdr[1] := 'B' as int, 'M' as int;
    ghost var done: seq<byte> := ['B' as int, 'M' as int];
    assert hdr[..] == done + Zeros(HEADER_SIZE - 2);
    done := Put32(hdr, 2, fileSize, done);
    done := Put32(hdr, 10, dataOff, done);
    done := Put32(hdr, 14, 40, done);
    done := Put32(hdr, 18, w, done);
    done := Put32(hdr, 22, h, done);
    done := Put16(hdr, 26, 1, done);
    done := Put16(hdr, 28, 24, done);
    done := Put32(hdr, 34, imageSize, done);
    done := Put32(hdr, 38, 2835, done);
    done := Put32(hdr, 42, 2835, done);
  }

  function DimensionBytes(w: nat, h: nat): seq<byte> {
    LeBytes(40, 4) + LeBytes(w, 4) + LeBytes(h, 4)
  }

  function FormatBytes(): seq<byte> {
    LeBytes(1, 2) + LeBytes(24, 2) + Zeros(4)
  }

  function SizeBytes(imageSize: nat): seq<byte> {
    LeBytes(imageSize, 4) + LeBytes(2835, 4) + LeBytes(2835, 4) + Zeros(8)
  }

  lemma Grouped(s: seq<byte>, a: seq<byte>, b: seq<byte>, c: seq<byte>, d: seq<byte>)
    ensures s + a + b + c + d == s + (a + b + c + d)
    ensures d == [] ==> s + a + b + c == s + (a + b + c) && a + b + c + d == a + b + c
  {
    assert d == [] ==> a + b + c + d == a + b + c;
  }

  lemma Cut4(a: seq<byte>, b: seq<byte>, c: seq<byte>, d: seq<byte>)
    ensures var s, i, j, k := a + b + c + d, |a|, |a| + |b|, |a| + |b| + |c|;
            s[..i] == a && s[i..j] == b && s[j..k] == c && s[k..k + |d|] == d
  {
  }

  /** The header in four parts. */
  lemma HeaderParts(fileSize: nat, dataOff: nat, w: nat, h: nat, imageSize: nat)
    ensures var s := HeaderBytes(fileSize, dataOff, w, h, imageSize);
            && |s| == HEADER_SIZE
            && s[..14] == FileHeaderBytes(fileSize, dataOff) && s[14..26] == DimensionBytes(w, h)
            && s[26..34] == FormatBytes() && s[34..54] == SizeBytes(imageSize)
  {
    var a, b := FileHeaderBytes(fileSize, dataOff), DimensionBytes(w, h);
    var c, d := FormatBytes(), SizeBytes(imageSize);
    assert HeaderBytes(fileSize, dataOff, w, h, imageSize) == a + b + c + d by {
      Grouped(a, LeBytes(40, 4), LeBytes(w, 4), LeBytes(h, 4), []);
      Grouped(a + b, LeBytes(1, 2), LeBytes(24, 2), Zeros(4), []);
      Grouped(a + b + c, LeBytes(imageSize, 4), LeBytes(2835, 4), LeBytes(2835, 4), Zeros(8));
    }
    Cut4(a, b, c, d);
  }

  lemma SliceOfSlice(s: seq<byte>, i: nat, n: nat, o: nat, m: nat)
    requires i + n <= |s| && o + m <= n
    ensures s[i..i + n][o..o + m] == s[i + o..i + o + m]
  {
    var a, b := s[i..i + n][o..o + m], s[i + o..i + o + m];
    assert |a| == |b| && forall k :: 0 <= k < m ==> a[k] == b[k];
  }

  /** Four fields in a row, each at its place. */
  lemma FieldsAt(s: seq<byte>, o: nat, a: seq<byte>, b: seq<byte>, c: seq<byte>, d: seq<byte>)
    requires var n := |a| + |b| + |c| + |d|; o + n <= |s| && s[o..o + n] == a + b + c + d
    ensures var i, j, k := o + |a|, o + |a| + |b|, o + |a| + |b| + |c|;
            s[o..i] == a && s[i..j] == b && s[j..k] == c && s[k..k + |d|] == d
  {
    var n := |a| + |b| + |c| + |d|;
    Cut4(a, b, c, d);
    SliceOfSlice(s, o, n, 0, |a|);
    SliceOfSlice(s, o, n, |a|, |b|);
    SliceOfSlice(s, o, n, |a| + |b|, |c|);
    SliceOfSlice(s, o, n, |a| + |b| + |c|, |d|);
    assert (a + b + c + d)[0..|a|] == (a + b + c + d)[..|a|];
  }

  lemma ZeroField()
    ensures Le(Zeros(4)) == 0
  {
    U32OfBytes(0);
    ShiftedBytes(0);
    assert LeBytes(0, 4) == Zeros(4);
  }

  lemma FileHeader(s: seq<byte>, fileSize: nat, dataOff: nat)
    requires |s| == HEADER_SIZE && s[..14] == FileHeaderBytes(fileSize, dataOff)
    requires fileSize < U32 && dataOff < U32
    ensures s[0] == 'B' as int && s[1] == 'M' as int
    ensures U32At(s, 2) == fileSize && U32At(s, 6) == 0 && U32At(s, 10) == dataOff
  {
    assert s[0] == s[..14][0] && s[1] == s[..14][1];
    FieldsAt(s, 0, ['B' as int, 'M' as int], LeBytes(fileSize, 4), Zeros(4), LeBytes(dataOff, 4));
    U32OfBytes(fileSize);
    ZeroField();
    U32OfBytes(dataOff);
  }

  lemma Dimensions(s: seq<byte>, w: nat, h: nat)
    requires |s| == HEADER_SIZE && s[14..26] == DimensionBytes(w, h) && w < U32 && h < U32
    ensures U32At(s, 14) == 40 && U32At(s, 18) == w && U32At(s, 22) == h
  {
    Grouped([], LeBytes(40, 4), LeBytes(w, 4), LeBytes(h, 4), []);
    FieldsAt(s, 14, LeBytes(40, 4), LeBytes(w, 4), LeBytes(h, 4), []);
    U32OfBytes(40);
    U32OfBytes(w);
    U32OfBytes(h);
  }

  lemma Format(s: seq<byte>)
    requires |s| == HEADER_SIZE && s[26..34] == FormatBytes()
    ensures U16At(s, 26) == 1 && U16At(s, 28) == 24 && U32At(s, 30) == 0
  {
    Grouped([], LeBytes(1, 2), LeBytes(24, 2), Zeros(4), []);
    FieldsAt(s, 26, LeBytes(1, 2), LeBytes(24, 2), Zeros(4), []);
    U16OfBytes(1);
    U16OfBytes(24);
    ZeroField();
  }

  lemma PixelDataSize(s: seq<byte>, imageSize: nat)
    requires |s| == HEADER_SIZE && s[34..54] == SizeBytes(imageSize) && imageSize < U32
    ensures U32At(s, 34) == imageSize && U32At(s, 38) == 2835 && U32At(s, 42) == 2835
  {
    FieldsAt(s, 34, LeBytes(imageSize, 4), LeBytes(2835, 4), LeBytes(2835, 4), Zeros(8));
    U32OfBytes(imageSize);
    U32OfBytes(2835);
  }

  lemma Palette(s: seq<byte>, imageSize: nat)
    requires |s| == HEADER_SIZE && s[34..54] == SizeBytes(imageSize)
    ensures U32At(s, 46) == 0 && U32At(s, 50) == 0
  {
    FieldsAt(s, 34, LeBytes(imageSize, 4), LeBytes(2835, 4), LeBytes(2835, 4), Zeros(8));
    assert Zeros(8)[0..4] == Zeros(4) && Zeros(8)[4..8] == Zeros(4);
    SliceOfSlice(s, 46, 8, 0, 4);
    SliceOfSlice(s, 46, 8, 4, 4);
    ZeroField();
  }

  /** The header says what it should, field by field. */
  lemma HeaderFields(fileSize: nat, w: nat, h: nat, imageSize: nat)
    requires fileSize < U32 && imageSize < U32 && w < U32 && h < U32
    requires fileSize == (HEADER_SIZE + ImageSize(w, h)) % U32 && imageSize == ImageSize(w, h) % U32
    ensures IsHeader(HeaderBytes(fileSize, HEADER_SIZE, w, h, imageSize), w, h)
  {
    var s := HeaderBytes(fileSize, HEADER_SIZE, w, h, imageSize);
    HeaderParts(fileSize, HEADER_SIZE, w, h, imageSize);
    FileHeader(s, fileSize, HEADER_SIZE);
    Dimensions(s, w, h);
    Format(s);
    PixelDataSize(s, imageSize);
    Palette(s, imageSize);
  }

  lemma PadIs(w: nat)
    ensures (4 - 3 * w % 4) % 4 == Pad(w)
  {
    var q, r := w / 4, w % 4;
    if r == 0 {
      assert 3 * w == 4 * (3 * q);
    } else {
      assert 3 * w == 4 * (3 * q + r - 1) + (4 - r);
    }
  }

  lemma SizeWraps(n: nat)
    ensures (HEADER_SIZE + n % U32) % U32 == (HEADER_SIZE + n) % U32
  {
    assert n == U32 * (n / U32) + n % U32;
  }

  method MakeHeader(w: int, h: int) returns (hdr: array<byte>)
    requires 0 < 4 * w < U32 && 0 < h < U32
    ensures fresh(hdr) && IsHeader(hdr[..], w, h)
  {
    var rowBytes := 3 * w;
    var rowPad := (4 - rowBytes % 4) % 4;
    PadIs(w);
    var imageSize := (rowBytes + rowPad) * h % U32;
    var dataOff := 14 + 40;
    var fileSize := (dataOff + imageSize) % U32;
    SizeWraps(ImageSize(w, h));
    hdr := new byte[HEADER_SIZE](_ => 0);
    assert hdr[..] == Zeros(HEADER_SIZE);
    PutFields(hdr, fileSize, dataOff, w, h, imageSize);
    HeaderFields(fileSize, w, h, imageSize);
  }

  /** Every picture has an encoding. */
  lemma EncodingExists(px: seq<byte>, w: nat, h: nat, stride: nat) returns (file: seq<byte>)
    requires Covers(px, w, h, stride) && w < U32 && h < U32
    ensures IsBmp(file, px, w, h, stride)
  {
    var n := ImageSize(w, h);
    var header := HeaderBytes((HEADER_SIZE + n) % U32, HEADER_SIZE, w, h, n % U32);
    HeaderFields((HEADER_SIZE + n) % U32, w, h, n % U32);
    file := header + Rows(px, w, h, stride);
    assert file[..HEADER_SIZE] == header && file[HEADER_SIZE..] == Rows(px, w, h, stride);
  }

  /** What a stream holds after each write: `sent` of the file so far, with `todo` still to come. */
  ghost predicate Progress(f: Sink, before: seq<byte>, file: seq<byte>, todo: seq<byte>)
    reads f
  {
    before + file == f.written + todo
  }

  /** Writes the next piece of the file; when it comes up short, a prefix of the file is out. */
  method Emit(f: Sink, bytes: seq<byte>, ghost before: seq<byte>, ghost file: seq<byte>, ghost todo: seq<byte>)
    returns (ok: bool, ghost todo': seq<byte>)
    requires Progress(f, before, file, bytes + todo)
    modifies f
    ensures Progress(f, before, file, todo')
    ensures ok ==> todo' == todo && f.shortWrites == old(f.shortWrites)
    ensures !ok ==> f.shortWrites > old(f.shortWrites)
    ensures old(f.written) <= f.written
  {
    var n := f.Fwrite(bytes);
    ok := n == |bytes|;
    todo' := bytes[n..] + todo;
    assert bytes == bytes[..n] + bytes[n..];
  }

  method EmitRow(f: Sink, px: array<byte>, base: nat, w: nat,
                 ghost before: seq<byte>, ghost file: seq<byte>, ghost todo: seq<byte>)
    returns (ok: bool, ghost todo': seq<byte>)
    requires base + 4 * w <= px.Length + 1
    requires Progress(f, before, file, (PixelsFrom(px[..], base, 0, w) + Zeros(Pad(w))) + todo)
    modifies f
    ensures Progress(f, before, file, todo')
    ensures ok ==> todo' == todo && f.shortWrites == old(f.shortWrites)
    ensures !ok ==> f.shortWrites > old(f.shortWrites)
    ensures old(f.written) <= f.written
  {
    ghost var pad := Zeros(Pad(w));
    ghost var rest := PixelsFrom(px[..], base, 0, w);
    assert rest + pad + todo == rest + (pad + todo);
    for x := 0 to w
      invariant rest == PixelsFrom(px[..], base, x, w)
      invariant Progress(f, before, file, rest + (pad + todo))
      invariant f.shortWrites == old(f.shortWrites) && old(f.written) <= f.written
    {
      ghost var next := PixelsFrom(px[..], base, x + 1, w);
      var bytes := px[base + 4 * x..base + 4 * x + 3];
      assert rest == bytes + next by { assert bytes == px[..][base + 4 * x..base + 4 * x + 3]; }
      assert bytes + next + (pad + todo) == bytes + (next + (pad + todo));
      ok, todo' := Emit(f, bytes, before, file, next + (pad + todo));
      if !ok {
        return;
      }
      rest := next;
    }
    assert rest + (pad + todo) == pad + todo;
    var rowPad := (4 - 3 * w % 4) % 4;
    PadIs(w);
    if rowPad > 0 {
      ok, todo' := Emit(f, Zeros(rowPad), before, file, todo);
    } else {
      assert pad + todo == todo;
      ok, todo' := true, todo;
    }
  }

  /** The rows, last one first. */
  method EmitRows(f: Sink, px: array<byte>, w: nat, h: nat, stride: nat, ghost before: seq<byte>, ghost file: seq<byte>)
    returns (ok: bool)
    requires Covers(px[..], w, h, stride)
    requires Progress(f, before, file, Rows(px[..], w, h, stride)) && before <= f.written
    modifies f
    ensures before <= f.written <= before + file
    ensures ok ==> f.written == before + file && f.shortWrites == old(f.shortWrites)
    ensures !ok ==> f.shortWrites > old(f.shortWrites)
  {
    ghost var todo := Rows(px[..], w, h, stride);
    var y: int := h - 1;
    while y >= 0
      invariant -1 <= y < h
      invariant Covers(px[..], w, y + 1, stride) && todo == Rows(px[..], w, y + 1, stride)
      invariant Progress(f, before, file, todo)
      invariant f.shortWrites == old(f.shortWrites) && before <= f.written
    {
      RowInBuffer(px[..], w, h, stride, y);
      RowInBuffer(px[..], w, y + 1, stride, y);
      ok, todo := EmitRow(f, px, RowBase(y, stride), w, before, file, Rows(px[..], w, y, stride));
      if !ok {
        return;
      }
      y := y - 1;
    }
    assert f.written + [] == f.written;
    return true;
  }

  /**
   * Encodes the picture onto `f`. True means the whole file was written; false with good
   * arguments means some write came up short, and what is out is a prefix of that same file.
   */
  method WriteXrgb8888(f: Sink?, px: array?<byte>, w: int, h: int, stride: int)
    returns (ok: bool, ghost file: seq<byte>)
    requires w <= 0x1FFF_FFFF && h <= 0x7FFF_FFFF
    requires px != null && w > 0 && h > 0 && stride >= 4 * w ==> Covers(px[..], w, h, stride)
    modifies f
    ensures f == null || px == null || w <= 0 || h <= 0 || stride < 4 * w ==>
              !ok && (f != null ==> f.written == old(f.written))
    ensures f != null && px != null && w > 0 && h > 0 && stride >= 4 * w ==>
              && IsBmp(file, px[..], w, h, stride)
              && (ok ==> f.written == old(f.written) + file && f.shortWrites == old(f.shortWrites))
              && (!ok ==> old(f.written) <= f.written <= old(f.written) + file && f.shortWrites > old(f.shortWrites))
  {
    file := [];
    if f == null || px == null || w <= 0 || h <= 0 || stride < w * 4 {
      return false, file;
    }
    var hdr := MakeHeader(w, h);
    ghost var before := f.written;
    ghost var todo := Rows(px[..], w, h, stride);
    file := hdr[..] + todo;
    assert file[..HEADER_SIZE] == hdr[..] && file[HEADER_SIZE..] == todo;
    ok, todo := Emit(f, hdr[..], before, file, todo);
    if ok {
      ok := EmitRows(f, px, w, h, stride, before, file);
    }
  }

  // ---- Where a decoder finds things ----

  lemma PixelsLength(px: seq<byte>, base: nat, x: nat, w: nat)
    requires x <= w && base + 4 * w <= |px| + 1
    ensures |PixelsFrom(px, base, x, w)| == 3 * (w - x)
    decreases w - x
  {
  }

  lemma AtInTail(a: seq<byte>, b: seq<byte>, k: nat)
    requires k < |b|
    ensures (a + b)[|a| + k] == b[k]
  {
  }

  lemma {:induction false} PixelAt(px: seq<byte>, base: nat, x0: nat, w: nat, x: nat, c: nat)
    requires x0 <= x < w && base + 4 * w <= |px| + 1 && c < 3
    ensures |PixelsFrom(px, base, x0, w)| == 3 * (w - x0)
    ensures PixelsFrom(px, base, x0, w)[3 * (x - x0) + c] == px[base + 4 * x + c]
    decreases w - x0
  {
    PixelsLength(px, base, x0, w);
    var head, rest := px[base + 4 * x0..base + 4 * x0 + 3], PixelsFrom(px, base, x0 + 1, w);
    assert PixelsFrom(px, base, x0, w) == head + rest;
    if x0 < x {
      PixelAt(px, base, x0 + 1, w, x, c);
      AtInTail(head, rest, 3 * (x - (x0 + 1)) + c);
    }
  }

  lemma RowLength(px: seq<byte>, w: nat, y: nat, stride: nat)
    requires RowBase(y, stride) + 4 * w <= |px| + 1
    ensures |RowBytes(px, w, y, stride)| == RowSize(w)
  {
    PixelsLength(px, RowBase(y, stride), 0, w);
  }

  lemma NextMultiple(rs: nat, n: nat)
    requires n > 0
    ensures rs * n == rs + rs * (n - 1)
  {
  }

  lemma {:induction false} RowsLength(px: seq<byte>, w: nat, n: nat, stride: nat)
    requires Covers(px, w, n, stride)
    ensures |Rows(px, w, n, stride)| == ImageSize(w, n)
  {
    if n > 0 {
      RowInBuffer(px, w, n, stride, n - 1);
      RowsLength(px, w, n - 1, stride);
      RowLength(px, w, n - 1, stride);
      NextMultiple(RowSize(w), n);
    }
  }

  /** `part` is found at offset `o`. */
  predicate FoundAt(data: seq<byte>, o: nat, part: seq<byte>) {
    o + |part| <= |data| && data[o..o + |part|] == part
  }

  lemma FoundFirst(a: seq<byte>, b: seq<byte>)
    ensures FoundAt(a + b, 0, a)
  {
  }

  lemma FoundFurther(a: seq<byte>, b: seq<byte>, o: nat, part: seq<byte>)
    requires FoundAt(b, o, part)
    ensures FoundAt(a + b, |a| + o, part)
  {
    assert (a + b)[|a| + o..|a| + o + |part|] == b[o..o + |part|];
  }

  function Concat(parts: seq<seq<byte>>): seq<byte> {
    if parts == [] then [] else parts[0] + Concat(parts[1..])
  }

  /** Parts of the same size are found at multiples of it. */
  lemma {:induction false} PartAt(parts: seq<seq<byte>>, size: nat, i: nat)
    requires i < |parts| && forall k :: 0 <= k < |parts| ==> |parts[k]| == size
    ensures FoundAt(Concat(parts), size * i, parts[i])
  {
    if i == 0 {
      FoundFirst(parts[0], Concat(parts[1..]));
    } else {
      PartAt(parts[1..], size, i - 1);
      NextMultiple(size, i);
      FoundFurther(parts[0], Concat(parts[1..]), size * (i - 1), parts[i]);
    }
  }

  /** `row` is row `y` as it goes into the file. */
  predicate IsRow(px: seq<byte>, w: nat, y: nat, stride: nat, row: seq<byte>) {
    RowBase(y, stride) + 4 * w <= |px| + 1 && row == RowBytes(px, w, y, stride)
  }

  lemma {:induction false} RowsAreParts(px: seq<byte>, w: nat, n: nat, stride: nat) returns (parts: seq<seq<byte>>)
    requires Covers(px, w, n, stride)
    ensures Rows(px, w, n, stride) == Concat(parts) && |parts| == n
    ensures forall k :: 0 <= k < n ==> IsRow(px, w, n - 1 - k, stride, parts[k])
  {
    parts := [];
    if n > 0 {
      RowInBuffer(px, w, n, stride, n - 1);
      var rest := RowsAreParts(px, w, n - 1, stride);
      parts := [RowBytes(px, w, n - 1, stride)] + rest;
      assert parts[1..] == rest;
    }
  }

  /** Row `y` of the picture sits `n - 1 - y` rows into the pixel data. */
  lemma RowAt(px: seq<byte>, w: nat, n: nat, stride: nat, y: nat)
    requires Covers(px, w, n, stride) && y < n
    ensures RowBase(y, stride) + 4 * w <= |px| + 1
    ensures FoundAt(Rows(px, w, n, stride), ImageSize(w, n - 1 - y), RowBytes(px, w, y, stride))
  {
    var parts := RowsAreParts(px, w, n, stride);
    forall k | 0 <= k < n ensures |parts[k]| == RowSize(w) {
      assert IsRow(px, w, n - 1 - k, stride, parts[k]);
      RowLength(px, w, n - 1 - k, stride);
    }
    PartAt(parts, RowSize(w), n - 1 - y);
    assert IsRow(px, w, y, stride, parts[n - 1 - y]);
  }
}
