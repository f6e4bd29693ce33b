/** UTF-8 as the icon table encodes it, against the decoder of RFC 3629, section 4. */
module Utf8 {
  import opened BitOps
  import opened Sequences

  type octet = b: int | 0 <= b < 0x100
  type Octets = seq<octet>

  /** The C type of a codepoint. */
  type uint32 = v: int | 0 <= v < 0x1_0000_0000

  // ---- The encoder ----

  /**
   * The bytes for a codepoint, as numbers. In the last branch only four bits of the shifted codepoint
   * are left, because the cast to `char` keeps the low byte.
   */
  function Encode(cp: uint32): (s: Octets)
    ensures 1 <= |s| <= 4
  {
    if cp < 0x80 then [cp]
    else if cp < 0x800 then [0xC0 + cp / 0x40, 0x80 + cp % 0x40]
    else if cp < 0x10000 then [0xE0 + cp / 0x1000, 0x80 + cp / 0x40 % 0x40, 0x80 + cp % 0x40]
    else [0xF0 + cp / 0x40000 % 0x10, 0x80 + cp / 0x1000 % 0x40, 0x80 + cp / 0x40 % 0x40, 0x80 + cp % 0x40]
  }

  /** The cast to a byte. */
  function Char(v: nat): octet {
    v % 0x100
  }

  method LowSix(v: nat) returns (r: nat)
    ensures r == v % 0x40
  {
    Mask6(v);
    return And(v, 0x3F);
  }

  method TailByte(v: nat) returns (b: octet)
    ensures b == 0x80 + v % 0x40
  {
    var r := LowSix(v);
    OrOnto(0x80, 2, 6, r);
    return Char(Or(0x80, r));
  }

  method LeadByte2(v: nat) returns (b: octet)
    requires v < 0x20
    ensures b == 0xC0 + v
  {
    var w := Or(0xC0, v);
    assert w == 0xC0 + v by { OrOnto(0xC0, 6, 5, v); }
    return Char(w);
  }

  method LeadByte3(v: nat) returns (b: octet)
    requires v < 0x10
    ensures b == 0xE0 + v
  {
    var w := Or(0xE0, v);
    assert w == 0xE0 + v by { OrOnto(0xE0, 14, 4, v); }
    return Char(w);
  }

  /** Of a larger number only four bits fit. */
  method LeadByte4(v: nat) returns (b: octet)
    ensures b == 0xF0 + v % 0x10
  {
    LowByteOfLead(v);
    return Char(Or(0xF0, v));
  }

  /** The branch for two bytes. */
  method Bytes2(cp: uint32) returns (a: octet, b: octet)
    requires 0x80 <= cp < 0x800
    ensures [a, b] == Encode(cp)
  {
    ShrIsQuotient(cp);
    a := LeadByte2(Shr(cp, 6));
    b := TailByte(cp);
  }

  /** The branch for three bytes. */
  method Bytes3(cp: uint32) returns (a: octet, b: octet, c: octet)
    requires 0x800 <= cp < 0x10000
    ensures [a, b, c] == Encode(cp)
  {
    ShrIsQuotient(cp);
    a := LeadByte3(Shr(cp, 12));
    b := TailByte(Shr(cp, 6));
    c := TailByte(cp);
  }

  /** The branch for four bytes. */
  method Bytes4(cp: uint32) returns (a: octet, b: octet, c: octet, d: octet)
    requires 0x10000 <= cp
    ensures [a, b, c, d] == Encode(cp)
  {
    ShrIsQuotient(cp);
    a := LeadByte4(Shr(cp, 18));
    b := TailByte(Shr(cp, 12));
    c := TailByte(Shr(cp, 6));
    d := TailByte(cp);
  }

  /** The first `n` bytes of a row. */
  ghost function RowPrefix(buf: array2<octet>, row: nat, n: nat): Octets
    requires row < buf.Length0 && n <= buf.Length1
    reads buf
  {
    seq(n, j requires 0 <= j < n reads buf => buf[row, j])
  }

  /** `encode_utf8`: the bytes, and a terminator after them, into row `row` of the cache. */
  method EncodeUtf8(cp: uint32, buf: array2<octet>, row: nat) returns (n: nat)
    requires row < buf.Length0 && buf.Length1 == 5
    modifies buf
    ensures n == |Encode(cp)| && RowPrefix(buf, row, n) == Encode(cp) && buf[row, n] == 0
    ensures forall i, j :: 0 <= i < buf.Length0 && 0 <= j < 5 && i != row ==> buf[i, j] == old(buf[i, j])
  {
    if cp < 0x80 {
      buf[row, 0] := cp;
      buf[row, 1] := 0;
      return 1;
    } else if cp < 0x800 {
      buf[row, 0], buf[row, 1] := Bytes2(cp);
      buf[row, 2] := 0;
      return 2;
    } else if cp < 0x10000 {
      buf[row, 0], buf[row, 1], buf[row, 2] := Bytes3(cp);
      buf[row, 3] := 0;
      return 3;
    } else {
      buf[row, 0], buf[row, 1], buf[row, 2], buf[row, 3] := Bytes4(cp);
      buf[row, 4] := 0;
      return 4;
    }
  }

  // ---- The decoder of the standard ----

  /** Unicode scalar values: everything up to U+10FFFF but the surrogates. */
  predicate Scalar(cp: int) {
    0 <= cp < 0xD800 || 0xE000 <= cp < 0x110000
  }

  predicate Tail(b: octet) {
    0x80 <= b <= 0xBF
  }

  predicate Starts2(s: Octets) {
    |s| >= 2 && 0xC2 <= s[0] <= 0xDF && Tail(s[1])
  }

  predicate Starts3(s: Octets) {
    && |s| >= 3
    && (|| (s[0] == 0xE0 && 0xA0 <= s[1] <= 0xBF)
        || (0xE1 <= s[0] <= 0xEC && Tail(s[1]))
        || (s[0] == 0xED && 0x80 <= s[1] <= 0x9F)
        || (0xEE <= s[0] <= 0xEF && Tail(s[1])))
    && Tail(s[2])
  }

  predicate Starts4(s: Octets) {
    && |s| >= 4
    && (|| (s[0] == 0xF0 && 0x90 <= s[1] <= 0xBF)
        || (0xF1 <= s[0] <= 0xF3 && Tail(s[1]))
        || (s[0] == 0xF4 && 0x80 <= s[1] <= 0x8F))
    && Tail(s[2]) && Tail(s[3])
  }

  datatype Decoded = Decoded(cp: int, length: nat)

  /** The number spelled by a lead byte's payload and tail bytes, six bits each. */
  function Bits(lead: int, tails: Octets): int {
    if tails == [] then lead
    else 0x40 * Bits(lead, tails[..|tails| - 1]) + tails[|tails| - 1] - 0x80
  }

  /** The character at the start of `s`, if a well-formed one is there. */
  function DecodeOne(s: Octets): (r: Option<Decoded>)
    ensures r.Some? ==> 1 <= r.value.length <= |s|
  {
    if |s| >= 1 && s[0] <= 0x7F then Some(Decoded(s[0], 1))
    else if Starts2(s) then Some(Decoded(Bits(s[0] - 0xC0, s[1..2]), 2))
    else if Starts3(s) then Some(Decoded(Bits(s[0] - 0xE0, s[1..3]), 3))
    else if Starts4(s) then Some(Decoded(Bits(s[0] - 0xF0, s[1..4]), 4))
    else None
  }

  /** All of `s`, if it is well-formed throughout. */
  function DecodeAll(s: Octets): Option<seq<int>> {
    if s == [] then Some([])
    else
      match DecodeOne(s)
      case None => None
      case Some(d) =>
        match DecodeAll(s[d.length..])
        case None => None
        case Some(rest) => Some([d.cp] + rest)
  }

  // ---- One character ----

  lemma Bits1(lead: int, a: octet)
    ensures Bits(lead, [a]) == 0x40 * lead + a - 0x80
  {
    assert [a][..0] == [];
  }

  lemma Bits2(lead: int, a: octet, b: octet)
    ensures Bits(lead, [a, b]) == 0x1000 * lead + 0x40 * (a - 0x80) + b - 0x80
  {
    assert [a, b][..1] == [a];
    Bits1(lead, a);
  }

  lemma Bits3(lead: int, a: octet, b: octet, c: octet)
    ensures Bits(lead, [a, b, c]) == 0x40000 * lead + 0x1000 * (a - 0x80) + 0x40 * (b - 0x80) + c - 0x80
  {
    assert [a, b, c][..2] == [a, b];
    Bits2(lead, a, b);
  }

  /** Base-64 digits. */
  lemma Digits(v: int)
    requires 0 <= v
    ensures v == 0x40 * (v / 0x40) + v % 0x40
    ensures v == 0x1000 * (v / 0x1000) + 0x40 * (v / 0x40 % 0x40) + v % 0x40
    ensures v == 0x40000 * (v / 0x40000) + 0x1000 * (v / 0x1000 % 0x40) + 0x40 * (v / 0x40 % 0x40) + v % 0x40
  {
    var q := v / 0x40;
    var p := q / 0x40;
    assert v / 0x1000 == p && v / 0x40000 == p / 0x40;
  }

  lemma DecodeEncode3(cp: uint32, rest: Octets)
    requires Scalar(cp) && 0x800 <= cp < 0x10000
    ensures DecodeOne(Encode(cp) + rest) == Some(Decoded(cp, 3))
  {
    var e, s := Encode(cp), Encode(cp) + rest;
    Digits(cp);
    Bits2(e[0] - 0xE0, e[1], e[2]);
    assert s[1..3] == [e[1], e[2]];
    assert Starts3(s);
  }

  /** The first two bytes of four are in the ranges of the standard. */
  lemma LeadRange4(cp: uint32)
    requires 0x10000 <= cp < 0x110000
    ensures var u, z := cp / 0x40000, cp / 0x1000 % 0x40;
            u == u % 0x10 <= 4 && (u == 0 ==> z >= 0x10) && (u == 4 ==> z < 0x10)
  {
    Digits(cp);
  }

  lemma DecodeEncode4(cp: uint32, rest: Octets)
    requires 0x10000 <= cp < 0x110000
    ensures DecodeOne(Encode(cp) + rest) == Some(Decoded(cp, 4))
  {
    var e, s := Encode(cp), Encode(cp) + rest;
    LeadRange4(cp);
    Digits(cp);
    Bits3(e[0] - 0xF0, e[1], e[2], e[3]);
    assert s[1..4] == [e[1], e[2], e[3]];
    assert Starts4(s);
  }

  /** The decoder reads back every scalar value, whatever follows it. */
  lemma DecodeEncode(cp: uint32, rest: Octets)
    requires Scalar(cp)
    ensures DecodeOne(Encode(cp) + rest) == Some(Decoded(cp, |Encode(cp)|))
  {
    if cp < 0x80 {
    } else if cp < 0x800 {
      var e := Encode(cp);
      Digits(cp);
      Bits1(e[0] - 0xC0, e[1]);
      assert (e + rest)[1..2] == [e[1]];
    } else if cp < 0x10000 {
      DecodeEncode3(cp, rest);
    } else {
      DecodeEncode4(cp, rest);
    }
  }

  lemma Recombine(hi: int, lo: int)
    requires 0 <= hi && 0 <= lo < 0x40
    ensures (0x40 * hi + lo) / 0x40 == hi && (0x40 * hi + lo) % 0x40 == lo
  {
  }

  lemma Backward3(z: int, y: int, x: int)
    requires 0 <= z < 0x10 && 0 <= y < 0x40 && 0 <= x < 0x40
    requires 0x800 <= 0x1000 * z + 0x40 * y + x
    ensures Encode(0x1000 * z + 0x40 * y + x) == [0xE0 + z, 0x80 + y, 0x80 + x]
  {
    var cp := 0x40 * (0x40 * z + y) + x;
    Recombine(0x40 * z + y, x);
    Recombine(z, y);
    assert cp / 0x1000 == cp / 0x40 / 0x40;
  }

  lemma Backward4(u: int, z: int, y: int, x: int)
    requires 0 <= u < 0x8 && 0 <= z < 0x40 && 0 <= y < 0x40 && 0 <= x < 0x40
    requires 0x10000 <= 0x40000 * u + 0x1000 * z + 0x40 * y + x
    ensures Encode(0x40000 * u + 0x1000 * z + 0x40 * y + x) == [0xF0 + u, 0x80 + z, 0x80 + y, 0x80 + x]
  {
    var cp := 0x40 * (0x40 * (0x40 * u + z) + y) + x;
    Recombine(0x40 * (0x40 * u + z) + y, x);
    Recombine(0x40 * u + z, y);
    Recombine(u, z);
    assert cp / 0x1000 == cp / 0x40 / 0x40 && cp / 0x40000 == cp / 0x1000 / 0x40;
  }

  lemma EncodeDecode3(s: Octets)
    requires Starts3(s)
    ensures var cp := Bits(s[0] - 0xE0, s[1..3]); Scalar(cp) && Encode(cp) == s[..3]
  {
    Bits2(s[0] - 0xE0, s[1], s[2]);
    assert s[1..3] == [s[1], s[2]];
    Backward3(s[0] - 0xE0, s[1] - 0x80, s[2] - 0x80);
  }

  lemma EncodeDecode4(s: Octets)
    requires Starts4(s)
    ensures var cp := Bits(s[0] - 0xF0, s[1..4]); Scalar(cp) && Encode(cp) == s[..4]
  {
    Bits3(s[0] - 0xF0, s[1], s[2], s[3]);
    assert s[1..4] == [s[1], s[2], s[3]];
    Backward4(s[0] - 0xF0, s[1] - 0x80, s[2] - 0x80, s[3] - 0x80);
  }

  /** Whatever the decoder accepts is the encoding of the scalar value it reports. */
  lemma EncodeDecode(s: Octets)
    requires DecodeOne(s).Some?
    ensures var d := DecodeOne(s).value;
            Scalar(d.cp) && Encode(d.cp) == s[..d.length]
  {
    if s[0] <= 0x7F {
    } else if Starts2(s) {
      Bits1(s[0] - 0xC0, s[1]);
      assert s[1..2] == [s[1]];
      Recombine(s[0] - 0xC0, s[1] - 0x80);
    } else if Starts3(s) {
      EncodeDecode3(s);
    } else {
      EncodeDecode4(s);
    }
  }

  /** The encoder is right for exactly the Unicode scalar values, among all 32-bit codepoints. */
  lemma EncodesExactly(cp: uint32)
    ensures DecodeOne(Encode(cp)) == Some(Decoded(cp, |Encode(cp)|)) <==> Scalar(cp)
  {
    if Scalar(cp) {
      DecodeEncode(cp, []);
      assert Encode(cp) + [] == Encode(cp);
    } else if DecodeOne(Encode(cp)).Some? {
      EncodeDecode(Encode(cp));
    }
  }

  /** No text decodes to a codepoint in fewer, or other, bytes than its encoding. */
  lemma Shortest(s: Octets, cp: uint32)
    requires DecodeOne(s).Some? && DecodeOne(s).value.cp == cp
    ensures Encode(cp) <= s && DecodeOne(s).value.length == |Encode(cp)|
  {
    EncodeDecode(s);
  }

  /** No encoding is the beginning of another. */
  lemma PrefixFree(a: uint32, b: uint32)
    requires Scalar(a) && Scalar(b) && Encode(a) <= Encode(b)
    ensures a == b
  {
    var rest := Encode(b)[|Encode(a)|..];
    assert Encode(b) == Encode(a) + rest && Encode(b) == Encode(b) + [];
    DecodeEncode(a, rest);
    DecodeEncode(b, []);
  }

  // ---- Texts ----

  function EncodeAll(cps: seq<uint32>): Octets {
    if cps == [] then [] else Encode(cps[0]) + EncodeAll(cps[1..])
  }

  lemma DecodeAllStep(cp: int, e: Octets, rest: Octets, cps: seq<int>)
    requires e != [] && DecodeOne(e + rest) == Some(Decoded(cp, |e|)) && DecodeAll(rest) == Some(cps)
    ensures DecodeAll(e + rest) == Some([cp] + cps)
  {
    assert (e + rest)[|e|..] == rest;
  }

  /** Decoding inverts encoding on any text of scalar values. */
  lemma {:induction false} DecodeAllEncodeAll(cps: seq<uint32>)
    requires forall i :: 0 <= i < |cps| ==> Scalar(cps[i])
    ensures DecodeAll(EncodeAll(cps)) == Some(cps)
  {
    if cps != [] {
      var rest := EncodeAll(cps[1..]);
      DecodeEncode(cps[0], rest);
      DecodeAllEncodeAll(cps[1..]);
      DecodeAllStep(cps[0], Encode(cps[0]), rest, cps[1..]);
      assert cps == [cps[0]] + cps[1..];
    }
  }

  /** Byte strings in lexicographic order. */
  predicate Before(s: Octets, t: Octets) {
    t != [] && (s == [] || s[0] < t[0] || (s[0] == t[0] && Before(s[1..], t[1..])))
  }

  lemma {:induction false} BeforeAt(s: Octets, t: Octets, k: nat)
    requires k < |s| && k < |t| && s[..k] == t[..k] && s[k] < t[k]
    ensures Before(s, t)
  {
    if k > 0 {
      assert s[0] == s[..k][0] == t[..k][0] == t[0];
      assert s[1..][..k - 1] == s[..k][1..] && t[1..][..k - 1] == t[..k][1..];
      BeforeAt(s[1..], t[1..], k - 1);
    }
  }

  lemma {:induction false} BeforeAsymmetric(s: Octets, t: Octets)
    requires Before(s, t)
    ensures !Before(t, s)
  {
    if s != [] && s[0] == t[0] {
      BeforeAsymmetric(s[1..], t[1..]);
    }
  }

  lemma LongerIsLater(a: uint32, b: uint32)
    requires Scalar(a) && Scalar(b) && a < b && |Encode(a)| != |Encode(b)|
    ensures Encode(a)[0] < Encode(b)[0]
  {
  }

  /** Two numbers in base 64 compare as their first differing digits. */
  lemma FirstDigitDecides(a: int, b: int)
    requires 0 <= a < b
    ensures a / 0x40 < b / 0x40 || (a / 0x40 == b / 0x40 && a % 0x40 < b % 0x40)
  {
  }

  lemma Shifts(v: int)
    requires 0 <= v
    ensures v / 0x40 / 0x40 == v / 0x1000 && v / 0x1000 / 0x40 == v / 0x40000
  {
  }

  lemma Before3(a: uint32, b: uint32)
    requires 0x800 <= a < b < 0x10000
    ensures Before(Encode(a), Encode(b))
  {
    Shifts(a);
    Shifts(b);
    FirstDigitDecides(a, b);
    if a / 0x40 == b / 0x40 {
      BeforeAt(Encode(a), Encode(b), 2);
    } else {
      FirstDigitDecides(a / 0x40, b / 0x40);
      BeforeAt(Encode(a), Encode(b), if a / 0x1000 == b / 0x1000 then 1 else 0);
    }
  }

  lemma Before4High(a: uint32, b: uint32)
    requires 0x10000 <= a < b < 0x110000 && a / 0x1000 < b / 0x1000
    ensures Before(Encode(a), Encode(b))
  {
    Shifts(a);
    Shifts(b);
    LeadRange4(a);
    LeadRange4(b);
    FirstDigitDecides(a / 0x1000, b / 0x1000);
    if a / 0x40000 == b / 0x40000 {
      BeforeAt(Encode(a), Encode(b), 1);
    } else {
      BeforeAt(Encode(a), Encode(b), 0);
    }
  }

  lemma Before4(a: uint32, b: uint32)
    requires 0x10000 <= a < b < 0x110000
    ensures Before(Encode(a), Encode(b))
  {
    Shifts(a);
    Shifts(b);
    FirstDigitDecides(a, b);
    if a / 0x1000 < b / 0x1000 {
      Before4High(a, b);
    } else if a / 0x40 == b / 0x40 {
      BeforeAt(Encode(a), Encode(b), 3);
    } else {
      FirstDigitDecides(a / 0x40, b / 0x40);
      BeforeAt(Encode(a), Encode(b), 2);
    }
  }

  lemma SameLengthBefore(a: uint32, b: uint32)
    requires Scalar(a) && Scalar(b) && a < b && |Encode(a)| == |Encode(b)|
    ensures Before(Encode(a), Encode(b))
  {
    if b < 0x80 {
    } else if b < 0x800 {
      FirstDigitDecides(a, b);
      BeforeAt(Encode(a), Encode(b), if a / 0x40 == b / 0x40 then 1 else 0);
    } else if b < 0x10000 {
      Before3(a, b);
    } else {
      Before4(a, b);
    }
  }

  lemma SmallerIsBefore(a: uint32, b: uint32)
    requires Scalar(a) && Scalar(b) && a < b
    ensures Before(Encode(a), Encode(b))
  {
    if |Encode(a)| == |Encode(b)| {
      SameLengthBefore(a, b);
    } else {
      LongerIsLater(a, b);
      BeforeAt(Encode(a), Encode(b), 0);
    }
  }

  lemma {:induction false} NotBeforeItself(s: Octets)
    ensures !Before(s, s)
  {
    if s != [] {
      NotBeforeItself(s[1..]);
    }
  }

  /** Byte order is codepoint order. */
  lemma OrderAgrees(a: uint32, b: uint32)
    requires Scalar(a) && Scalar(b)
    ensures Before(Encode(a), Encode(b)) <==> a < b
  {
    if a < b {
      SmallerIsBefore(a, b);
    } else if b < a {
      SmallerIsBefore(b, a);
      BeforeAsymmetric(Encode(b), Encode(a));
    } else {
      NotBeforeItself(Encode(a));
    }
  }
}
