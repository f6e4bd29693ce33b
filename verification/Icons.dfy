/** The icon table: codepoints looked up by index, and a cache of their UTF-8 strings. */
module Icons {
  import opened Sequences
  import opened Utf8

  const CACHE_ROWS: nat := 64

  datatype Entry = Entry(index: int, codepoint: uint32, name: string)

  /** The table as shipped. */
  const REGISTRY: seq<Entry> := [
    Entry(0, 0xF300, "alpine"), Entry(1, 0xF301, "aosc"), Entry(2, 0xF302, "apple"),
    Entry(3, 0xF303, "archlinux"), Entry(4, 0xF304, "centos"), Entry(5, 0xF305, "coreos"),
    Entry(6, 0xF306, "debian"), Entry(7, 0xF307, "devuan"), Entry(8, 0xF308, "docker"),
    Entry(9, 0xF309, "elementary"), Entry(10, 0xF30A, "fedora"), Entry(11, 0xF30B, "fedora_inverse"),
    Entry(12, 0xF30C, "freebsd"), Entry(13, 0xF30D, "gentoo"), Entry(14, 0xF30E, "linuxmint"),
    Entry(15, 0xF30F, "linuxmint_inverse"), Entry(16, 0xF31A, "tux"), Entry(17, 0xF323, "ferris"),
    Entry(18, 0xF315, "raspberry_pi"), Entry(19, 0xF31B, "ubuntu"), Entry(20, 0xF0A07, "monitor_dashboard")
  ]

  /** The position of the first entry with this index. */
  function Position(table: seq<Entry>, index: int): (p: Option<nat>)
    ensures p.Some? ==> p.value < |table| && table[p.value].index == index
    ensures forall i :: 0 <= i < |table| && (p.Some? ==> i < p.value) ==> table[i].index != index
  {
    if table == [] then None
    else if table[0].index == index then Some(0)
    else
      match Position(table[1..], index)
      case None => None
      case Some(p) => Some(p + 1)
  }

  lemma PositionIs(table: seq<Entry>, index: int, i: nat)
    requires i < |table| && table[i].index == index
    requires forall j :: 0 <= j < i ==> table[j].index != index
    ensures Position(table, index) == Some(i)
  {
  }

  /** The codepoint of an index; 0 when it is negative or unknown. */
  ghost function CodepointOf(table: seq<Entry>, index: int): uint32 {
    if index < 0 || Position(table, index).None? then 0 else table[Position(table, index).value].codepoint
  }

  /** The string that a lookup returns, whatever was looked up before. */
  ghost function GlyphOf(table: seq<Entry>, index: int): Option<Octets> {
    if index < 0 then None
    else
      match Position(table, index)
      case None => None
      case Some(p) => if p < CACHE_ROWS then Some(Encode(table[p].codepoint)) else None
  }

  /** A lookup answers exactly for indices that are not negative and found first in one of the first 64 entries. */
  lemma GlyphExactly(table: seq<Entry>, index: int)
    ensures GlyphOf(table, index).Some? <==>
            0 <= index && exists i :: 0 <= i < |table| && i < 64 && table[i].index == index
    ensures GlyphOf(table, index).Some? ==> GlyphOf(table, index).value == Encode(CodepointOf(table, index))
  {
  }

  /** Among entries with the same index the first decides, for the codepoint and for the glyph. */
  lemma FirstMatchDecides(table: seq<Entry>, index: int, i: nat)
    requires 0 <= index && i < |table| && table[i].index == index && forall j :: 0 <= j < i ==> table[j].index != index
    ensures CodepointOf(table, index) == table[i].codepoint
    ensures GlyphOf(table, index) == if i < 64 then Some(Encode(table[i].codepoint)) else None
  {
    PositionIs(table, index, i);
  }

  /** A negative or unknown index has neither. */
  lemma NoMatch(table: seq<Entry>, index: int)
    requires index < 0 || forall j :: 0 <= j < |table| ==> table[j].index != index
    ensures CodepointOf(table, index) == 0 && GlyphOf(table, index) == None
  {
  }

  /** Indices count up from 0 without a gap, all codepoints are characters, and all rows are cacheable. */
  ghost predicate WellNumbered(table: seq<Entry>) {
    && |table| <= CACHE_ROWS
    && forall i :: 0 <= i < |table| ==> table[i].index == i && Scalar(table[i].codepoint)
  }

  lemma ShippedIsWellNumbered()
    ensures WellNumbered(REGISTRY)
  {
    assert |REGISTRY| == 21;
  }

  /** In such a table every icon has a glyph, and it decodes to the icon's codepoint and nothing else. */
  lemma IconsResolve(table: seq<Entry>, i: nat)
    requires WellNumbered(table) && i < |table|
    ensures GlyphOf(table, i) == Some(Encode(table[i].codepoint))
    ensures DecodeAll(Encode(table[i].codepoint)) == Some([table[i].codepoint])
  {
    PositionIs(table, i, i);
    var cp := table[i].codepoint;
    assert EncodeAll([cp]) == Encode(cp) + EncodeAll([]) == Encode(cp);
    DecodeAllEncodeAll([cp]);
  }

  class Icons {
    const table: seq<Entry>
    const cache: array2<octet>
    const cached: array<bool>

    /** Row `p` holds the C string `s`, as far as its bytes before the terminator go. */
    ghost predicate Holds(p: nat, s: Octets)
      requires p < cache.Length0 && cache.Length1 == 5
      reads this, cache
    {
      && |s| < 5 && cache[p, |s|] == 0
      && RowPrefix(cache, p, |s|) == s
    }

    /** Every row marked as cached holds its entry's string, terminated. */
    ghost predicate Valid()
      reads this, cache, cached
    {
      && cache.Length0 == CACHE_ROWS && cache.Length1 == 5 && cached.Length == CACHE_ROWS
      && forall p :: 0 <= p < CACHE_ROWS && cached[p] ==> p < |table| && Holds(p, Encode(table[p].codepoint))
    }

    constructor (table: seq<Entry>)
      ensures Valid() && this.table == table && fresh(cache) && fresh(cached)
    {
      this.table := table;
      cache := new octet[CACHE_ROWS, 5]((_, _) => 0);
      cached := new bool[CACHE_ROWS](_ => false);
    }

    /** Encodes entry `i` on first use. */
    method Fill(i: nat)
      requires Valid() && i < |table| && i < CACHE_ROWS
      modifies cache, cached
      ensures Valid() && Holds(i, Encode(table[i].codepoint))
      ensures forall p, s :: 0 <= p < CACHE_ROWS && old(cached[p]) && old(Holds(p, s)) ==> cached[p] && Holds(p, s)
    {
      if !cached[i] {
        var n := EncodeUtf8(table[i].codepoint, cache, i);
        cached[i] := true;
      }
    }

    /** The row returned stands for the pointer into the cache; None is the null pointer. */
    method Lookup(index: int) returns (row: Option<nat>)
      requires Valid()
      modifies cache, cached
      ensures Valid()
      ensures row.Some? <==> GlyphOf(table, index).Some?
      ensures row.Some? ==> row.value < CACHE_ROWS && Holds(row.value, GlyphOf(table, index).value)
      ensures row.Some? ==>
                var s := GlyphOf(table, index).value;
                && |s| <= 4 && cache[row.value, |s|] == 0
                && forall j :: 0 <= j < |s| ==> cache[row.value, j] == s[j]
      ensures forall p, s :: 0 <= p < CACHE_ROWS && old(cached[p]) && old(Holds(p, s)) ==> cached[p] && Holds(p, s)
    {
      if index < 0 {
        return None;
      }
      for i := 0 to |table|
        invariant Valid()
        invariant forall j :: 0 <= j < i ==> table[j].index != index
        invariant cached[..] == old(cached[..])
        invariant forall p, j :: 0 <= p < CACHE_ROWS && 0 <= j < 5 ==> cache[p, j] == old(cache[p, j])
      {
        if table[i].index == index {
          PositionIs(table, index, i);
          if i < CACHE_ROWS {
            Fill(i);
          }
          return if i < CACHE_ROWS then Some(i) else None;
        }
      }
      return None;
    }

    method Codepoint(index: int) returns (cp: uint32)
      ensures cp == CodepointOf(table, index)
    {
      if index < 0 {
        return 0;
      }
      for i := 0 to |table|
        invariant forall j :: 0 <= j < i ==> table[j].index != index
      {
        if table[i].index == index {
          PositionIs(table, index, i);
          return table[i].codepoint;
        }
      }
      return 0;
    }
  }
}
