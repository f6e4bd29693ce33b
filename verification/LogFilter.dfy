/** The missing-glyph log filter: the codepoint parser and the bounded table of reported codepoints. */
module LogFilter {
  import opened BitOps
  import opened Sequences
  import opened Text

  const MARKER: string := "glyph dsc. not found for U+"
  const MAX_CODEPOINTS: nat := 64
  const MAX_DIGITS: nat := 6

  // ---- What a line says ----

  function HexDigit(c: char): int {
    if '0' <= c <= '9' then c as int - '0' as int
    else if 'a' <= c <= 'f' then c as int - 'a' as int + 10
    else if 'A' <= c <= 'F' then c as int - 'A' as int + 10
    else -1
  }

  predicate IsHex(c: char) {
    HexDigit(c) >= 0
  }

  /** The hex digits, character by character. */
  lemma HexExactly(c: char)
    ensures IsHex(c) <==> c in "0123456789abcdefABCDEF"
  {
  }

  /** And what each of them is worth. */
  lemma HexValues(d: nat)
    requires d < 16
    ensures HexDigit("0123456789abcdef"[d]) == d && HexDigit("0123456789ABCDEF"[d]) == d
  {
  }

  predicate OccursAt(s: string, m: string, i: nat) {
    i + |m| <= |s| && s[i..i + |m|] == m
  }

  /** `strstr`: the first occurrence of `m` at or after position `from`. */
  function FindFrom(s: string, m: string, from: nat): (r: Option<nat>)
    requires from <= |s|
    ensures r.Some? ==> from <= r.value <= |s| && OccursAt(s, m, r.value)
    ensures forall i: nat :: from <= i && (r.Some? ==> i < r.value) ==> !OccursAt(s, m, i)
    decreases |s| - from
  {
    if OccursAt(s, m, from) then Some(from)
    else if from == |s| then None
    else FindFrom(s, m, from + 1)
  }

  /** The length of the longest run of hex digits at the start of `s`. */
  function HexRun(s: string): (n: nat)
    ensures n <= |s| && (forall i :: 0 <= i < n ==> IsHex(s[i])) && (n < |s| ==> !IsHex(s[n]))
  {
    if s == "" || !IsHex(s[0]) then 0 else 1 + HexRun(s[1..])
  }

  ghost predicate AllHex(ds: string) {
    forall i :: 0 <= i < |ds| ==> IsHex(ds[i])
  }

  function Pow16(n: nat): nat {
    if n == 0 then 1 else 16 * Pow16(n - 1)
  }

  ghost function HexValue(ds: string): (v: nat)
    requires AllHex(ds)
    ensures v < Pow16(|ds|)
  {
    if ds == "" then 0 else 16 * HexValue(ds[..|ds| - 1]) + HexDigit(ds[|ds| - 1])
  }

  /** The codepoint a log line reports missing, if it is that kind of line. */
  ghost function Codepoint(msg: string): Option<nat> {
    match FindFrom(msg, MARKER, 0)
    case None => None
    case Some(i) =>
      var tail := msg[i + |MARKER|..];
      var n := HexRun(tail);
      if 1 <= n <= MAX_DIGITS then Some(HexValue(tail[..n])) else None
  }

  // ---- The parser ----

  /** Shifting a digit into the accumulator is multiplying and adding, as long as no bit is shifted out. */
  lemma DigitShiftedIn(cp: nat, d: nat)
    requires 0x10 * cp < WORD && d < 0x10
    ensures Or(Shl(cp, 4), d) == 0x10 * cp + d
  {
    ShlIsProduct(cp);
    OrOnto(0x10 * cp, cp, 4, d);
  }

  lemma Pow16Six()
    ensures Pow16(MAX_DIGITS) == 0x100_0000
  {
    assert Pow16(3) == 0x1000;
    assert Pow16(4) == 16 * Pow16(3);
    assert Pow16(5) == 16 * Pow16(4);
  }

  lemma {:induction false} Pow16Monotone(m: nat, n: nat)
    requires m <= n
    ensures 1 <= Pow16(m) <= Pow16(n)
    decreases n
  {
    if n > 0 {
      Pow16Monotone(if m < n then m else m - 1, n - 1);
    }
  }

  lemma HexRunIs(s: string, n: nat)
    requires n <= |s| && (forall i :: 0 <= i < n ==> IsHex(s[i])) && (n < |s| ==> !IsHex(s[n]))
    ensures HexRun(s) == n
  {
  }

  /** The character at position `i`, or the string's terminator. */
  function CharAt(s: string, i: nat): char {
    if i < |s| then s[i] else NUL
  }

  lemma NextDigit(s: string, n: nat)
    requires n < |s| && n < MAX_DIGITS && AllHex(s[..n]) && IsHex(s[n])
    ensures AllHex(s[..n + 1])
    ensures Or(Shl(HexValue(s[..n]), 4), HexDigit(s[n])) == HexValue(s[..n + 1])
  {
    assert s[..n + 1][..n] == s[..n];
    Pow16Six();
    Pow16Monotone(n, MAX_DIGITS);
    DigitShiftedIn(HexValue(s[..n]), HexDigit(s[n]));
  }

  lemma LongRun(s: string, n: nat)
    requires n <= |s| && forall i :: 0 <= i < n ==> IsHex(s[i])
    ensures HexRun(s) >= n
  {
  }

  /** The digit loop: one to six digits, in an accumulator of 32 bits that never overflows. */
  method ParseHex(tail: string) returns (found: bool, cp: nat)
    ensures found <==> 1 <= HexRun(tail) <= MAX_DIGITS
    ensures found ==> cp == HexValue(tail[..HexRun(tail)]) && cp < 0x100_0000
  {
    var p, digits := 0, 0;
    cp := 0;
    if HexDigit(CharAt(tail, p)) < 0 {
      return false, 0;
    }
    while HexDigit(CharAt(tail, p)) >= 0
      invariant p == digits <= MAX_DIGITS && p <= |tail|
      invariant AllHex(tail[..p]) && cp == HexValue(tail[..p])
      invariant p == 0 ==> HexDigit(CharAt(tail, 0)) >= 0
      decreases |tail| - p
    {
      var d := HexDigit(CharAt(tail, p));
      digits := digits + 1;
      if digits > MAX_DIGITS {
        assert forall i :: 0 <= i < p ==> tail[i] == tail[..p][i];
        LongRun(tail, digits);
        return false, 0;
      }
      NextDigit(tail, p);
      cp := Or(Shl(cp, 4), d);
      p := p + 1;
    }
    assert forall i :: 0 <= i < p ==> tail[i] == tail[..p][i];
    HexRunIs(tail, p);
    Pow16Six();
    Pow16Monotone(p, MAX_DIGITS);
    return true, cp;
  }

  method ParseCodepoint(msg: Option<string>) returns (found: bool, cp: nat)
    ensures msg.None? ==> !found
    ensures msg.Some? ==> (found <==> Codepoint(msg.value).Some?)
    ensures found ==> Codepoint(msg.value) == Some(cp) && cp < 0x100_0000
  {
    if msg.None? {
      return false, 0;
    }
    var at := FindFrom(msg.value, MARKER, 0);
    if at.None? {
      return false, 0;
    }
    found, cp := ParseHex(msg.value[at.value + |MARKER|..]);
  }

  // ---- Exactly which lines report which codepoint ----

  ghost predicate NoMarker(s: string) {
    forall i: nat :: !OccursAt(s, MARKER, i)
  }

  /** The marker has no proper border: no end of it is also a beginning. */
  lemma MarkerHasNoBorder(k: nat)
    requires 0 < k < |MARKER|
    ensures MARKER[k..] != MARKER[..|MARKER| - k]
  {
    assert MARKER[k] != MARKER[0];
    assert MARKER[k..][0] == MARKER[k] && MARKER[..|MARKER| - k][0] == MARKER[0];
  }

  lemma NotInside(prefix: string, rest: string, i: nat)
    requires NoMarker(prefix) && i < |prefix|
    ensures !OccursAt(prefix + MARKER + rest, MARKER, i)
  {
    var s := prefix + MARKER + rest;
    if OccursAt(s, MARKER, i) {
      var k := |prefix| - i;
      if k >= |MARKER| {
        assert s[i..i + |MARKER|] == prefix[i..i + |MARKER|];
        assert OccursAt(prefix, MARKER, i);
      } else {
        MarkerHasNoBorder(k);
      }
      assert false;
    }
  }

  /** So the first occurrence in `prefix + MARKER + rest` cannot begin inside the prefix. */
  lemma MarkerFoundAt(prefix: string, rest: string)
    requires NoMarker(prefix)
    ensures FindFrom(prefix + MARKER + rest, MARKER, 0) == Some(|prefix|)
  {
    var s := prefix + MARKER + rest;
    assert OccursAt(s, MARKER, |prefix|);
    forall i: nat | i < |prefix| ensures !OccursAt(s, MARKER, i) {
      NotInside(prefix, rest, i);
    }
    var r := FindFrom(s, MARKER, 0);
    assert r.Some?;
  }

  /** A line of this shape reports the value of the digits. */
  ghost predicate Reports(msg: string, prefix: string, digits: string, suffix: string) {
    && msg == prefix + MARKER + digits + suffix
    && NoMarker(prefix)
    && AllHex(digits) && 1 <= |digits| <= 6
    && (suffix != "" ==> !IsHex(suffix[0]))
  }

  lemma ParsesWhatIsPrinted(msg: string, prefix: string, digits: string, suffix: string)
    requires Reports(msg, prefix, digits, suffix)
    ensures Codepoint(msg) == Some(HexValue(digits))
  {
    var rest := digits + suffix;
    assert msg == prefix + MARKER + rest;
    MarkerFoundAt(prefix, rest);
    assert msg[|prefix| + |MARKER|..] == rest;
    HexRunIs(rest, |digits|);
    assert rest[..|digits|] == digits;
  }

  lemma FirstMarkerPrefix(msg: string, i: nat)
    requires FindFrom(msg, MARKER, 0) == Some(i)
    ensures NoMarker(msg[..i])
  {
    forall j: nat ensures !OccursAt(msg[..i], MARKER, j) {
      if OccursAt(msg[..i], MARKER, j) {
        assert msg[..i][j..j + |MARKER|] == msg[j..j + |MARKER|];
        assert OccursAt(msg, MARKER, j);
        assert false;
      }
    }
  }

  lemma MarkerSplits(msg: string, i: nat)
    requires OccursAt(msg, MARKER, i)
    ensures msg == msg[..i] + MARKER + msg[i + |MARKER|..]
  {
    assert msg[i..i + |MARKER|] == MARKER;
  }

  lemma Regrouped(head: string, digits: string, suffix: string)
    ensures head + (digits + suffix) == head + digits + suffix
  {
  }

  lemma SplitAtDigits(msg: string, i: nat, n: nat)
    requires OccursAt(msg, MARKER, i) && n <= |msg[i + |MARKER|..]|
    ensures var tail := msg[i + |MARKER|..]; msg == msg[..i] + MARKER + tail[..n] + tail[n..]
  {
    var tail := msg[i + |MARKER|..];
    MarkerSplits(msg, i);
    assert tail == tail[..n] + tail[n..];
    Regrouped(msg[..i] + MARKER, tail[..n], tail[n..]);
  }

  lemma RunIsHex(tail: string)
    ensures var n := HexRun(tail); AllHex(tail[..n]) && (tail[n..] != "" ==> !IsHex(tail[n..][0]))
  {
  }

  lemma ReportHasShape(msg: string) returns (prefix: string, digits: string, suffix: string)
    requires Codepoint(msg).Some?
    ensures Reports(msg, prefix, digits, suffix) && Codepoint(msg) == Some(HexValue(digits))
  {
    var i := FindFrom(msg, MARKER, 0).value;
    var tail := msg[i + |MARKER|..];
    var n := HexRun(tail);
    prefix, digits, suffix := msg[..i], tail[..n], tail[n..];
    FirstMarkerPrefix(msg, i);
    SplitAtDigits(msg, i, n);
    RunIsHex(tail);
  }

  /** A line reports codepoint `cp` if and only if it has that shape with digits of value `cp`. */
  lemma ReportsExactly(msg: string, cp: nat)
    ensures Codepoint(msg) == Some(cp) <==>
            exists prefix, digits, suffix :: Reports(msg, prefix, digits, suffix) && HexValue(digits) == cp
  {
    if Codepoint(msg) == Some(cp) {
      var prefix, digits, suffix := ReportHasShape(msg);
    }
    if prefix, digits, suffix :| Reports(msg, prefix, digits, suffix) && HexValue(digits) == cp {
      ParsesWhatIsPrinted(msg, prefix, digits, suffix);
    }
  }

  function DigitChar(d: nat, upper: bool): (c: char)
    requires d < 16
    ensures HexDigit(c) == d
  {
    HexValues(d);
    if upper then "0123456789ABCDEF"[d] else "0123456789abcdef"[d]
  }

  /** The digits of `cp` as `%X` (or, in lower case, `%x`) prints them. */
  function PrintHex(cp: nat, upper: bool): (ds: string)
    ensures |ds| >= 1
  {
    var d := [DigitChar(cp % 16, upper)];
    if cp < 16 then d else PrintHex(cp / 16, upper) + d
  }

  lemma {:induction false} PrintHexValue(cp: nat, upper: bool)
    ensures AllHex(PrintHex(cp, upper)) && HexValue(PrintHex(cp, upper)) == cp
  {
    var ds := PrintHex(cp, upper);
    if cp < 16 {
      assert ds[..0] == "";
      assert HexValue(ds) == 16 * HexValue(ds[..0]) + HexDigit(ds[0]);
    } else {
      PrintHexValue(cp / 16, upper);
      assert ds[..|ds| - 1] == PrintHex(cp / 16, upper);
    }
  }

  lemma {:induction false} PrintHexLength(cp: nat, upper: bool, n: nat)
    requires 1 <= n && cp < Pow16(n)
    ensures |PrintHex(cp, upper)| <= n
    decreases n
  {
    if cp >= 16 {
      assert Pow16(1) == 16;
      PrintHexLength(cp / 16, upper, n - 1);
    }
  }

  /**
   * Print then parse: any codepoint below 2^24, in either case, after any text without the marker and
   * in front of any text that does not begin with a hex digit.
   */
  lemma PrintThenParse(prefix: string, cp: nat, upper: bool, suffix: string)
    requires NoMarker(prefix) && cp < 0x100_0000
    requires suffix != "" ==> suffix[0] !in "0123456789abcdefABCDEF"
    ensures Codepoint(prefix + "glyph dsc. not found for U+" + PrintHex(cp, upper) + suffix) == Some(cp)
  {
    if suffix != "" {
      HexExactly(suffix[0]);
    }
    Pow16Six();
    PrintHexValue(cp, upper);
    PrintHexLength(cp, upper, MAX_DIGITS);
    ParsesWhatIsPrinted(prefix + MARKER + PrintHex(cp, upper) + suffix, prefix, PrintHex(cp, upper), suffix);
  }

  /** A text shorter than the marker does not hold it. */
  lemma ShortTextHasNoMarker(s: string)
    requires |s| < |MARKER|
    ensures NoMarker(s)
  {
  }

  /** The line that LVGL logs for a missing middle dot. */
  lemma MiddleDotIsParsed(suffix: string)
    requires suffix != "" ==> suffix[0] !in "0123456789abcdefABCDEF"
    ensures Codepoint("lv_draw_letter: " + "glyph dsc. not found for U+" + "B7" + suffix) == Some(0xB7)
  {
    var head, dot := "lv_draw_letter: ", "B7";
    assert PrintHex(0xB7, true) == dot by {
      assert PrintHex(0xB, true) == "B";
    }
    ShortTextHasNoMarker(head);
    PrintThenParse(head, 0xB7, true, suffix);
  }

  // ---- The table of reported codepoints ----

  datatype Verdict = Emit | EmitFirst | Suppress

  ghost function Parsed(msg: Option<string>): Option<nat> {
    if msg.None? then None else Codepoint(msg.value)
  }

  /** What is decided about a line, given the table. */
  function Decide(table: seq<nat>, cp: Option<nat>): Verdict {
    if cp.None? then Emit
    else if cp.value in table || |table| >= MAX_CODEPOINTS then Suppress
    else EmitFirst
  }

  function Updated(table: seq<nat>, cp: Option<nat>): seq<nat> {
    if Decide(table, cp).EmitFirst? then table + [cp.value] else table
  }

  class Filter {
    const seen: array<nat>
    var count: nat

    ghost predicate Valid()
      reads this, seen
    {
      seen.Length == MAX_CODEPOINTS && count <= MAX_CODEPOINTS
    }

    ghost function Table(): seq<nat>
      requires Valid()
      reads this, seen
    {
      seen[..count]
    }

    constructor ()
      ensures Valid() && Table() == [] && fresh(seen)
    {
      seen := new nat[MAX_CODEPOINTS];
      count := 0;
    }

    method Check(msg: Option<string>) returns (verdict: Verdict)
      requires Valid()
      modifies this, seen
      ensures Valid() && verdict == Decide(old(Table()), Parsed(msg))
      ensures Table() == Updated(old(Table()), Parsed(msg))
    {
      var found, cp := ParseCodepoint(msg);
      if !found {
        return Emit;
      }
      for i := 0 to count
        invariant cp !in seen[..i]
      {
        if seen[i] == cp {
          return Suppress;
        }
      }
      if count >= MAX_CODEPOINTS {
        return Suppress;
      }
      seen[count] := cp;
      count := count + 1;
      return EmitFirst;
    }

    method Reset()
      requires Valid()
      modifies this
      ensures Valid() && Table() == []
    {
      count := 0;
    }

    method ReportedCount() returns (n: nat)
      requires Valid()
      ensures n == |Table()|
    {
      n := count;
    }
  }

  // ---- Whole traces ----

  /** The table after a trace of log lines. */
  ghost function TableAfter(msgs: seq<Option<string>>): seq<nat> {
    if msgs == [] then []
    else Updated(TableAfter(msgs[..|msgs| - 1]), Parsed(msgs[|msgs| - 1]))
  }

  /** The codepoints reported in a trace, repeats included. */
  ghost function Reported(msgs: seq<Option<string>>): seq<nat> {
    if msgs == [] then []
    else
      var cp := Parsed(msgs[|msgs| - 1]);
      Reported(msgs[..|msgs| - 1]) + if cp.Some? then [cp.value] else []
  }

  /** The table is always the first distinct codepoints, in order of first appearance, up to its size. */
  lemma {:induction false} TableIsFirstDistinct(msgs: seq<Option<string>>)
    ensures TableAfter(msgs) == Take(Dedup(Reported(msgs)), 64)
  {
    if msgs != [] {
      var before, cp := msgs[..|msgs| - 1], Parsed(msgs[|msgs| - 1]);
      var r := Reported(before);
      TableIsFirstDistinct(before);
      if cp.Some? {
        DedupSnoc(r, cp.value);
        DedupMembers(r, cp.value);
      } else {
        assert r + [] == r;
      }
    }
  }

  /**
   * The verdict on a line after any trace: lines that report nothing are emitted; a report is
   * emitted as a first sighting exactly when its codepoint is new and fewer than 64 distinct ones
   * came before; every other report is suppressed.
   */
  lemma VerdictExactly(msgs: seq<Option<string>>, msg: Option<string>)
    ensures var v := Decide(TableAfter(msgs), Parsed(msg));
            && (v == Emit <==> Parsed(msg).None?)
            && (v == EmitFirst <==>
                  Parsed(msg).Some? && Parsed(msg).value !in Reported(msgs) && |Dedup(Reported(msgs))| < 64)
  {
    TableIsFirstDistinct(msgs);
    if Parsed(msg).Some? {
      DedupMembers(Reported(msgs), Parsed(msg).value);
    }
  }

  /** How many first sightings a trace has emitted. */
  ghost function FirstsEmitted(msgs: seq<Option<string>>): nat {
    if msgs == [] then 0
    else
      var before := msgs[..|msgs| - 1];
      FirstsEmitted(before)
      + if Decide(TableAfter(before), Parsed(msgs[|msgs| - 1])) == EmitFirst then 1 else 0
  }

  /** However long the trace, at most 64 reports are let through, one per codepoint in the table. */
  lemma {:induction false} EmittedOncePerCodepoint(msgs: seq<Option<string>>)
    ensures FirstsEmitted(msgs) == |TableAfter(msgs)| <= 64
    ensures Distinct(TableAfter(msgs))
  {
    TableIsFirstDistinct(msgs);
    DedupIsDistinct(Reported(msgs));
    if msgs != [] {
      EmittedOncePerCodepoint(msgs[..|msgs| - 1]);
    }
  }
}
