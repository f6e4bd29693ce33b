/**
 * The admitted-hosts file as a format: what a whole file means, independently of how it is read,
 * and what is written for two host lists.
 */
module AdmittedFormat {
  import opened Protocol
  import opened Sequences
  import opened Text

  const NET: string := "net"

  predicate HostChar(c: char) {
    'a' <= c <= 'z' || '0' <= c <= '9' || c == '-' || c == '.'
  }

  predicate IsHostname(s: string) {
    && 0 < |s| < HOSTNAME_LEN
    && forall i :: 0 <= i < |s| ==> HostChar(s[i])
  }

  /** The alphabet, character by character. */
  lemma HostCharExactly(c: char)
    ensures HostChar(c) <==> c in "abcdefghijklmnopqrstuvwxyz0123456789-."
  {
  }

  /** A valid hostname has 1 to 63 characters of that alphabet. */
  lemma HostnameExactly(s: string)
    ensures IsHostname(s) <==>
            1 <= |s| <= 63 && forall i :: 0 <= i < |s| ==> s[i] in "abcdefghijklmnopqrstuvwxyz0123456789-."
  {
    forall i | 0 <= i < |s| ensures HostChar(s[i]) <==> s[i] in "abcdefghijklmnopqrstuvwxyz0123456789-." {
      HostCharExactly(s[i]);
    }
  }

  /** The section that a `[name]` line opens; None for every other line. */
  function HeaderName(line: string, size: nat): Option<string> {
    var len := |line|;
    if len < 3 || line[0] != '[' || line[len - 1] != ']' || len - 2 >= size then None
    else Some(line[1..len - 1])
  }

  predicate IsHeader(line: string) {
    HeaderName(line, HOSTNAME_LEN).Some?
  }

  /** Headers are the lines `[name]` with a name of 1 to 63 characters, and they open the section of that name. */
  lemma HeaderExactly(line: string, name: string)
    ensures HeaderName(line, HOSTNAME_LEN) == Some(name) <==> line == "[" + name + "]" && 1 <= |name| <= 63
  {
    if line == "[" + name + "]" {
      assert line[1..|line| - 1] == name;
    }
    if HeaderName(line, HOSTNAME_LEN) == Some(name) {
      assert line == [line[0]] + line[1..|line| - 1] + [line[|line| - 1]];
    }
  }

  function StripCr(s: string): string {
    if |s| > 0 && s[|s| - 1] == '\r' then s[..|s| - 1] else s
  }

  /**
   * The lines of a file that are looked at, given the pieces between its newlines.
   * A line longer than a hostname buffer is dropped whole. A shorter line holding a NUL byte hides
   * its own newline from the reader, which then drops the line after it as well. The last piece
   * has no newline, and is cut at its first NUL instead.
   */
  function KeptLines(pieces: seq<string>): (kept: seq<string>)
    requires |pieces| >= 1
  {
    var l := pieces[0];
    if |pieces| == 1 then
      if l == "" || |l| > HOSTNAME_LEN then [] else [StripCr(CStr(l))]
    else if |l| > HOSTNAME_LEN then KeptLines(pieces[1..])
    else if NUL in l then
      if |pieces| == 2 then [] else KeptLines(pieces[2..])
    else [StripCr(l)] + KeptLines(pieces[1..])
  }

  lemma KeptCons(l: string, pieces: seq<string>)
    requires |pieces| >= 1
    ensures KeptLines([l] + pieces) ==
            if |l| > HOSTNAME_LEN then KeptLines(pieces)
            else if NUL in l then (if |pieces| == 1 then [] else KeptLines(pieces[1..]))
            else [StripCr(l)] + KeptLines(pieces)
  {
    TailOf(l, pieces);
  }

  function FileLines(text: string): seq<string> {
    KeptLines(Split(text, '\n'))
  }

  lemma EmptyFile()
    ensures FileLines("") == []
  {
    SplitNone("", '\n');
  }

  /** The section that is open after line `l`. */
  function NextSection(l: string, cur: string): string {
    match HeaderName(l, HOSTNAME_LEN)
    case Some(name) => name
    case None => cur
  }

  /** The lines of section `want`, when the lines begin inside section `cur`. */
  function SectionLines(lines: seq<string>, cur: string, want: string): seq<string> {
    if lines == [] then []
    else
      (if !IsHeader(lines[0]) && cur == want then [lines[0]] else [])
      + SectionLines(lines[1..], NextSection(lines[0], cur), want)
  }

  /** The distinct valid hostnames of a list, in order of first appearance. */
  function Names(lines: seq<string>): seq<string> {
    Dedup(Filter(IsHostname, lines))
  }

  /** What a file holds for one section. */
  function Load(text: string, want: string, max: nat): seq<string> {
    Take(Names(SectionLines(FileLines(text), "", want)), max)
  }

  /** The names of a host list that are written to the file. */
  function Written(hosts: seq<string>): seq<string> {
    Take(Names(hosts), MAX_CLIENTS)
  }

  /** The file written for two host lists. */
  function SavedText(hosts: seq<string>, net: seq<string>): string {
    Unlines(Written(hosts)) + (if |net| > 0 then "[net]\n" + Unlines(Written(net)) else "")
  }

  lemma NamesMembers(lines: seq<string>)
    ensures forall x :: x in Names(lines) <==> x in lines && IsHostname(x)
    ensures Distinct(Names(lines))
  {
    forall x ensures x in Names(lines) <==> x in lines && IsHostname(x) {
      DedupMembers(Filter(IsHostname, lines), x);
      FilterMembers(IsHostname, lines, x);
    }
    DedupIsDistinct(Filter(IsHostname, lines));
  }

  lemma NamesSnoc(seen: seq<string>, l: string)
    ensures Names(seen + [l]) ==
            if IsHostname(l) && l !in Names(seen) then Names(seen) + [l] else Names(seen)
  {
    FilterAppend(IsHostname, seen, [l]);
    var kept := Filter(IsHostname, seen);
    assert Filter(IsHostname, [l]) == if IsHostname(l) then [l] else [];
    assert kept + [] == kept;
    DedupSnoc(kept, l);
    DedupMembers(kept, l);
  }

  lemma NamesPrefix(seen: seq<string>, more: seq<string>)
    ensures Names(seen) <= Names(seen + more)
  {
    FilterAppend(IsHostname, seen, more);
    DedupPrefix(Filter(IsHostname, seen), Filter(IsHostname, more));
  }
}
