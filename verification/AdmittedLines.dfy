/**
 * What the lines of an admitted-hosts file mean, in plain terms: each law says what comes out for a
 * line of a given shape, whichever line ending it has and whichever section it is in.
 */
module AdmittedLines {
  import opened Protocol
  import opened Sequences
  import opened Text
  import opened AdmittedFormat
  import opened AdmittedLaws

  // ---- Line endings ----

  /** No newline and no NUL byte. */
  predicate OneLine(l: string) {
    '\n' !in l && NUL !in l
  }

  predicate EndsInCr(l: string) {
    l != "" && l[|l| - 1] == '\r'
  }

  /** A line that ends in CRLF loses both characters. */
  lemma CrLfLine(l: string, rest: string)
    requires OneLine(l) && |l| < 64
    ensures FileLines(l + "\r\n" + rest) == [l] + FileLines(rest)
  {
    assert l + "\r\n" + rest == (l + ['\r']) + ['\n'] + rest;
    FirstCleanLine(l + ['\r'], rest);
    assert (l + ['\r'])[..|l|] == l;
  }

  /** A line that ends in LF alone loses only that. */
  lemma LfLine(l: string, rest: string)
    requires OneLine(l) && |l| <= 64 && !EndsInCr(l)
    ensures FileLines(l + "\n" + rest) == [l] + FileLines(rest)
  {
    FirstCleanLine(l, rest);
  }

  /** A longer line is dropped, and with CRLF one of 64 characters is. */
  lemma LongLine(l: string, rest: string)
    requires '\n' !in l && |l| > 64
    ensures FileLines(l + "\n" + rest) == FileLines(rest)
  {
    OverLongLine(l, rest);
  }

  lemma LongLineCr(l: string, rest: string)
    requires '\n' !in l && |l| >= 64
    ensures FileLines(l + "\r\n" + rest) == FileLines(rest)
  {
    OverLongLine(l + ['\r'], rest);
    assert l + "\r\n" + rest == (l + ['\r']) + ['\n'] + rest;
  }

  /** The last line needs no ending: it is kept, without a CR, unless it is too long. */
  lemma LastLineAlone(l: string)
    requires OneLine(l) && l != ""
    ensures |l| <= 64 && !EndsInCr(l) ==> FileLines(l) == [l]
    ensures |l| < 64 ==> FileLines(l + "\r") == [l]
    ensures |l| > 64 ==> FileLines(l) == []
  {
    SplitNone(l, '\n');
    SplitNone(l + "\r", '\n');
    StrLenIs(l, |l|);
    StrLenIs(l + "\r", |l| + 1);
    assert CStr(l) == l && CStr(l + "\r") == l + "\r";
    assert (l + "\r")[..|l|] == l;
  }

  // ---- A whole file with the other line ending ----

  /** The file with every LF turned into CRLF. */
  function CrLf(text: string): string {
    if text == "" then ""
    else (if text[0] == '\n' then "\r\n" else [text[0]]) + CrLf(text[1..])
  }

  lemma {:induction false} CrLfFirst(l: string, rest: string)
    requires '\n' !in l
    ensures CrLf(l + "\n" + rest) == l + "\r\n" + CrLf(rest)
  {
    var text := l + "\n" + rest;
    if l == "" {
      assert text[0] == '\n' && text[1..] == rest;
    } else {
      assert text[0] == l[0] && text[1..] == l[1..] + "\n" + rest;
      CrLfFirst(l[1..], rest);
    }
  }

  lemma {:induction false} CrLfNone(l: string)
    requires '\n' !in l
    ensures CrLf(l) == l
  {
    if l != "" {
      CrLfNone(l[1..]);
    }
  }

  /** A header whose name has 62 characters: with a CR it is one character too long. */
  predicate FullHeader(l: string) {
    |l| == 64 && l[0] == '[' && l[63] == ']'
  }

  /** No line of the file is such a header. */
  predicate NoFullHeader(text: string)
    decreases |text|
  {
    var e := IndexOf(text, '\n');
    e == |text| || (!FullHeader(text[..e]) && NoFullHeader(text[e + 1..]))
  }

  /** The valid names of a section, repeats included. */
  function ValidLines(lines: seq<string>, cur: string, want: string): seq<string> {
    Filter(IsHostname, SectionLines(lines, cur, want))
  }

  lemma ValidLinesCons(l: string, lines: seq<string>, cur: string, want: string)
    ensures ValidLines([l] + lines, cur, want) ==
            (if !IsHeader(l) && cur == want && IsHostname(l) then [l] else [])
            + ValidLines(lines, NextSection(l, cur), want)
  {
    TailOf(l, lines);
    var m := if !IsHeader(l) && cur == want then [l] else [];
    FilterAppend(IsHostname, m, SectionLines(lines, NextSection(l, cur), want));
    assert Filter(IsHostname, m) == if !IsHeader(l) && cur == want && IsHostname(l) then [l] else [];
  }

  /** A line of exactly 64 characters that is no header says nothing. */
  lemma FullLineSaysNothing(l: string, lines: seq<string>, cur: string, want: string)
    requires |l| == 64 && !FullHeader(l)
    ensures ValidLines([l] + lines, cur, want) == ValidLines(lines, cur, want)
  {
    ValidLinesCons(l, lines, cur, want);
  }

  lemma {:induction false} SameValidLines(text: string, cur: string, want: string)
    requires NUL !in text && '\r' !in text && NoFullHeader(text)
    ensures ValidLines(FileLines(CrLf(text)), cur, want) == ValidLines(FileLines(text), cur, want)
    decreases |text|
  {
    var e := IndexOf(text, '\n');
    if e == |text| {
      CrLfNone(text);
    } else {
      var l, rest := text[..e], text[e + 1..];
      assert text == l + "\n" + rest;
      CrLfFirst(l, rest);
      if |l| > 64 {
        LongLine(l, rest);
        LongLineCr(l, CrLf(rest));
        SameValidLines(rest, cur, want);
      } else if |l| == 64 {
        LfLine(l, rest);
        LongLineCr(l, CrLf(rest));
        FullLineSaysNothing(l, FileLines(rest), cur, want);
        SameValidLines(rest, cur, want);
      } else {
        LfLine(l, rest);
        CrLfLine(l, CrLf(rest));
        SameValidLines(rest, NextSection(l, cur), want);
        ValidLinesCons(l, FileLines(rest), cur, want);
        ValidLinesCons(l, FileLines(CrLf(rest)), cur, want);
      }
    }
  }

  /** Editing the file with CRLF line endings changes no load, unless a header has a name of 62 characters. */
  lemma CrLfFile(text: string, want: string, max: nat)
    requires NUL !in text && '\r' !in text && NoFullHeader(text)
    ensures Load(CrLf(text), want, max) == Load(text, want, max)
  {
    SameValidLines(text, "", want);
  }

  /** The concrete failure: behind such a header with CRLF the names stay in the section before. */
  lemma FullHeaderNeedsLf(l: string)
    requires OneLine(l) && FullHeader(l)
    ensures Load(l + "\n" + "a\n", "", 1) == [] && Load(l + "\r\n" + "a\n", "", 1) == ["a"]
  {
    HeaderHidesTop(l, "a\n");
    LongLineCr(l, "a\n");
    LoadOneName("");
  }

  lemma SameEnding(l: string, rest: string, want: string)
    requires OneLine(l) && !EndsInCr(l) && !FullHeader(l)
    ensures ValidLines(FileLines(l + "\r\n" + rest), "", want) == ValidLines(FileLines(l + "\n" + rest), "", want)
  {
    if |l| > 64 {
      LongLine(l, rest);
      LongLineCr(l, rest);
    } else if |l| == 64 {
      LfLine(l, rest);
      LongLineCr(l, rest);
      FullLineSaysNothing(l, FileLines(rest), "", want);
    } else {
      LfLine(l, rest);
      CrLfLine(l, rest);
    }
  }

  /** For one line: its ending never matters if and only if it is not such a header. */
  lemma CrLfLineExactly(l: string)
    requires OneLine(l) && !EndsInCr(l)
    ensures !FullHeader(l) <==>
            forall rest, want, max: nat :: Load(l + "\r\n" + rest, want, max) == Load(l + "\n" + rest, want, max)
  {
    if FullHeader(l) {
      FullHeaderNeedsLf(l);
    } else {
      forall rest, want, max: nat ensures Load(l + "\r\n" + rest, want, max) == Load(l + "\n" + rest, want, max) {
        SameEnding(l, rest, want);
      }
    }
  }

  // ---- Sections ----

  lemma HeadedSection(name: string, body: seq<string>, cur: string, want: string)
    requires 1 <= |name| <= 63 && forall i :: 0 <= i < |body| ==> !IsHeader(body[i])
    ensures SectionLines(["[" + name + "]"] + body, cur, want) == if want == name then body else []
  {
    var header := "[" + name + "]";
    HeaderExactly(header, name);
    TailOf(header, body);
    NoHeaders(body, name, want);
  }

  /**
   * The lines behind a header `[name]`, up to the next header, belong to the section of that name
   * and to no other; whatever came before is unaffected.
   */
  lemma SectionOf(before: seq<string>, name: string, body: seq<string>, want: string)
    requires 1 <= |name| <= 63 && forall i :: 0 <= i < |body| ==> !IsHeader(body[i])
    ensures SectionLines(before + (["[" + name + "]"] + body), "", want) ==
            SectionLines(before, "", want) + if want == name then body else []
  {
    SectionLinesAppend(before, ["[" + name + "]"] + body, "", want);
    HeadedSection(name, body, LastSection(before, ""), want);
  }

  // ---- What is written ----

  /** The first 16 names of a list. */
  function FirstSixteen(names: seq<string>): seq<string> {
    if |names| <= 16 then names else names[..16]
  }

  ghost predicate DistinctHosts(names: seq<string>) {
    && Distinct(names)
    && forall i :: 0 <= i < |names| ==>
         && 1 <= |names[i]| <= 63
         && forall j :: 0 <= j < |names[i]| ==> names[i][j] in "abcdefghijklmnopqrstuvwxyz0123456789-."
  }

  lemma WrittenIsFirstSixteen(names: seq<string>)
    requires DistinctHosts(names)
    ensures Written(names) == FirstSixteen(names)
  {
    forall i | 0 <= i < |names| ensures IsHostname(names[i]) {
      HostnameExactly(names[i]);
    }
    NamesFixed(names);
  }

  /** Two lists of distinct hosts are written in their order, at most 16 of each, a line each. */
  lemma SavedTextIs(hosts: seq<string>, net: seq<string>)
    requires DistinctHosts(hosts) && DistinctHosts(net)
    ensures SavedText(hosts, net) ==
            Unlines(FirstSixteen(hosts)) + if net == [] then "" else "[net]\n" + Unlines(FirstSixteen(net))
  {
    WrittenIsFirstSixteen(hosts);
    WrittenIsFirstSixteen(net);
  }
}
