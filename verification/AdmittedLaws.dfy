/** What the admitted-hosts format promises: exact round trips, normal form, and damage that stays local. */
module AdmittedLaws {
  import opened Protocol
  import opened Sequences
  import opened Text
  import opened AdmittedFormat

  // ---- Lines that are read back as they are written ----

  predicate PlainLine(l: string) {
    '\n' !in l && NUL !in l && |l| <= HOSTNAME_LEN && StripCr(l) == l
  }

  ghost predicate AllPlain(lines: seq<string>) {
    forall i :: 0 <= i < |lines| ==> PlainLine(lines[i])
  }

  lemma {:induction false} KeptPlainLines(lines: seq<string>, pieces: seq<string>)
    requires AllPlain(lines) && |pieces| >= 1
    ensures KeptLines(lines + pieces) == lines + KeptLines(pieces)
  {
    if lines == [] {
      assert lines + pieces == pieces;
    } else {
      KeptPlainLines(lines[1..], pieces);
      assert PlainLine(lines[0]);
      Regroup(lines, pieces);
      KeptCons(lines[0], lines[1..] + pieces);
      Regroup(lines, KeptLines(pieces));
    }
  }

  lemma PlainFileLines(lines: seq<string>, rest: string)
    requires AllPlain(lines)
    ensures FileLines(Unlines(lines) + rest) == lines + FileLines(rest)
  {
    forall i | 0 <= i < |lines| ensures '\n' !in lines[i] {
      assert PlainLine(lines[i]);
    }
    SplitUnlines(lines, rest);
    KeptPlainLines(lines, Split(rest, '\n'));
  }

  lemma HostnameIsPlain(s: string)
    requires IsHostname(s)
    ensures PlainLine(s)
  {
  }

  /** No valid hostname can be taken for a section header. */
  lemma HostnameIsNotHeader(s: string)
    requires IsHostname(s)
    ensures !IsHeader(s)
  {
    assert HostChar(s[0]);
  }

  // ---- Sections ----

  /** The section that is open after the given lines. */
  function LastSection(lines: seq<string>, cur: string): string {
    if lines == [] then cur
    else LastSection(lines[1..], NextSection(lines[0], cur))
  }

  lemma {:induction false} SectionLinesAppend(a: seq<string>, b: seq<string>, cur: string, want: string)
    ensures SectionLines(a + b, cur, want) ==
            SectionLines(a, cur, want) + SectionLines(b, LastSection(a, cur), want)
  {
    if a == [] {
      assert a + b == b;
    } else {
      assert (a + b)[1..] == a[1..] + b;
      SectionLinesAppend(a[1..], b, NextSection(a[0], cur), want);
    }
  }

  lemma {:induction false} NoHeaders(lines: seq<string>, cur: string, want: string)
    requires forall i :: 0 <= i < |lines| ==> !IsHeader(lines[i])
    ensures SectionLines(lines, cur, want) == if cur == want then lines else []
    ensures LastSection(lines, cur) == cur
  {
    if lines != [] {
      NoHeaders(lines[1..], cur, want);
    }
  }

  function FirstHeader(lines: seq<string>): (i: nat)
    ensures i <= |lines|
    ensures forall j :: 0 <= j < i ==> !IsHeader(lines[j])
    ensures i < |lines| ==> IsHeader(lines[i])
  {
    if lines == [] || IsHeader(lines[0]) then 0 else 1 + FirstHeader(lines[1..])
  }

  lemma {:induction false} NamedSectionNeverReturnsToTop(lines: seq<string>, cur: string)
    requires cur != ""
    ensures SectionLines(lines, cur, "") == []
  {
    if lines != [] {
      NamedSectionNeverReturnsToTop(lines[1..], cur);
      if IsHeader(lines[0]) {
        NamedSectionNeverReturnsToTop(lines[1..], HeaderName(lines[0], HOSTNAME_LEN).value);
      }
    }
  }

  /** The headerless section is exactly what precedes the first header. */
  lemma TopSection(lines: seq<string>)
    ensures SectionLines(lines, "", "") == lines[..FirstHeader(lines)]
  {
    var i := FirstHeader(lines);
    var top, rest := lines[..i], lines[i..];
    assert lines == top + rest;
    SectionLinesAppend(top, rest, "", "");
    NoHeaders(top, "", "");
    if rest != [] {
      NamedSectionNeverReturnsToTop(rest[1..], HeaderName(rest[0], HOSTNAME_LEN).value);
    }
  }

  // ---- Save, then load ----

  lemma NamesAreHostnames(lines: seq<string>)
    ensures forall i :: 0 <= i < |Names(lines)| ==> IsHostname(Names(lines)[i])
    ensures Distinct(Names(lines))
  {
    NamesMembers(lines);
    forall i | 0 <= i < |Names(lines)| ensures IsHostname(Names(lines)[i]) {
      assert Names(lines)[i] in Names(lines);
    }
  }

  /** Names of a list of distinct hostnames are that list. */
  lemma NamesFixed(names: seq<string>)
    requires Distinct(names) && forall i :: 0 <= i < |names| ==> IsHostname(names[i])
    ensures Names(names) == names
  {
    FilterAll(IsHostname, names);
    DedupDistinct(names);
  }

  lemma WrittenFacts(hosts: seq<string>)
    ensures Names(Written(hosts)) == Written(hosts)
    ensures AllPlain(Written(hosts))
    ensures forall i :: 0 <= i < |Written(hosts)| ==> !IsHeader(Written(hosts)[i])
    ensures |Written(hosts)| <= MAX_CLIENTS
  {
    NamesAreHostnames(hosts);
    var w := Written(hosts);
    forall i | 0 <= i < |w| ensures IsHostname(w[i]) && PlainLine(w[i]) && !IsHeader(w[i]) {
      HostnameIsPlain(w[i]);
      HostnameIsNotHeader(w[i]);
    }
    NamesFixed(w);
  }

  lemma SavedLines(hosts: seq<string>, net: seq<string>)
    ensures FileLines(SavedText(hosts, net)) ==
            Written(hosts) + (if |net| > 0 then ["[net]"] + Written(net) else [])
  {
    WrittenFacts(hosts);
    WrittenFacts(net);
    EmptyFile();
    var a, b := Written(hosts), Written(net);
    if |net| > 0 {
      var lines := a + (["[net]"] + b);
      assert AllPlain(lines) by { assert PlainLine("[net]"); }
      PlainFileLines(lines, "");
      UnlinesAppend(a, ["[net]"] + b);
      assert (["[net]"] + b)[1..] == b;
      assert Unlines(["[net]"] + b) == "[net]\n" + Unlines(b);
      assert Unlines(lines) + "" == SavedText(hosts, net);
    } else {
      PlainFileLines(a, "");
      assert Unlines(a) + "" == SavedText(hosts, net);
    }
  }

  lemma NetSection(b: seq<string>, cur: string, want: string)
    requires forall i :: 0 <= i < |b| ==> !IsHeader(b[i])
    ensures SectionLines(["[net]"] + b, cur, want) == if want == NET then b else []
  {
    assert (["[net]"] + b)[1..] == b;
    assert "[net]"[1..4] == NET;
    NoHeaders(b, NET, want);
  }

  lemma SavedSection(hosts: seq<string>, net: seq<string>, want: string)
    ensures SectionLines(FileLines(SavedText(hosts, net)), "", want) ==
            if want == "" then Written(hosts) else if want == NET && |net| > 0 then Written(net) else []
  {
    SavedLines(hosts, net);
    WrittenFacts(hosts);
    WrittenFacts(net);
    var a, b := Written(hosts), Written(net);
    NoHeaders(a, "", want);
    if |net| > 0 {
      var rest := ["[net]"] + b;
      SectionLinesAppend(a, rest, "", want);
      NetSection(b, "", want);
    } else {
      assert a + [] == a;
    }
  }

  /** Save then load is exact: each section returns its own list's names, and neither affects the other. */
  lemma SaveThenLoad(hosts: seq<string>, net: seq<string>, want: string, max: nat)
    ensures Load(SavedText(hosts, net), want, max) ==
            if want == "" then Take(Written(hosts), max)
            else if want == NET then Take(Written(net), max)
            else []
  {
    SavedSection(hosts, net, want);
    WrittenFacts(hosts);
    WrittenFacts(net);
    assert Names([]) == [];
    assert |net| == 0 ==> Written(net) == [];
  }

  // ---- Loading yields a normal form ----

  lemma {:induction false} FilterKeepsOrder(keep: string -> bool, s: seq<string>, x: string, y: string)
    requires x in s && y in s && keep(x) && keep(y)
    requires x in Filter(keep, s) && y in Filter(keep, s)
    requires FirstIndex(Filter(keep, s), x) < FirstIndex(Filter(keep, s), y)
    ensures FirstIndex(s, x) < FirstIndex(s, y)
  {
    if s[0] != x && s[0] != y {
      if keep(s[0]) {
        assert Filter(keep, s)[1..] == Filter(keep, s[1..]);
      }
      FilterKeepsOrder(keep, s[1..], x, y);
    }
  }

  /**
   * Whatever the file, a load returns at most `max` distinct hostnames of the wanted section in
   * order of first appearance, and misses one only when it is full.
   */
  lemma LoadIsNormalForm(text: string, want: string, max: nat)
    ensures var names, lines := Load(text, want, max), SectionLines(FileLines(text), "", want);
            && |names| <= max && Distinct(names)
            && (forall i :: 0 <= i < |names| ==> IsHostname(names[i]) && names[i] in lines)
            && (forall i, j :: 0 <= i < j < |names| ==>
                  names[i] in lines && names[j] in lines &&
                  FirstIndex(lines, names[i]) < FirstIndex(lines, names[j]))
            && (|names| < max ==> forall l :: l in lines && IsHostname(l) ==> l in names)
  {
    var lines := SectionLines(FileLines(text), "", want);
    var f := Filter(IsHostname, lines);
    DedupIsFirstOccurrences(f);
    NamesMembers(lines);
    var names := Load(text, want, max);
    forall i, j | 0 <= i < j < |names|
      ensures names[i] in lines && names[j] in lines
      ensures FirstIndex(lines, names[i]) < FirstIndex(lines, names[j])
    {
      assert names[i] in Dedup(f) && names[j] in Dedup(f);
      FilterMembers(IsHostname, lines, names[i]);
      FilterMembers(IsHostname, lines, names[j]);
      FilterKeepsOrder(IsHostname, lines, names[i], names[j]);
    }
  }

  lemma LoadIsWritten(text: string, want: string)
    ensures var names := Load(text, want, MAX_CLIENTS); Written(names) == names
  {
    var names := Load(text, want, MAX_CLIENTS);
    NamesAreHostnames(SectionLines(FileLines(text), "", want));
    NamesFixed(names);
  }

  /** Saving what both loads of any file return, then loading and saving again, reproduces the same bytes. */
  lemma ResaveIsStable(text: string)
    ensures var hosts, net := Load(text, "", MAX_CLIENTS), Load(text, NET, MAX_CLIENTS);
            var saved := SavedText(hosts, net);
            && Load(saved, "", MAX_CLIENTS) == hosts
            && Load(saved, NET, MAX_CLIENTS) == net
            && SavedText(Load(saved, "", MAX_CLIENTS), Load(saved, NET, MAX_CLIENTS)) == saved
  {
    var hosts, net := Load(text, "", MAX_CLIENTS), Load(text, NET, MAX_CLIENTS);
    LoadIsWritten(text, "");
    LoadIsWritten(text, NET);
    SaveThenLoad(hosts, net, "", MAX_CLIENTS);
    SaveThenLoad(hosts, net, NET, MAX_CLIENTS);
  }

  // ---- Damage stays local ----

  /**
   * The reader is at the start of a line after the given whole lines: no short line with a NUL
   * in it is left to swallow what follows.
   */
  predicate Aligned(lines: seq<string>) {
    if lines == [] then true
    else if |lines[0]| <= HOSTNAME_LEN && NUL in lines[0] then |lines| > 1 && Aligned(lines[2..])
    else Aligned(lines[1..])
  }

  lemma RegroupTwo(lines: seq<string>, pieces: seq<string>)
    requires |lines| > 1
    ensures lines + pieces == [lines[0]] + ([lines[1]] + (lines[2..] + pieces))
  {
    Regroup(lines, pieces);
    Regroup(lines[1..], pieces);
    assert lines[1..][1..] == lines[2..];
  }

  /** A short line with a NUL byte takes the line after it with it. */
  lemma NulLineTakesNext(lines: seq<string>, pieces: seq<string>)
    requires |lines| > 1 && |lines[0]| <= HOSTNAME_LEN && NUL in lines[0] && |pieces| >= 1
    ensures KeptLines(lines + pieces) == KeptLines(lines[2..] + pieces)
  {
    var rest := lines[2..] + pieces;
    RegroupTwo(lines, pieces);
    KeptCons(lines[0], [lines[1]] + rest);
    TailOf(lines[1], rest);
  }

  /** Any other line is kept or dropped on its own. */
  lemma CleanLineKept(lines: seq<string>, pieces: seq<string>)
    requires lines != [] && (|lines[0]| > HOSTNAME_LEN || NUL !in lines[0]) && |pieces| >= 1
    ensures KeptLines(lines + pieces) ==
            (if |lines[0]| > HOSTNAME_LEN then [] else [StripCr(lines[0])]) + KeptLines(lines[1..] + pieces)
  {
    Regroup(lines, pieces);
    KeptCons(lines[0], lines[1..] + pieces);
  }

  lemma {:induction false} KeptAppend(lines: seq<string>, pieces: seq<string>)
    requires Aligned(lines) && |pieces| >= 1
    ensures KeptLines(lines + pieces) == KeptLines(lines + [""]) + KeptLines(pieces)
  {
    if lines == [] {
      assert lines + pieces == pieces && lines + [""] == [""];
    } else if |lines[0]| <= HOSTNAME_LEN && NUL in lines[0] {
      NulLineTakesNext(lines, pieces);
      NulLineTakesNext(lines, [""]);
      KeptAppend(lines[2..], pieces);
    } else {
      CleanLineKept(lines, pieces);
      CleanLineKept(lines, [""]);
      KeptAppend(lines[1..], pieces);
    }
  }

  lemma FileLinesAfter(lines: seq<string>, rest: string)
    requires Aligned(lines) && NoneContains(lines, '\n')
    ensures FileLines(Unlines(lines) + rest) == KeptLines(lines + [""]) + FileLines(rest)
  {
    SplitUnlines(lines, rest);
    KeptAppend(lines, Split(rest, '\n'));
  }

  /** A line that can be inserted anywhere without changing what is loaded. */
  predicate Harmless(l: string) {
    || |l| > HOSTNAME_LEN
    || (NUL !in l && !IsHeader(StripCr(l)) && !IsHostname(StripCr(l)))
  }

  /** Inserting line `l` after whole lines `before` and in front of `rest` changes no load. */
  ghost predicate SameLoad(before: seq<string>, l: string, rest: string, want: string, max: nat) {
    Load(Unlines(before) + (l + ['\n'] + rest), want, max) == Load(Unlines(before) + rest, want, max)
  }

  lemma IgnoredLine(a: seq<string>, x: string, b: seq<string>, want: string)
    requires !IsHeader(x) && !IsHostname(x)
    ensures Names(SectionLines(a + ([x] + b), "", want)) == Names(SectionLines(a + b, "", want))
  {
    var cur := LastSection(a, "");
    var p, q := SectionLines(a, "", want), SectionLines(b, cur, want);
    SectionLinesAppend(a, b, "", want);
    SectionLinesAppend(a, [x] + b, "", want);
    assert ([x] + b)[1..] == b;
    var m := if cur == want then [x] else [];
    assert SectionLines([x] + b, cur, want) == m + q;
    assert Filter(IsHostname, m) == [];
    FilterAppend(IsHostname, p, q);
    FilterAppend(IsHostname, p, m + q);
    FilterAppend(IsHostname, m, q);
    assert [] + Filter(IsHostname, q) == Filter(IsHostname, q);
  }

  /** An over-long line is dropped whole: nothing of it is read as a line or as a header. */
  lemma OverLongLine(l: string, rest: string)
    requires '\n' !in l && |l| > HOSTNAME_LEN
    ensures FileLines(l + ['\n'] + rest) == FileLines(rest)
  {
    SplitCons(l, '\n', rest);
    KeptCons(l, Split(rest, '\n'));
  }

  lemma FirstCleanLine(l: string, rest: string)
    requires '\n' !in l && NUL !in l && |l| <= HOSTNAME_LEN
    ensures FileLines(l + ['\n'] + rest) == [StripCr(l)] + FileLines(rest)
  {
    SplitCons(l, '\n', rest);
    KeptCons(l, Split(rest, '\n'));
  }

  lemma HarmlessInsertion(before: seq<string>, l: string, rest: string, want: string, max: nat)
    requires Aligned(before) && NoneContains(before, '\n')
    requires '\n' !in l && Harmless(l)
    ensures SameLoad(before, l, rest, want, max)
  {
    var a, b := KeptLines(before + [""]), FileLines(rest);
    FileLinesAfter(before, rest);
    FileLinesAfter(before, l + ['\n'] + rest);
    if |l| > HOSTNAME_LEN {
      OverLongLine(l, rest);
    } else {
      FirstCleanLine(l, rest);
      IgnoredLine(a, StripCr(l), b, want);
    }
  }

  lemma HeaderHidesTop(l: string, rest: string)
    requires '\n' !in l && NUL !in l && |l| <= HOSTNAME_LEN && IsHeader(StripCr(l))
    ensures Load(l + ['\n'] + rest, "", 1) == []
  {
    FirstCleanLine(l, rest);
    TopSection([StripCr(l)] + FileLines(rest));
  }

  lemma NameIsLoaded(l: string)
    requires '\n' !in l && NUL !in l && |l| <= HOSTNAME_LEN
    requires !IsHeader(StripCr(l)) && IsHostname(StripCr(l))
    ensures Load(l + ['\n'] + "", "", 1) == [StripCr(l)]
  {
    FirstCleanLine(l, "");
    EmptyFile();
    NoHeaders([StripCr(l)], "", "");
    NamesFixed([StripCr(l)]);
  }

  lemma LoadOneName(want: string)
    ensures Load("a\n", want, 1) == if want == "" then ["a"] else []
  {
    assert Unlines(["a"]) + "" == "a\n";
    EmptyFile();
    PlainFileLines(["a"], "");
    assert !IsHeader("a") && IsHostname("a");
    NoHeaders(["a"], "", want);
    NamesFixed(["a"]);
    assert Names([]) == [];
  }

  /** A short line with a NUL hides its newline: it is dropped and so is the whole line after it. */
  lemma NulSwallowsNextLine(l: string, next: string, rest: string)
    requires '\n' !in l && '\n' !in next && NUL in l && |l| <= HOSTNAME_LEN
    ensures FileLines(l + ['\n'] + next + ['\n'] + rest) == FileLines(rest)
  {
    var tail := next + ['\n'] + rest;
    assert l + ['\n'] + next + ['\n'] + rest == l + ['\n'] + tail;
    SplitCons(l, '\n', tail);
    SplitCons(next, '\n', rest);
    KeptCons(l, Split(tail, '\n'));
  }

  lemma NulHidesName(l: string)
    requires '\n' !in l && NUL in l && |l| <= HOSTNAME_LEN
    ensures Load(l + ['\n'] + "a\n", "", 1) == []
  {
    assert l + ['\n'] + "a\n" == l + ['\n'] + "a" + ['\n'] + "";
    NulSwallowsNextLine(l, "a", "");
    EmptyFile();
  }

  /** The three ways to do harm: swallow the next line, open a section, add a name. */
  lemma HarmfulLine(l: string)
    requires '\n' !in l && !Harmless(l)
    ensures !SameLoad([], l, "a\n", "", 1) || !SameLoad([], l, "", "", 1)
  {
    var text := l + ['\n'] + "a\n";
    assert Unlines([]) + text == text && Unlines([]) + "a\n" == "a\n";
    assert Load("a\n", "", 1) == ["a"] by { LoadOneName(""); }
    if NUL in l {
      assert Load(text, "", 1) == [] by { NulHidesName(l); }
    } else if IsHeader(StripCr(l)) {
      assert Load(text, "", 1) == [] by { HeaderHidesTop(l, "a\n"); }
    } else {
      var t := l + ['\n'] + "";
      assert Unlines([]) + t == t && Unlines([]) + "" == "";
      assert Load(t, "", 1) == [StripCr(l)] by { NameIsLoaded(l); }
      assert Load("", "", 1) == [] by { EmptyFile(); }
    }
  }

  /**
   * A newline-free line, inserted where a line starts, leaves every load unchanged exactly when it is over-long, or
   * has no NUL byte and is neither a header nor a hostname. In particular a short line with a NUL
   * is not harmless: it takes the line after it down with it.
   */
  lemma HarmlessExactly(l: string)
    requires '\n' !in l
    ensures Harmless(l) <==>
            forall before, rest, want, max: nat ::
              Aligned(before) && NoneContains(before, '\n') ==> SameLoad(before, l, rest, want, max)
  {
    if Harmless(l) {
      forall before, rest, want, max: nat | Aligned(before) && NoneContains(before, '\n')
        ensures SameLoad(before, l, rest, want, max)
      {
        HarmlessInsertion(before, l, rest, want, max);
      }
    } else {
      HarmfulLine(l);
      assert Aligned([]) && NoneContains([], '\n');
    }
  }

  /** Lines without a NUL byte leave the reader at the start of a line. */
  lemma {:induction false} NulFreeLinesAligned(lines: seq<string>)
    requires NoneContains(lines, NUL)
    ensures Aligned(lines)
  {
    if lines != [] {
      NulFreeLinesAligned(lines[1..]);
    }
  }

  // ---- Behind a line whose NUL byte hides its newline ----

  lemma {:induction false} KeptAfterOpen(lines: seq<string>, pieces: seq<string>)
    requires !Aligned(lines) && |pieces| >= 1
    ensures KeptLines(lines + pieces) ==
            KeptLines(lines + [""]) + if |pieces| == 1 then [] else KeptLines(pieces[1..])
  {
    if |lines[0]| <= HOSTNAME_LEN && NUL in lines[0] {
      if |lines| == 1 {
        KeptCons(lines[0], pieces);
        KeptCons(lines[0], [""]);
        assert lines == [lines[0]];
      } else {
        NulLineTakesNext(lines, pieces);
        NulLineTakesNext(lines, [""]);
        KeptAfterOpen(lines[2..], pieces);
      }
    } else {
      CleanLineKept(lines, pieces);
      CleanLineKept(lines, [""]);
      KeptAfterOpen(lines[1..], pieces);
    }
  }

  /** Whatever line comes next is dropped. */
  lemma LineAfterOpen(before: seq<string>, l: string, rest: string)
    requires !Aligned(before) && NoneContains(before, '\n') && '\n' !in l
    ensures FileLines(Unlines(before) + (l + ['\n'] + rest)) == KeptLines(before + [""]) + FileLines(rest)
  {
    SplitUnlines(before, l + ['\n'] + rest);
    SplitCons(l, '\n', rest);
    KeptAfterOpen(before, Split(l + ['\n'] + rest, '\n'));
    TailOf(l, Split(rest, '\n'));
  }

  lemma OneMoreName(a: seq<string>, x: string)
    requires IsHostname(x) && x !in Names(SectionLines(a, "", LastSection(a, "")))
    ensures var cur := LastSection(a, "");
            Names(SectionLines(a + [x], "", cur)) == Names(SectionLines(a, "", cur)) + [x]
  {
    var cur := LastSection(a, "");
    SectionLinesAppend(a, [x], "", cur);
    HostnameIsNotHeader(x);
    assert SectionLines([x], cur, cur) == [x];
    NamesSnoc(SectionLines(a, "", cur), x);
  }

  lemma NameAtEnd(x: string)
    requires IsHostname(x)
    ensures FileLines(x + ['\n']) == [x]
  {
    HostnameIsPlain(x);
    EmptyFile();
    assert x + ['\n'] == x + ['\n'] + "";
    FirstCleanLine(x, "");
  }

  lemma OpenLines(before: seq<string>, l: string, x: string)
    requires !Aligned(before) && NoneContains(before, '\n') && '\n' !in l && IsHostname(x)
    ensures var a := KeptLines(before + [""]);
            && FileLines(Unlines(before) + (l + ['\n'] + (x + ['\n']))) == a + [x]
            && FileLines(Unlines(before) + (x + ['\n'])) == a
  {
    NameAtEnd(x);
    LineAfterOpen(before, l, x + ['\n']);
    HostnameIsPlain(x);
    LineAfterOpen(before, x, "");
    assert x + ['\n'] == x + ['\n'] + "";
    EmptyFile();
    assert KeptLines(before + [""]) + [] == KeptLines(before + [""]);
  }

  lemma InsertionAfterOpen(before: seq<string>, l: string, x: string)
    requires !Aligned(before) && NoneContains(before, '\n') && '\n' !in l && IsHostname(x)
    requires var a := KeptLines(before + [""]); x !in Names(SectionLines(a, "", LastSection(a, "")))
    ensures var a := KeptLines(before + [""]);
            var cur := LastSection(a, "");
            !SameLoad(before, l, x + ['\n'], cur, |Names(SectionLines(a, "", cur))| + 1)
  {
    var a := KeptLines(before + [""]);
    var names := Names(SectionLines(a, "", LastSection(a, "")));
    OpenLines(before, l, x);
    OneMoreName(a, x);
    assert Take(names + [x], |names| + 1) == names + [x];
  }

  /**
   * Being at the start of a line is exactly what an insertion point needs: after any other whole lines,
   * as long as one more name `x` is possible, there are harmless lines that do change a load.
   */
  lemma AlignedExactly(before: seq<string>, x: string)
    requires NoneContains(before, '\n') && IsHostname(x)
    requires var a := KeptLines(before + [""]); x !in Names(SectionLines(a, "", LastSection(a, "")))
    ensures Aligned(before) <==>
            forall l, rest, want, max: nat :: '\n' !in l && Harmless(l) ==> SameLoad(before, l, rest, want, max)
  {
    if Aligned(before) {
      forall l, rest, want, max: nat | '\n' !in l && Harmless(l) ensures SameLoad(before, l, rest, want, max) {
        HarmlessInsertion(before, l, rest, want, max);
      }
    } else {
      InsertionAfterOpen(before, "", x);
      assert Harmless("");
    }
  }

  // ---- The unterminated last line ----

  lemma LastLine(before: seq<string>, l: string)
    requires Aligned(before) && NoneContains(before, '\n') && '\n' !in l
    ensures FileLines(Unlines(before) + l) ==
            KeptLines(before + [""]) + if l == "" || |l| > HOSTNAME_LEN then [] else [StripCr(CStr(l))]
  {
    FileLinesAfter(before, l);
    SplitNone(l, '\n');
  }

  /** A last line without a newline that changes no load: one that is dropped, or not a hostname when cut at its NUL. */
  predicate HarmlessTail(l: string) {
    l == "" || |l| > HOSTNAME_LEN || !IsHostname(StripCr(CStr(l)))
  }

  /** Appending `l` to whole lines changes no load. */
  ghost predicate SameLoadAtEnd(before: seq<string>, l: string, want: string, max: nat) {
    Load(Unlines(before) + l, want, max) == Load(Unlines(before), want, max)
  }

  lemma IgnoredLast(a: seq<string>, x: string, want: string)
    requires !IsHostname(x)
    ensures Names(SectionLines(a + [x], "", want)) == Names(SectionLines(a, "", want))
  {
    var cur, s := LastSection(a, ""), SectionLines(a, "", want);
    SectionLinesAppend(a, [x], "", want);
    assert SectionLines([x], cur, want) == if !IsHeader(x) && cur == want then [x] else [];
    NamesSnoc(s, x);
    assert s + [] == s;
  }

  lemma HarmlessEnd(before: seq<string>, l: string, want: string, max: nat)
    requires Aligned(before) && NoneContains(before, '\n') && '\n' !in l && HarmlessTail(l)
    ensures SameLoadAtEnd(before, l, want, max)
  {
    var a := KeptLines(before + [""]);
    LastLine(before, l);
    LastLine(before, "");
    assert Unlines(before) + "" == Unlines(before) && a + [] == a;
    if l != "" && |l| <= HOSTNAME_LEN {
      IgnoredLast(a, StripCr(CStr(l)), want);
    }
  }

  /** A whole file that is one unterminated line with a hostname in front of its NUL, if it has one. */
  lemma TailIsLoaded(l: string)
    requires '\n' !in l && !HarmlessTail(l)
    ensures Load(l, "", 1) == [StripCr(CStr(l))]
  {
    var x := StripCr(CStr(l));
    assert Unlines([]) + l == l && Aligned([]);
    LastLine([], l);
    assert KeptLines([] + [""]) == [];
    HostnameIsNotHeader(x);
    NoHeaders([x], "", "");
    NamesFixed([x]);
  }

  /**
   * An unterminated last line, mangled or not, leaves every load unchanged exactly when it is empty,
   * over-long, or no hostname when cut at its first NUL: here a mangled line is cut, not skipped.
   */
  lemma HarmlessTailExactly(l: string)
    requires '\n' !in l
    ensures HarmlessTail(l) <==>
            forall before, want, max: nat ::
              Aligned(before) && NoneContains(before, '\n') ==> SameLoadAtEnd(before, l, want, max)
  {
    if HarmlessTail(l) {
      forall before, want, max: nat | Aligned(before) && NoneContains(before, '\n')
        ensures SameLoadAtEnd(before, l, want, max)
      {
        HarmlessEnd(before, l, want, max);
      }
    } else {
      TailIsLoaded(l);
      EmptyFile();
      assert Unlines([]) + l == l;
      assert !SameLoadAtEnd([], l, "", 1) && Aligned([]) && NoneContains([], '\n');
    }
  }

  /** The concrete failure: a NUL byte in the last line turns it into another host. */
  lemma MangledTailIsRead()
    ensures NUL in "kai\0x" && Load("kai\0x", "", 1) == ["kai"]
  {
    var l := "kai\0x";
    assert l[3] == NUL;
    StrLenIs(l, 3);
    assert CStr(l) == "kai";
    TailIsLoaded(l);
  }

  // ---- The documented rule ----

  predicate ShortLine(l: string) {
    |l| <= HOSTNAME_LEN
  }

  function StripAll(lines: seq<string>): seq<string> {
    if lines == [] then [] else [StripCr(lines[0])] + StripAll(lines[1..])
  }

  /** Every line on its own: drop the over-long ones, strip line endings, keep the rest. */
  function DocumentedLines(text: string): seq<string> {
    StripAll(Filter(ShortLine, Split(text, '\n')))
  }

  lemma {:induction false} KeptPlain(pieces: seq<string>)
    requires |pieces| >= 1 && NoneContains(pieces, NUL)
    ensures var d := StripAll(Filter(ShortLine, pieces));
            d == KeptLines(pieces) || d == KeptLines(pieces) + [""]
  {
    if |pieces| == 1 {
      if ShortLine(pieces[0]) {
        StrLenIs(pieces[0], |pieces[0]|);
        assert CStr(pieces[0]) == pieces[0];
      }
      assert pieces[1..] == [];
    } else {
      KeptPlain(pieces[1..]);
      assert NUL !in pieces[0];
    }
  }

  /** For NUL-free files the reader follows the documented line-by-line rule. */
  lemma NulFreeFile(text: string, want: string, max: nat)
    requires NUL !in text
    ensures Load(text, want, max) == Take(Names(SectionLines(DocumentedLines(text), "", want)), max)
  {
    SplitKeepsOut(text, '\n', NUL);
    KeptPlain(Split(text, '\n'));
    var kept := FileLines(text);
    IgnoredLine(kept, "", [], want);
    assert kept + ([""] + []) == kept + [""] && kept + [] == kept;
  }
}
