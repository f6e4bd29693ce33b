/** The fortune widget: which font a text fits in, and whose text is on display. */
module Fortune {
  import opened Sequences
  import opened Text

  // ---- Fitting a text ----

  datatype Rung = Rung(pt: int, maxChars: nat, maxLines: nat)

  const LADDER: seq<Rung> := [Rung(36, 45, 5), Rung(28, 60, 7), Rung(24, 75, 9), Rung(20, 90, 11)]

  function Lines(text: string): seq<string> {
    Split(text, '\n')
  }

  /** No line is too long and there are not too many. */
  ghost predicate Fits(text: string, r: Rung) {
    && |Lines(text)| <= r.maxLines
    && forall i :: 0 <= i < |Lines(text)| ==> |Lines(text)[i]| <= r.maxChars
  }

  /** `r` is the size for `text`: the first rung it fits, or -1. */
  ghost predicate IsFont(text: string, r: int) {
    if text == "" then r == -1
    else if r == -1 then forall i :: 0 <= i < |LADDER| ==> !Fits(text, LADDER[i])
    else exists i :: 0 <= i < |LADDER| && LADDER[i].pt == r && Fits(text, LADDER[i]) &&
                     forall j :: 0 <= j < i ==> !Fits(text, LADDER[j])
  }

  function Longest(lines: seq<string>): (n: nat)
    ensures forall i :: 0 <= i < |lines| ==> |lines[i]| <= n
    ensures n > 0 ==> exists i :: 0 <= i < |lines| && |lines[i]| == n
  {
    if lines == [] then 0
    else
      var n, l := Longest(lines[..|lines| - 1]), lines[|lines| - 1];
      if |l| > n then |l| else n
  }

  lemma FitsByLongest(text: string, r: Rung)
    ensures Fits(text, r) <==> |Lines(text)| <= r.maxLines && Longest(Lines(text)) <= r.maxChars
  {
  }

  lemma LinesSnoc(s: string, c: char)
    ensures var p := Lines(s);
            Lines(s + [c]) == if c == '\n' then p + [""] else p[..|p| - 1] + [p[|p| - 1] + [c]]
  {
    if c == '\n' {
      SplitAt(s, '\n', "");
      SplitNone("", '\n');
      assert s + [c] + "" == s + [c];
    } else {
      SplitSnoc(s, c, '\n');
    }
  }

  lemma LongestOfAll(lines: seq<string>)
    requires lines != []
    ensures var n, l := Longest(lines[..|lines| - 1]), lines[|lines| - 1];
            Longest(lines) == if |l| > n then |l| else n
  {
  }

  /** The scan's counters after `s`: lines so far, length of the open one, longest of those before it. */
  ghost predicate Counted(s: string, total: nat, last: nat, longest: nat) {
    var ls := Lines(s);
    total == |ls| && last == |ls[|ls| - 1]| && longest == Longest(ls[..|ls| - 1])
  }

  lemma CountedNone()
    ensures Counted("", 1, 0, 0)
  {
    SplitNone("", '\n');
  }

  lemma CountedNewline(s: string, total: nat, last: nat, longest: nat)
    requires Counted(s, total, last, longest)
    ensures Counted(s + ['\n'], total + 1, 0, if last > longest then last else longest)
  {
    LinesSnoc(s, '\n');
    LongestOfAll(Lines(s));
    assert (Lines(s) + [""])[..|Lines(s)|] == Lines(s);
  }

  lemma CountedCharacter(s: string, c: char, total: nat, last: nat, longest: nat)
    requires Counted(s, total, last, longest) && c != '\n'
    ensures Counted(s + [c], total, last + 1, longest)
  {
    LinesSnoc(s, c);
    var ls := Lines(s);
    assert (ls[..|ls| - 1] + [ls[|ls| - 1] + [c]])[..|ls| - 1] == ls[..|ls| - 1];
  }

  /** The scan of one rung: line count and longest line in a single pass. */
  method Measure(text: string) returns (totalLines: nat, maxObserved: nat)
    ensures totalLines == |Lines(text)| && maxObserved == Longest(Lines(text))
  {
    totalLines, maxObserved := 1, 0;
    var curLineLen := 0;
    CountedNone();
    assert text[..0] == "";
    for k := 0 to |text|
      invariant Counted(text[..k], totalLines, curLineLen, maxObserved)
    {
      assert text[..k + 1] == text[..k] + [text[k]];
      if text[k] == '\n' {
        CountedNewline(text[..k], totalLines, curLineLen, maxObserved);
        if curLineLen > maxObserved {
          maxObserved := curLineLen;
        }
        curLineLen := 0;
        totalLines := totalLines + 1;
      } else {
        CountedCharacter(text[..k], text[k], totalLines, curLineLen, maxObserved);
        curLineLen := curLineLen + 1;
      }
    }
    assert text[..|text|] == text;
    LongestOfAll(Lines(text));
    if curLineLen > maxObserved {
      maxObserved := curLineLen;
    }
  }

  method PickFont(text: Option<string>) returns (pt: int)
    ensures IsFont(if text.Some? then text.value else "", pt)
  {
    if text.None? || text.value == "" {
      return -1;
    }
    for fi := 0 to |LADDER|
      invariant forall j :: 0 <= j < fi ==> !Fits(text.value, LADDER[j])
    {
      var totalLines, maxObserved := Measure(text.value);
      FitsByLongest(text.value, LADDER[fi]);
      if maxObserved <= LADDER[fi].maxChars && totalLines <= LADDER[fi].maxLines {
        return LADDER[fi].pt;
      }
    }
    return -1;
  }

  // ---- What the choice means ----

  lemma LadderOrder(i: nat, j: nat)
    requires i <= j < |LADDER|
    ensures LADDER[j].pt <= LADDER[i].pt
    ensures i < j ==> LADDER[j].pt < LADDER[i].pt
    ensures LADDER[i].maxChars <= LADDER[j].maxChars && LADDER[i].maxLines <= LADDER[j].maxLines
    ensures LADDER[i].pt > 0
  {
  }

  /** A text that fits a size fits every smaller one. */
  lemma FitsSmaller(text: string, i: nat, j: nat)
    requires i <= j < |LADDER| && Fits(text, LADDER[i])
    ensures Fits(text, LADDER[j])
  {
    LadderOrder(i, j);
  }

  /** The chosen size is the largest that fits, and a text is rejected exactly when it does not fit 20 points. */
  lemma LargestFit(text: string, r: int)
    requires text != "" && IsFont(text, r)
    ensures forall i :: 0 <= i < |LADDER| ==> (Fits(text, LADDER[i]) <==> LADDER[i].pt <= r)
    ensures r == -1 <==> |Lines(text)| > 11 || exists i :: 0 <= i < |Lines(text)| && |Lines(text)[i]| > 90
  {
    var last := |LADDER| - 1;
    assert LADDER[last] == Rung(20, 90, 11);
    forall i | 0 <= i < |LADDER| ensures Fits(text, LADDER[i]) <==> LADDER[i].pt <= r {
      LadderOrder(i, last);
      if r != -1 {
        var c :| 0 <= c < |LADDER| && LADDER[c].pt == r && Fits(text, LADDER[c]) &&
                 forall j :: 0 <= j < c ==> !Fits(text, LADDER[j]);
        if c <= i {
          FitsSmaller(text, c, i);
          LadderOrder(c, i);
        } else {
          LadderOrder(i, c);
        }
      }
    }
  }

  /** A text has one size. */
  lemma FontIsOne(text: string, r: int, r': int)
    requires IsFont(text, r) && IsFont(text, r')
    ensures r == r'
  {
    if text != "" && r != -1 && r' != -1 {
      var i :| 0 <= i < |LADDER| && LADDER[i].pt == r && Fits(text, LADDER[i]) &&
               forall j :: 0 <= j < i ==> !Fits(text, LADDER[j]);
      var k :| 0 <= k < |LADDER| && LADDER[k].pt == r' && Fits(text, LADDER[k]) &&
               forall j :: 0 <= j < k ==> !Fits(text, LADDER[j]);
      assert i == k;
    }
  }

  ghost predicate AllAtMost(lines: seq<string>, n: nat) {
    forall i :: 0 <= i < |lines| ==> |lines[i]| <= n
  }

  /** The size for a text, in numbers: by how many lines it has and how long they are. */
  ghost function SizeFor(text: string): int {
    var lines := Split(text, '\n');
    if text == "" then -1
    else if |lines| <= 5 && AllAtMost(lines, 45) then 36
    else if |lines| <= 7 && AllAtMost(lines, 60) then 28
    else if |lines| <= 9 && AllAtMost(lines, 75) then 24
    else if |lines| <= 11 && AllAtMost(lines, 90) then 20
    else -1
  }

  lemma RungsAre(text: string)
    ensures var lines := Split(text, '\n');
            && (Fits(text, LADDER[0]) <==> |lines| <= 5 && AllAtMost(lines, 45))
            && (Fits(text, LADDER[1]) <==> |lines| <= 7 && AllAtMost(lines, 60))
            && (Fits(text, LADDER[2]) <==> |lines| <= 9 && AllAtMost(lines, 75))
            && (Fits(text, LADDER[3]) <==> |lines| <= 11 && AllAtMost(lines, 90))
  {
  }

  lemma SizeIsFont(text: string)
    ensures IsFont(text, SizeFor(text))
  {
    RungsAre(text);
    assert LADDER[0].pt == 36 && LADDER[1].pt == 28 && LADDER[2].pt == 24 && LADDER[3].pt == 20;
  }

  /** That is the size chosen, and no other. */
  lemma SizeExactly(text: string, r: int)
    ensures IsFont(text, r) <==> r == SizeFor(text)
  {
    SizeIsFont(text);
    if IsFont(text, r) {
      FontIsOne(text, r, SizeFor(text));
    }
  }

  /** There are no more lines in `p` than in `q`, and none is longer than its counterpart. */
  ghost predicate Within(p: seq<string>, q: seq<string>) {
    |p| <= |q| && forall i :: 0 <= i < |p| ==> |p[i]| <= |q[i]|
  }

  lemma OneMoreCharacter(s: string, c: char)
    ensures Within(Lines(s), Lines(s + [c]))
  {
    LinesSnoc(s, c);
  }

  lemma WithinTransitive(p: seq<string>, q: seq<string>, r: seq<string>)
    requires Within(p, q) && Within(q, r)
    ensures Within(p, r)
  {
  }

  /** Cutting a text short never adds lines nor lengthens one. */
  lemma {:induction false} PrefixShrinks(text: string, n: nat)
    requires n <= |text|
    ensures Within(Lines(text[..n]), Lines(text))
    decreases |text| - n
  {
    if n == |text| {
      assert text[..n] == text;
    } else {
      PrefixShrinks(text, n + 1);
      assert text[..n + 1] == text[..n] + [text[n]];
      OneMoreCharacter(text[..n], text[n]);
      WithinTransitive(Lines(text[..n]), Lines(text[..n + 1]), Lines(text));
    }
  }

  /** Every nonempty prefix of an accepted text is accepted, at the same size or a larger one. */
  lemma PrefixFits(text: string, n: nat, r: int, r': int)
    requires 0 < n <= |text| && IsFont(text, r) && r != -1 && IsFont(text[..n], r')
    ensures r' >= r
  {
    LargestFit(text, r);
    LargestFit(text[..n], r');
    PrefixShrinks(text, n);
    var c :| 0 <= c < |LADDER| && LADDER[c].pt == r && Fits(text, LADDER[c]);
    assert Fits(text[..n], LADDER[c]);
  }

  // ---- What is on display ----

  const MAX_RETRIES: nat := 10
  const BUFFER: nat := 1024

  const CANNED: seq<string> := [
    "Fortune not found. Please shake device vigorously and try again.",
    "Today's fortune is on strike. It demands better working conditions and fewer cows.",
    "Segmentation fault: fortune tried to divide by zen.",
    "No fortune today. The universe is buffering.",
    "Your fortune wandered off. It left a note: 'BRB, consulting the Oracle.'",
    "404: Wisdom not found. Try enlightenment.exe?"
  ]

  predicate IsNewline(c: char) {
    c == '\n' || c == '\r'
  }

  /** `s` without the newlines at its end. */
  function Stripped(s: string): (t: string)
    ensures t <= s && (t != "" ==> !IsNewline(t[|t| - 1]))
    ensures forall i :: |t| <= i < |s| ==> IsNewline(s[i])
  {
    if s != "" && IsNewline(s[|s| - 1]) then Stripped(s[..|s| - 1]) else s
  }

  method StripNewlines(s: string) returns (t: string)
    ensures t == Stripped(s)
  {
    var n := |s|;
    while n > 0 && IsNewline(s[n - 1])
      invariant 0 <= n <= |s| && Stripped(s) == Stripped(s[..n])
    {
      assert s[..n][..n - 1] == s[..n - 1];
      n := n - 1;
    }
    t := s[..n];
  }

  /** The text taken from a run of the program: a bufferful, up to its first NUL, without trailing newlines. */
  function Taken(output: string): string {
    Stripped(CStr(Take(output, BUFFER - 1)))
  }

  /**
   * What happens when the widget looks for a local fortune: whether the program is there, what
   * each run of it would print (None when it cannot be started), and the clock.
   */
  datatype Local = Local(binary: bool, runs: nat -> Option<string>, clock: nat)

  ghost predicate Rejected(runs: nat -> Option<string>, k: nat) {
    runs(k).Some? && IsFont(Taken(runs(k).value), -1)
  }

  ghost predicate Accepted(runs: nat -> Option<string>, k: nat) {
    runs(k).Some? && !IsFont(Taken(runs(k).value), -1)
  }

  datatype Display = Display(text: string, pt: int, rejects: nat)

  ghost predicate RejectedUpTo(runs: nat -> Option<string>, k: nat) {
    forall j: nat :: j < k ==> Rejected(runs, j)
  }

  /** Run `k` is the first that is accepted, and it is shown. */
  ghost predicate ShowsRun(available: bool, local: Local, d: Display, k: nat) {
    && k < MAX_RETRIES && available && local.binary
    && RejectedUpTo(local.runs, k) && Accepted(local.runs, k)
    && d.text == Taken(local.runs(k).value) && IsFont(d.text, d.pt) && d.rejects == k
  }

  /** The search ends at run `k` without an accepted one. */
  ghost predicate GivesUpAt(local: Local, k: nat) {
    k <= MAX_RETRIES && RejectedUpTo(local.runs, k) && (k == MAX_RETRIES || local.runs(k).None?)
  }

  ghost predicate ShowsCanned(available: bool, local: Local, d: Display) {
    && (!available || !local.binary || exists k: nat :: GivesUpAt(local, k))
    && d == Display(CANNED[local.clock % |CANNED|], 36, MAX_RETRIES)
  }

  /** The outcome of a local rotation: the first accepted run of at most ten, else a canned message. */
  ghost predicate Rotates(available: bool, local: Local, d: Display) {
    (exists k: nat :: ShowsRun(available, local, d, k)) || ShowsCanned(available, local, d)
  }

  lemma AcceptedEnds(runs: nat -> Option<string>, k: nat, m: nat)
    requires Accepted(runs, k) && RejectedUpTo(runs, m)
    ensures m <= k
  {
    assert k < m ==> Rejected(runs, k);
  }

  lemma NeverGivesUp(local: Local, k: nat, m: nat)
    requires k < MAX_RETRIES && RejectedUpTo(local.runs, k) && Accepted(local.runs, k)
    ensures !GivesUpAt(local, m)
  {
    if RejectedUpTo(local.runs, m) {
      AcceptedEnds(local.runs, k, m);
      assert m < k ==> Rejected(local.runs, m);
    }
  }

  lemma NotBoth(available: bool, local: Local, d: Display, k: nat, d': Display)
    requires ShowsRun(available, local, d, k)
    ensures !ShowsCanned(available, local, d')
  {
    forall m: nat ensures !GivesUpAt(local, m) {
      NeverGivesUp(local, k, m);
    }
  }

  lemma SameRun(available: bool, local: Local, d: Display, k: nat, d': Display, k': nat)
    requires ShowsRun(available, local, d, k) && ShowsRun(available, local, d', k')
    ensures d == d'
  {
    AcceptedEnds(local.runs, k, k');
    AcceptedEnds(local.runs, k', k);
    FontIsOne(d.text, d.pt, d'.pt);
  }

  /** What a rotation shows is determined by what the runs print and by the clock. */
  lemma RotationIsDeterminate(available: bool, local: Local, d: Display, d': Display)
    requires Rotates(available, local, d) && Rotates(available, local, d')
    ensures d == d'
  {
    if k: nat :| ShowsRun(available, local, d, k) {
      NotBoth(available, local, d, k, d');
      var k': nat :| ShowsRun(available, local, d', k');
      SameRun(available, local, d, k, d', k');
    } else if k': nat :| ShowsRun(available, local, d', k') {
      NotBoth(available, local, d', k', d);
    }
  }

  datatype Event = Push(text: Option<string>) | Tick(local: Local)

  datatype State = State(display: Display, pushedActive: bool)

  /** One event: a push with text is shown at once; a tick rotates unless such a push came since the last one. */
  ghost predicate Step(available: bool, s: State, e: Event, s': State) {
    match e
    case Push(None) => s' == s
    case Push(Some(text)) =>
      && s'.pushedActive && s'.display.text == text && s'.display.rejects == s.display.rejects
      && exists pt :: IsFont(text, pt) && s'.display.pt == if pt < 0 then 20 else pt
    case Tick(local) =>
      && !s'.pushedActive
      && if s.pushedActive then s'.display == s.display else Rotates(available, local, s'.display)
  }

  /** And so is what any event does. */
  lemma StepIsDeterminate(available: bool, s: State, e: Event, s': State, s'': State)
    requires Step(available, s, e, s') && Step(available, s, e, s'')
    ensures s' == s''
  {
    match e
    case Push(None) =>
    case Push(Some(text)) =>
      var pt :| IsFont(text, pt) && s'.display.pt == if pt < 0 then 20 else pt;
      var pt' :| IsFont(text, pt') && s''.display.pt == if pt' < 0 then 20 else pt';
      FontIsOne(text, pt, pt');
    case Tick(local) =>
      if !s.pushedActive {
        RotationIsDeterminate(available, local, s'.display, s''.display);
      }
  }

  lemma FontIsPositive(text: string, pt: int)
    requires IsFont(text, pt)
    ensures pt == -1 || pt > 0
    ensures pt > 0 ==> !IsFont(text, -1)
  {
  }

  class Widget {
    const available: bool
    var text: string
    var pt: int
    var rejects: nat
    var pushedActive: bool

    ghost function Shown(): State
      reads this
    {
      State(Display(text, pt, rejects), pushedActive)
    }

    method ShowCanned(local: Local)
      modifies this
      ensures Shown() == State(Display(CANNED[local.clock % |CANNED|], 36, MAX_RETRIES), old(pushedActive))
    {
      text, pt, rejects := CANNED[local.clock % |CANNED|], 36, MAX_RETRIES;
    }

    method RunFortuneOrCanned(local: Local)
      modifies this
      ensures Rotates(available, local, Shown().display) && pushedActive == old(pushedActive)
    {
      if available && local.binary {
        for attempt := 0 to MAX_RETRIES
          invariant RejectedUpTo(local.runs, attempt)
          invariant pushedActive == old(pushedActive)
        {
          var output := local.runs(attempt);
          if output.None? {
            ShowCanned(local);
            assert GivesUpAt(local, attempt);
            return;
          }
          var buf := StripNewlines(CStr(Take(output.value, BUFFER - 1)));
          var fontPt := PickFont(Some(buf));
          FontIsPositive(buf, fontPt);
          if fontPt >= 0 {
            text, pt, rejects := buf, fontPt, attempt;
            assert ShowsRun(available, local, Shown().display, attempt);
            return;
          }
          assert Rejected(local.runs, attempt);
        }
        ShowCanned(local);
        assert GivesUpAt(local, MAX_RETRIES);
        return;
      }
      ShowCanned(local);
    }

    /** Start-up shows a local fortune at once. */
    constructor (local: Local)
      ensures Rotates(available, local, Shown().display) && !Shown().pushedActive
    {
      available := local.binary;
      text, pt, rejects, pushedActive := "", 0, 0, false;
      new;
      RunFortuneOrCanned(local);
    }

    method TimerTick(local: Local)
      modifies this
      ensures Step(available, old(Shown()), Tick(local), Shown())
    {
      if pushedActive {
        pushedActive := false;
        return;
      }
      RunFortuneOrCanned(local);
    }

    /** `pushed` is the text of a well-formed push; None stands for anything else. */
    method OnPushed(pushed: Option<string>)
      modifies this
      ensures Step(available, old(Shown()), Push(pushed), Shown())
    {
      if pushed.Some? {
        var fontPt := PickFont(pushed);
        text, pt := pushed.value, if fontPt < 0 then 20 else fontPt;
        pushedActive := true;
      }
    }
  }

  // ---- What is shown, from what the program prints ----

  /**
   * A run that prints `output` yields the text `t`: newlines of either kind follow it, and then
   * comes the end of the output, a NUL byte, or the end of the buffer.
   */
  ghost predicate PrintsAs(output: string, t: string, newlines: string, rest: string) {
    && output == t + newlines + rest && |t + newlines| <= 1023
    && NUL !in t && (t != "" ==> t[|t| - 1] != '\n' && t[|t| - 1] != '\r')
    && (forall i :: 0 <= i < |newlines| ==> newlines[i] == '\n' || newlines[i] == '\r')
    && (rest == "" || rest[0] == NUL || |t + newlines| == 1023)
  }

  ghost predicate Prints(output: Option<string>, t: string) {
    output.Some? && exists newlines, rest :: PrintsAs(output.value, t, newlines, rest)
  }

  lemma StrippedSnoc(s: string, c: char)
    requires c == '\n' || c == '\r'
    ensures Stripped(s + [c]) == Stripped(s)
  {
    assert (s + [c])[..|s + [c]| - 1] == s;
  }

  lemma {:induction false} StrippedIs(t: string, newlines: string)
    requires t != "" ==> t[|t| - 1] != '\n' && t[|t| - 1] != '\r'
    requires forall i :: 0 <= i < |newlines| ==> newlines[i] == '\n' || newlines[i] == '\r'
    ensures Stripped(t + newlines) == t
  {
    if newlines == "" {
      assert t + newlines == t;
    } else {
      var n := |newlines| - 1;
      StrippedIs(t, newlines[..n]);
      StrippedSnoc(t + newlines[..n], newlines[n]);
      assert t + newlines == t + newlines[..n] + [newlines[n]];
    }
  }

  lemma BufferHolds(body: string, rest: string)
    requires |body| <= 1023 && NUL !in body && (rest == "" || rest[0] == NUL || |body| == 1023)
    ensures CStr(Take(body + rest, 1023)) == body
  {
    var s := body + rest;
    var b := Take(s, 1023);
    assert forall i :: 0 <= i < |body| ==> b[i] == body[i];
    StrLenIs(b, |body|);
    assert b[..|body|] == body;
  }

  lemma TakenIs(output: string, t: string, newlines: string, rest: string)
    requires PrintsAs(output, t, newlines, rest)
    ensures Taken(output) == t
  {
    BufferHolds(t + newlines, rest);
    StrippedIs(t, newlines);
  }

  lemma BufferParts(output: string)
    ensures var body := CStr(Take(output, 1023));
            var rest := output[|body|..];
            && output == body + rest && |body| <= 1023 && NUL !in body
            && (rest == "" || rest[0] == NUL || |body| == 1023)
  {
    var b := Take(output, 1023);
    assert StrLen(b) < |b| ==> b[StrLen(b)] == output[StrLen(b)];
  }

  lemma StrippedParts(body: string)
    ensures var t := Stripped(body);
            var newlines := body[|t|..];
            && body == t + newlines
            && (t != "" ==> t[|t| - 1] != '\n' && t[|t| - 1] != '\r')
            && forall i :: 0 <= i < |newlines| ==> newlines[i] == '\n' || newlines[i] == '\r'
  {
    var t := Stripped(body);
    assert forall i :: 0 <= i < |body| - |t| ==> body[|t|..][i] == body[|t| + i];
  }

  lemma EveryOutputPrints(output: string)
    ensures Prints(Some(output), Taken(output))
  {
    var body, t := CStr(Take(output, 1023)), Taken(output);
    BufferParts(output);
    StrippedParts(body);
    assert PrintsAs(output, t, body[|t|..], output[|body|..]);
  }

  /** What is taken from an output, for every output: the one text it stands for. */
  lemma TakenExactly(output: string, t: string)
    ensures Prints(Some(output), t) <==> t == Taken(output)
  {
    EveryOutputPrints(output);
    if newlines, rest :| PrintsAs(output, t, newlines, rest) {
      TakenIs(output, t, newlines, rest);
    }
  }

  /** The first `k` runs print texts of no size. */
  ghost predicate NoneShowable(runs: nat -> Option<string>, k: nat) {
    forall j: nat :: j < k ==> exists t :: Prints(runs(j), t) && SizeFor(t) == -1
  }

  lemma NoneShowableIsRejected(runs: nat -> Option<string>, k: nat)
    ensures NoneShowable(runs, k) ==> RejectedUpTo(runs, k)
  {
    if NoneShowable(runs, k) {
      forall j: nat | j < k ensures Rejected(runs, j) {
        var t :| Prints(runs(j), t) && SizeFor(t) == -1;
        TakenExactly(runs(j).value, t);
        SizeExactly(t, -1);
      }
    }
  }

  /** The first text that has a size is shown without its newlines, at that size, with the runs before it counted. */
  lemma FirstShowableIsShown(local: Local, k: nat, t: string, d: Display)
    requires local.binary && k < 10 && NoneShowable(local.runs, k)
    requires Prints(local.runs(k), t) && SizeFor(t) != -1
    requires Rotates(true, local, d)
    ensures d == Display(t, SizeFor(t), k)
  {
    NoneShowableIsRejected(local.runs, k);
    TakenExactly(local.runs(k).value, t);
    SizeExactly(t, -1);
    SizeExactly(t, SizeFor(t));
    var shown := Display(t, SizeFor(t), k);
    assert ShowsRun(true, local, shown, k);
    RotationIsDeterminate(true, local, d, shown);
  }

  /** With no such text, a canned message is shown at 36 points, another one every second. */
  lemma OtherwiseCanned(available: bool, local: Local, k: nat, d: Display)
    requires !available || !local.binary
             || (k <= 10 && NoneShowable(local.runs, k) && (k == 10 || local.runs(k).None?))
    requires Rotates(available, local, d)
    ensures d == Display(CANNED[local.clock % 6], 36, 10)
  {
    NoneShowableIsRejected(local.runs, k);
    assert k <= 10 && RejectedUpTo(local.runs, k) && (k == 10 || local.runs(k).None?) ==> GivesUpAt(local, k);
    var shown := Display(CANNED[local.clock % 6], 36, 10);
    assert ShowsCanned(available, local, shown);
    RotationIsDeterminate(available, local, d, shown);
  }

  /** A fortune of one line is shown without its newline. */
  lemma OneLineIsShown(local: Local, line: string, d: Display)
    requires local.binary && local.runs(0) == Some(line + "\n")
    requires 1 <= |line| <= 45 && NUL !in line && '\n' !in line && line[|line| - 1] != '\r'
    requires Rotates(true, local, d)
    ensures d == Display(line, 36, 0)
  {
    SplitNone(line, '\n');
    assert PrintsAs(line + "\n", line, "\n", "") by { assert line + "\n" + "" == line + "\n"; }
    FirstShowableIsShown(local, 0, line, d);
  }

  /** A pushed text is shown as it is, at its size, and at 20 points when it has none. */
  lemma PushIsShown(available: bool, s: State, text: string, s': State)
    requires Step(available, s, Push(Some(text)), s')
    ensures s'.pushedActive
    ensures s'.display == Display(text, if SizeFor(text) == -1 then 20 else SizeFor(text), s.display.rejects)
  {
    var pt :| IsFont(text, pt) && s'.display.pt == if pt < 0 then 20 else pt;
    SizeExactly(text, pt);
  }

  // ---- Every interleaving of pushes and ticks ----

  ghost predicate Run(available: bool, ss: seq<State>, es: seq<Event>) {
    && |ss| == |es| + 1 && !ss[0].pushedActive
    && forall i :: 0 <= i < |es| ==> Step(available, ss[i], es[i], ss[i + 1])
  }

  predicate Texted(e: Event) {
    e.Push? && e.text.Some?
  }

  /** Since the last tick before position `n` (or the start), event `i` pushed a text. */
  ghost predicate PushedAt(es: seq<Event>, n: nat, i: nat) {
    i < n <= |es| && Texted(es[i]) && forall j :: i < j < n ==> !es[j].Tick?
  }

  /** The flag is up exactly when a text was pushed since the last tick. */
  lemma {:induction false} FlagExactly(available: bool, ss: seq<State>, es: seq<Event>, n: nat)
    requires Run(available, ss, es) && n <= |es|
    ensures ss[n].pushedActive <==> exists i: nat :: PushedAt(es, n, i)
  {
    if n > 0 {
      FlagExactly(available, ss, es, n - 1);
      assert Step(available, ss[n - 1], es[n - 1], ss[n]);
      var m := n - 1;
      if i: nat :| PushedAt(es, m, i) {
        assert !es[m].Tick? ==> PushedAt(es, n, i);
      }
      if i: nat :| PushedAt(es, n, i) {
        assert i < m ==> PushedAt(es, m, i);
      }
      assert Texted(es[m]) ==> PushedAt(es, n, m);
    }
  }

  /** A tick keeps the display as it is exactly when a text was pushed since the tick before; else it rotates. */
  lemma TickExactly(available: bool, ss: seq<State>, es: seq<Event>, n: nat)
    requires Run(available, ss, es) && n < |es| && es[n].Tick?
    ensures (exists i: nat :: PushedAt(es, n, i)) ==> ss[n + 1].display == ss[n].display
    ensures !(exists i: nat :: PushedAt(es, n, i)) ==> Rotates(available, es[n].local, ss[n + 1].display)
  {
    FlagExactly(available, ss, es, n);
    assert Step(available, ss[n], es[n], ss[n + 1]);
  }

  /**
   * A pushed text stays on display until another one is pushed or a second tick comes: at least
   * through the first tick after it, whatever other pushes without text arrive.
   */
  lemma {:induction false} PushedTextSurvivesFirstTick(available: bool, ss: seq<State>, es: seq<Event>, i: nat, n: nat)
    requires Run(available, ss, es) && i < n <= |es| && Texted(es[i])
    requires forall j :: i < j < n ==> !Texted(es[j])
    requires forall j, k :: i < j < k < n ==> !(es[j].Tick? && es[k].Tick?)
    ensures ss[n].display.text == es[i].text.value
  {
    assert Step(available, ss[n - 1], es[n - 1], ss[n]);
    if i < n - 1 {
      PushedTextSurvivesFirstTick(available, ss, es, i, n - 1);
      if es[n - 1].Tick? {
        assert PushedAt(es, n - 1, i);
        TickExactly(available, ss, es, n - 1);
      }
    }
  }
}
