/** `admitted_load_section`: the chunked reader, proved against the whole-file meaning. */
module AdmittedReader {
  import opened Protocol
  import opened Sequences
  import opened Text
  import opened Stdio
  import opened AdmittedFormat

  const LINE_SIZE: nat := HOSTNAME_LEN + 2

  method ValidHostname(name: Option<string>) returns (valid: bool)
    ensures valid <==> name.Some? && IsHostname(name.value)
    ensures valid <==>
            && name.Some? && 1 <= |name.value| <= 63
            && forall i :: 0 <= i < |name.value| ==> name.value[i] in "abcdefghijklmnopqrstuvwxyz0123456789-."
  {
    if name.Some? {
      HostnameExactly(name.value);
    }
    if name.None? || name.value == "" {
      return false;
    }
    var s := name.value;
    if |s| >= HOSTNAME_LEN {
      return false;
    }
    for i := 0 to |s|
      invariant forall j :: 0 <= j < i ==> HostChar(s[j])
    {
      if !HostChar(s[i]) {
        return false;
      }
    }
    return true;
  }

  method AlreadyHave(out: array<string>, n: nat, name: string) returns (have: bool)
    requires n <= out.Length
    ensures have <==> name in out[..n]
  {
    for i := 0 to n
      invariant name !in out[..i]
    {
      if out[i] == name {
        return true;
      }
    }
    return false;
  }

  lemma CStrOfBuffer(buf: seq<char>, s: string)
    requires |s| < |buf| && buf[..|s|] == s && buf[|s|] == NUL
    ensures StrLen(buf) == StrLen(s) && CStr(buf) == CStr(s)
    ensures NUL !in s ==> CStr(buf) == s && StrLen(buf) == |s|
  {
    var n := StrLen(s);
    assert buf[..n] == s[..n];
    StrLenIs(buf, n);
    if NUL !in s {
      StrLenIs(s, |s|);
    }
  }

  method SectionHeader(line: array<char>, cur: array<char>) returns (isHeader: bool)
    requires line != cur && cur.Length == HOSTNAME_LEN
    modifies cur
    ensures isHeader <==> IsHeader(CStr(line[..]))
    ensures isHeader ==> HeaderName(CStr(line[..]), HOSTNAME_LEN) == Some(CStr(cur[..]))
    ensures !isHeader ==> cur[..] == old(cur[..])
  {
    ghost var bytes := line[..];
    var len := StrLen(line[..]);
    if len < 3 || line[0] != '[' || line[len - 1] != ']' || len - 2 >= cur.Length {
      return false;
    }
    forall i | 0 <= i < len - 2 {
      cur[i] := line[1 + i];
    }
    cur[len - 2] := NUL;
    assert line[..] == bytes;
    ghost var name := CStr(bytes)[1..len - 1];
    assert cur[..][..len - 2] == name;
    assert NUL !in name;
    CStrOfBuffer(cur[..], name);
    return true;
  }

  /** The text after the first line of `s`. */
  function SkipLine(s: string): string {
    var e := IndexOf(s, '\n');
    if e < |s| then s[e + 1..] else ""
  }

  method DiscardLine(f: InputFile)
    requires f.Valid()
    modifies f
    ensures f.Valid() && old(f.pos) <= f.pos
    ensures f.Rest() == SkipLine(old(f.Rest()))
    ensures f.eof == (old(f.eof) || IndexOf(old(f.Rest()), '\n') == |old(f.Rest())|)
  {
    ghost var rest := f.Rest();
    ghost var k := 0;
    var c := f.Fgetc();
    while c.Some? && c.value != '\n'
      invariant f.Valid() && 0 <= k <= |rest|
      invariant forall i :: 0 <= i < k ==> rest[i] != '\n'
      invariant c.Some? ==> k < |rest| && c.value == rest[k] && f.pos == old(f.pos) + k + 1 && f.eof == old(f.eof)
      invariant c.None? ==> k == |rest| && f.pos == old(f.pos) + k && f.eof
      decreases |rest| - k, c.Some?
    {
      k := k + 1;
      c := f.Fgetc();
    }
    IndexOfIs(rest, '\n', k);
  }

  lemma SkippedLine(s: string)
    ensures var pieces := Split(s, '\n');
            FileLines(SkipLine(s)) == if |pieces| == 1 then [] else KeptLines(pieces[1..])
  {
    var e := IndexOf(s, '\n');
    if e < |s| {
      TailOf(s[..e], Split(s[e + 1..], '\n'));
    } else {
      EmptyFile();
    }
  }

  /** One turn of the reader, on text: what the first line of `rest` contributes. */
  lemma FileLinesStep(rest: string)
    ensures var e := IndexOf(rest, '\n');
            e < |rest| ==>
              var l, after := rest[..e], SkipLine(rest);
              FileLines(rest) ==
                if e > HOSTNAME_LEN then FileLines(after)
                else if NUL in l then FileLines(SkipLine(after))
                else [StripCr(l)] + FileLines(after)
  {
    var e := IndexOf(rest, '\n');
    if e < |rest| {
      KeptCons(rest[..e], Split(rest[e + 1..], '\n'));
      SkippedLine(rest[e + 1..]);
    }
  }

  /** The unterminated last piece. */
  lemma FileLinesTail(rest: string)
    requires rest != "" && IndexOf(rest, '\n') == |rest|
    ensures FileLines(rest) == if |rest| > HOSTNAME_LEN then [] else [StripCr(CStr(rest))]
    ensures FileLines(SkipLine(rest)) == []
  {
    EmptyFile();
  }

  lemma SkipLineStep(c: char, rest: string)
    requires c != '\n'
    ensures SkipLine([c] + rest) == SkipLine(rest)
  {
    TailOf(c, rest);
    var e := IndexOf(rest, '\n');
    if e < |rest| {
      DropDrop([c] + rest, 1, e + 1);
    }
  }

  lemma {:induction false} SkipLineFrom(rest: string, k: nat)
    requires k <= IndexOf(rest, '\n')
    ensures SkipLine(rest[k..]) == SkipLine(rest)
  {
    if k == 0 {
      assert rest[k..] == rest;
    } else {
      assert rest == [rest[0]] + rest[1..];
      SkipLineFrom(rest[1..], k - 1);
      SkipLineStep(rest[0], rest[1..]);
      DropDrop(rest, 1, k - 1);
    }
  }

  lemma CompleteChunkLength(rest: string, k: nat, len: nat)
    requires rest != "" && k == FgetsLength(rest, LINE_SIZE - 1)
    requires 0 < len <= k && rest[len - 1] == '\n'
    ensures var e := IndexOf(rest, '\n'); len == k == e + 1 <= |rest| && e <= HOSTNAME_LEN
  {
  }

  /** The fetched chunk ends its C string in a newline: it is one whole, NUL-free line. */
  lemma CompleteChunk(rest: string, k: nat)
    requires rest != "" && k == FgetsLength(rest, LINE_SIZE - 1)
    requires var len := StrLen(rest[..k]); len > 0 && rest[len - 1] == '\n'
    ensures var e := IndexOf(rest, '\n');
            && StrLen(rest[..k]) == k == e + 1 <= |rest| && e <= HOSTNAME_LEN
            && NUL !in rest[..e] && SkipLine(rest) == rest[k..]
            && CStr(rest[..k])[..k - 1] == rest[..e]
  {
    var e, chunk := IndexOf(rest, '\n'), rest[..k];
    CompleteChunkLength(rest, k, StrLen(chunk));
    assert CStr(chunk)[..e] == rest[..e];
  }

  lemma CompleteChunkKept(rest: string, k: nat)
    requires rest != "" && k == FgetsLength(rest, LINE_SIZE - 1)
    requires var len := StrLen(rest[..k]); len > 0 && rest[len - 1] == '\n'
    ensures StrLen(rest[..k]) == k > 0
    ensures FileLines(rest) == [StripCr(CStr(rest[..k])[..k - 1])] + FileLines(rest[k..])
    ensures !FgetsHitsEof(rest, LINE_SIZE - 1)
  {
    CompleteChunk(rest, k);
    FileLinesStep(rest);
  }

  /** Any other chunk with the end of the file in it is the unterminated last piece. */
  lemma TailChunkKept(rest: string, k: nat)
    requires rest != "" && k == FgetsLength(rest, LINE_SIZE - 1)
    requires FgetsHitsEof(rest, LINE_SIZE - 1)
    ensures rest[k..] == ""
    ensures FileLines(rest) == [StripCr(CStr(rest[..k]))] + FileLines(rest[k..])
  {
    assert rest[..k] == rest && rest[k..] == "";
    FileLinesTail(rest);
    EmptyFile();
  }

  lemma OverLongChunk(rest: string, k: nat)
    requires rest != "" && k <= IndexOf(rest, '\n') && IndexOf(rest, '\n') > HOSTNAME_LEN
    ensures FileLines(rest) == FileLines(SkipLine(rest[k..]))
  {
    SkipLineFrom(rest, k);
    FileLinesStep(rest);
    if IndexOf(rest, '\n') == |rest| {
      FileLinesTail(rest);
    }
  }

  lemma WholeLineIsComplete(rest: string, e: nat)
    requires e < |rest| && rest[e] == '\n' && NUL !in rest[..e]
    ensures StrLen(rest[..e + 1]) == e + 1
  {
    assert forall i :: 0 <= i < e ==> rest[i] == rest[..e][i];
    StrLenIs(rest[..e + 1], e + 1);
  }

  /** Every other chunk starts a line that is dropped together with what follows up to a newline. */
  lemma DroppedChunk(rest: string, k: nat)
    requires rest != "" && k == FgetsLength(rest, LINE_SIZE - 1)
    requires !FgetsHitsEof(rest, LINE_SIZE - 1)
    requires var len := StrLen(rest[..k]); !(len > 0 && rest[len - 1] == '\n')
    ensures FileLines(rest) == FileLines(SkipLine(rest[k..]))
  {
    var e := IndexOf(rest, '\n');
    if e > HOSTNAME_LEN {
      OverLongChunk(rest, k);
    } else {
      assert NUL in rest[..e] by {
        if NUL !in rest[..e] { WholeLineIsComplete(rest, e); }
      }
      FileLinesStep(rest);
    }
  }

  /** `line[--len] = 0`: cuts the last character off the C string in the buffer. */
  method CutLast(line: array<char>, len: nat)
    requires NUL in line[..] && 0 < len == StrLen(line[..])
    modifies line
    ensures CStr(line[..]) == old(CStr(line[..]))[..len - 1]
    ensures NUL in line[..]
  {
    ghost var body := CStr(line[..]);
    line[len - 1] := NUL;
    assert line[..][..len - 1] == body[..len - 1];
    CStrOfBuffer(line[..], body[..len - 1]);
    assert line[..][len - 1] == NUL;
  }

  method ChompCr(line: array<char>)
    requires NUL in line[..]
    modifies line
    ensures CStr(line[..]) == StripCr(old(CStr(line[..])))
    ensures NUL in line[..]
  {
    var len := StrLen(line[..]);
    if len > 0 && line[len - 1] == '\r' {
      CutLast(line, len);
    }
  }

  lemma ChunkInBuffer(buf: seq<char>, rest: string, k: nat)
    requires k < |buf| && k <= |rest| && buf[..k] == rest[..k] && buf[k] == NUL
    ensures NUL in buf && StrLen(buf) == StrLen(rest[..k]) && CStr(buf) == CStr(rest[..k])
  {
    CStrOfBuffer(buf, rest[..k]);
  }

  /** One bufferful: the C string in the buffer is that of the characters taken. */
  method FetchChunk(f: InputFile, line: array<char>) returns (ok: bool, ghost k: nat)
    requires f.Valid() && (f.eof ==> f.Rest() == "")
    requires line.Length == LINE_SIZE
    modifies f, line
    ensures f.Valid() && k == FgetsLength(old(f.Rest()), LINE_SIZE - 1)
    ensures ok <==> old(f.Rest()) != ""
    ensures if ok then f.pos > old(f.pos) else f.Rest() == ""
    ensures ok ==> f.Rest() == old(f.Rest())[k..] && f.eof == FgetsHitsEof(old(f.Rest()), LINE_SIZE - 1)
    ensures ok ==> NUL in line[..] && k < |line[..]| && line[..][..k] == old(f.Rest())[..k]
    ensures ok ==> StrLen(line[..]) == StrLen(old(f.Rest())[..k]) && CStr(line[..]) == CStr(old(f.Rest())[..k])
  {
    ghost var rest, pos := f.Rest(), f.pos;
    k := FgetsLength(rest, LINE_SIZE - 1);
    ok := f.Fgets(line, LINE_SIZE);
    if ok {
      DropDrop(f.data, pos, k);
      assert line[..][..k] == line[..k];
      ChunkInBuffer(line[..], rest, k);
    }
  }

  /** Fetch a line without its newline; an over-long one is dropped whole. */
  method FetchLine(f: InputFile, line: array<char>) returns (ok: bool, kept: bool)
    requires f.Valid() && (f.eof ==> f.Rest() == "")
    requires line.Length == LINE_SIZE
    modifies f, line
    ensures f.Valid() && (f.eof ==> f.Rest() == "")
    ensures ok <==> old(f.Rest()) != ""
    ensures if ok then f.pos > old(f.pos) else f.Rest() == ""
    ensures kept ==> ok && NUL in line[..]
    ensures kept ==> FileLines(old(f.Rest())) == [StripCr(CStr(line[..]))] + FileLines(f.Rest())
    ensures ok && !kept ==> FileLines(old(f.Rest())) == FileLines(f.Rest())
  {
    ghost var rest := f.Rest();
    ghost var k;
    ok, k := FetchChunk(f, line);
    kept := false;
    if !ok {
      return;
    }
    var len := StrLen(line[..]);
    var complete := len > 0 && line[len - 1] == '\n';
    assert len > 0 ==> line[len - 1] == line[..][..k][len - 1] == rest[len - 1];
    if complete {
      CompleteChunkKept(rest, k);
      CutLast(line, len);
    } else if !f.eof {
      DroppedChunk(rest, k);
      DiscardLine(f);
      return;
    } else {
      TailChunkKept(rest, k);
    }
    kept := true;
  }

  /** The upper half of the read loop: fetch a line and strip its line ending. */
  method ReadLine(f: InputFile, line: array<char>) returns (ok: bool, kept: bool)
    requires f.Valid() && (f.eof ==> f.Rest() == "")
    requires line.Length == LINE_SIZE
    modifies f, line
    ensures f.Valid() && (f.eof ==> f.Rest() == "")
    ensures ok <==> old(f.Rest()) != ""
    ensures if ok then f.pos > old(f.pos) else f.Rest() == ""
    ensures kept ==> ok && NUL in line[..]
    ensures kept ==> FileLines(old(f.Rest())) == [CStr(line[..])] + FileLines(f.Rest())
    ensures ok && !kept ==> FileLines(old(f.Rest())) == FileLines(f.Rest())
  {
    ok, kept := FetchLine(f, line);
    if kept {
      ghost var rest := f.Rest();
      ChompCr(line);
      assert f.Rest() == rest;
    }
  }

  /** The lower half of the read loop: a header switches section, a new name of `want` is stored. */
  method TakeLine(line: array<char>, cur: array<char>, want: string, out: array<string>, n: nat)
    returns (n': nat)
    requires line != cur && cur.Length == HOSTNAME_LEN && n < out.Length
    modifies cur, out
    ensures CStr(cur[..]) == NextSection(CStr(line[..]), old(CStr(cur[..])))
    ensures var l, c, have := CStr(line[..]), old(CStr(cur[..])), old(out[..n]);
            var add := !IsHeader(l) && c == want && IsHostname(l) && l !in have;
            && n' == (if add then n + 1 else n)
            && out[..n'] == (if add then have + [l] else have)
    ensures forall k :: n' <= k < out.Length ==> out[k] == old(out[k])
  {
    var isHeader := SectionHeader(line, cur);
    if isHeader {
      return n;
    }
    if CStr(cur[..]) != want {
      return n;
    }
    var l := CStr(line[..]);
    var valid := ValidHostname(Some(l));
    if !valid {
      return n;
    }
    var have := AlreadyHave(out, n, l);
    if have {
      return n;
    }
    out[n] := l;
    return n + 1;
  }

  /** What reading line `l` does to the lines still to be delivered and to the names found. */
  lemma LineTaken(all: seq<string>, seen: seq<string>, l: string, rest: seq<string>, cur: string, want: string)
    returns (seen': seq<string>)
    requires all == seen + SectionLines([l] + rest, cur, want)
    ensures all == seen' + SectionLines(rest, NextSection(l, cur), want)
    ensures var add := !IsHeader(l) && cur == want && IsHostname(l) && l !in Names(seen);
            Names(seen') == if add then Names(seen) + [l] else Names(seen)
  {
    assert ([l] + rest)[1..] == rest;
    NamesSnoc(seen, l);
    seen' := if !IsHeader(l) && cur == want then seen + [l] else seen;
  }

  /**
   * The names found are those of the lines `seen`; with the lines still to come, `todo`, they make
   * up the lines of section `want` in the whole file.
   */
  ghost predicate Reading(all: seq<string>, seen: seq<string>, todo: seq<string>, cur: string, want: string,
                          names: seq<string>)
  {
    all == seen + SectionLines(todo, cur, want) && names == Names(seen)
  }

  /** One turn of the read loop; false at the end of the file. */
  method ReadTurn(f: InputFile, line: array<char>, cur: array<char>, want: string, out: array<string>, n: nat,
                  ghost all: seq<string>, ghost seen: seq<string>)
    returns (ok: bool, n': nat, ghost seen': seq<string>)
    requires f.Valid() && (f.eof ==> f.Rest() == "")
    requires line.Length == LINE_SIZE && cur.Length == HOSTNAME_LEN && line != cur && n < out.Length
    requires Reading(all, seen, FileLines(f.Rest()), CStr(cur[..]), want, out[..n])
    modifies f, line, cur, out
    ensures f.Valid() && (f.eof ==> f.Rest() == "")
    ensures if ok then f.pos > old(f.pos) else f.Rest() == ""
    ensures n <= n' <= n + 1
    ensures Reading(all, seen', FileLines(f.Rest()), CStr(cur[..]), want, out[..n'])
    ensures forall k :: n' <= k < out.Length ==> out[k] == old(out[k])
  {
    n', seen' := n, seen;
    var kept;
    ok, kept := ReadLine(f, line);
    if kept {
      ghost var rest := FileLines(f.Rest());
      seen' := LineTaken(all, seen, CStr(line[..]), rest, CStr(cur[..]), want);
      n' := TakeLine(line, cur, want, out, n);
      assert FileLines(f.Rest()) == rest;
    }
  }

  /** When the file is used up or the output is full, what was found is the answer. */
  lemma AllTaken(seen: seq<string>, more: seq<string>, max: nat)
    requires |Names(seen)| <= max && (more == [] || |Names(seen)| == max)
    ensures Take(Names(seen + more), max) == Names(seen)
  {
    if more == [] {
      assert seen + more == seen;
    } else {
      NamesPrefix(seen, more);
    }
  }

  /** The read loop. */
  method ReadSection(f: InputFile, line: array<char>, cur: array<char>, want: string,
                     out: array<string>, max: nat)
    returns (n: nat)
    requires f.Valid() && !f.eof && f.Rest() == f.data
    requires line.Length == LINE_SIZE && cur.Length == HOSTNAME_LEN && line != cur
    requires CStr(cur[..]) == "" && max <= out.Length
    modifies f, line, cur, out
    ensures n <= max && out[..n] == Load(f.data, want, max)
    ensures forall k :: n <= k < out.Length ==> out[k] == old(out[k])
  {
    n := 0;
    ghost var seen := [];
    ghost var all := SectionLines(FileLines(f.data), "", want);
    while n < max
      invariant f.Valid() && (f.eof ==> f.Rest() == "")
      invariant 0 <= n <= max && Reading(all, seen, FileLines(f.Rest()), CStr(cur[..]), want, out[..n])
      invariant forall k :: n <= k < out.Length ==> out[k] == old(out[k])
      decreases |f.data| - f.pos
    {
      var ok;
      ok, n, seen := ReadTurn(f, line, cur, want, out, n, all, seen);
      if !ok {
        EmptyFile();
        break;
      }
    }
    AllTaken(seen, SectionLines(FileLines(f.Rest()), CStr(cur[..]), want), max);
  }

  /** What opening `path` gives is `contents`: None when the file is missing or unreadable. */
  method LoadSection(path: Option<string>, contents: Option<string>, section: Option<string>,
                     out: array?<string>, max: int)
    returns (n: int)
    requires out != null ==> max <= out.Length
    modifies out
    ensures path.None? || path.value == "" || contents.None? || out == null || max <= 0 ==> n == 0
    ensures path.Some? && path.value != "" && contents.Some? && out != null && max > 0 ==>
              0 <= n <= max && out[..n] == Load(contents.value, if section.Some? then section.value else "", max)
    ensures out != null ==> 0 <= n <= out.Length && forall k :: n <= k < out.Length ==> out[k] == old(out[k])
  {
    n := 0;
    if path.None? || path.value == "" || out == null || max <= 0 {
      return;
    }
    var want := if section.Some? then section.value else "";
    if contents.None? {
      return;
    }
    var f := new InputFile(contents.value);
    var line := new char[LINE_SIZE];
    var cur := new char[HOSTNAME_LEN];
    cur[0] := NUL;
    CStrOfBuffer(cur[..], "");

    n := ReadSection(f, line, cur, want, out, max);
  }
}
