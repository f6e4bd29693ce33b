/** `parse_host_list_env`: a comma-separated list of hosts, tokenized in place. */
module HostList {
  import opened Protocol
  import opened Sequences
  import opened Text

  const BUFFER: nat := 16 * HOSTNAME_LEN

  // ---- What a list means ----

  function LeadingSpaces(s: string): (n: nat)
    ensures n <= |s| && (forall i :: 0 <= i < n ==> s[i] == ' ') && (n < |s| ==> s[n] != ' ')
  {
    if s != "" && s[0] == ' ' then 1 + LeadingSpaces(s[1..]) else 0
  }

  /** The length of `s` without the spaces at its end. */
  function TextLength(s: string): (n: nat)
    ensures n <= |s| && (forall i :: n <= i < |s| ==> s[i] == ' ') && (n > 0 ==> s[n - 1] != ' ')
  {
    if s != "" && s[|s| - 1] == ' ' then TextLength(s[..|s| - 1]) else |s|
  }

  function TrimLeft(s: string): string {
    s[LeadingSpaces(s)..]
  }

  function TrimRight(s: string): string {
    s[..TextLength(s)]
  }

  lemma LeadingSpacesIs(s: string, n: nat)
    requires n <= |s| && (forall i :: 0 <= i < n ==> s[i] == ' ') && (n < |s| ==> s[n] != ' ')
    ensures LeadingSpaces(s) == n
  {
  }

  lemma TextLengthIs(s: string, n: nat)
    requires n <= |s| && (forall i :: n <= i < |s| ==> s[i] == ' ') && (n > 0 ==> s[n - 1] != ' ')
    ensures TextLength(s) == n
  {
  }

  /** One token as a host name: leading spaces go, then the buffer's limit applies, then trailing spaces go. */
  function Clean(token: string): string {
    TrimRight(Take(TrimLeft(token), HOSTNAME_LEN - 1))
  }

  predicate NonEmpty(s: string) {
    s != ""
  }

  function CleanAll(tokens: seq<string>): seq<string> {
    if tokens == [] then [] else [Clean(tokens[0])] + CleanAll(tokens[1..])
  }

  /** The hosts of a list of pieces: cleaned, and the empty ones dropped. */
  function Hosts(pieces: seq<string>): seq<string> {
    Filter(NonEmpty, CleanAll(pieces))
  }

  /** What a variable's value means: the buffer's worth of it, split at commas. */
  function ParseList(value: string, max: nat): seq<string> {
    Take(Hosts(Split(Take(CStr(value), BUFFER - 1), ',')), max)
  }

  // ---- The tokenizer ----

  /** The host in one token, if there is one. */
  function Token(t: string): seq<string> {
    if Clean(t) == "" then [] else [Clean(t)]
  }

  lemma HostsEmptyPiece(pieces: seq<string>)
    ensures Hosts([""] + pieces) == Hosts(pieces)
  {
    TailOf("", pieces);
    TailOf(Clean(""), CleanAll(pieces));
    assert Clean("") == "";
  }

  lemma HostsCons(p: string, pieces: seq<string>)
    ensures Hosts([p] + pieces) == Token(p) + Hosts(pieces)
  {
    TailOf(p, pieces);
    TailOf(Clean(p), CleanAll(pieces));
  }

  /** The hosts in the rest of the buffer. */
  function HostsIn(s: string): seq<string> {
    Hosts(Split(s, ','))
  }

  lemma SkipComma(s: string)
    requires s != "" && s[0] == ','
    ensures HostsIn(s) == HostsIn(s[1..])
  {
    assert s == "" + [','] + s[1..];
    SplitCons("", ',', s[1..]);
    HostsEmptyPiece(Split(s[1..], ','));
  }

  lemma TokenThenComma(token: string, after: string)
    requires ',' !in token
    ensures HostsIn(token + [','] + after) == Token(token) + HostsIn(after)
  {
    SplitCons(token, ',', after);
    HostsCons(token, Split(after, ','));
  }

  lemma LastToken(token: string)
    requires ',' !in token
    ensures HostsIn(token) == Token(token)
  {
    SplitNone(token, ',');
    HostsCons(token, []);
    assert [token] + [] == [token];
    assert Hosts([]) == [] && Token(token) + [] == Token(token);
  }

  /** The text from `from` to `end` in the buffer, terminated there. */
  ghost predicate Terminated(buf: array<char>, from: nat, end: nat)
    reads buf
  {
    from <= end < buf.Length && buf[end] == NUL && forall i :: from <= i < end ==> buf[i] != NUL
  }

  lemma {:induction false} SkipAll(s: string, a: nat)
    requires a <= |s| && forall i :: 0 <= i < a ==> s[i] == ','
    ensures HostsIn(s) == HostsIn(s[a..])
    decreases a
  {
    if a > 0 {
      SkipComma(s);
      SkipAll(s[1..], a - 1);
      DropDrop(s, 1, a - 1);
    } else {
      assert s[0..] == s;
    }
  }

  lemma NoHosts()
    ensures HostsIn("") == []
  {
    LastToken("");
  }

  /** One token, with the comma behind it and the rest if there is one. */
  lemma TokenStep(s: string, token: string, rest: string)
    requires ',' !in token && (s == token + [','] + rest || (s == token && rest == ""))
    ensures HostsIn(s) == Token(token) + HostsIn(rest)
  {
    if s == token + [','] + rest {
      TokenThenComma(token, rest);
    } else {
      LastToken(token);
      NoHosts();
      assert Token(token) + [] == Token(token);
    }
  }

  lemma {:induction false} OnlyCommas(s: string)
    requires forall i :: 0 <= i < |s| ==> s[i] == ','
    ensures HostsIn(s) == []
  {
    if s == "" {
      NoHosts();
    } else {
      SkipComma(s);
      OnlyCommas(s[1..]);
    }
  }

  /** `strspn`: past the commas. */
  method SkipCommas(buf: array<char>, save: nat, ghost end: nat) returns (s: nat)
    requires Terminated(buf, save, end)
    ensures save <= s <= end && buf[s] != ','
    ensures forall i :: save <= i < s ==> buf[i] == ','
  {
    s := save;
    while buf[s] == ','
      invariant save <= s <= end
      invariant forall i :: save <= i < s ==> buf[i] == ','
      decreases end - s
    {
      s := s + 1;
    }
  }

  /** `strcspn`: up to the next comma or the end. */
  method TokenEnd(buf: array<char>, s: nat, ghost end: nat) returns (e: nat)
    requires Terminated(buf, s, end)
    ensures s <= e <= end && (buf[e] == ',' || e == end)
    ensures forall i :: s <= i < e ==> buf[i] != ','
  {
    e := s;
    while buf[e] != NUL && buf[e] != ','
      invariant s <= e <= end
      invariant forall i :: s <= i < e ==> buf[i] != ','
      decreases end - e
    {
      e := e + 1;
    }
  }

  /**
   * `strtok_r` on the text from `save` to `end`: skips commas, and cuts the next token, which ends
   * at `stop`, out of the buffer by overwriting the comma after it; the rest starts at `save'`.
   */
  method StrTok(buf: array<char>, save: nat, ghost end: nat) returns (tok: Option<nat>, save': nat, ghost stop: nat)
    requires Terminated(buf, save, end)
    modifies buf
    ensures tok.None? ==> forall i :: save <= i < end ==> old(buf[i]) == ','
    ensures tok.Some? ==>
              && save <= tok.value < stop <= end && save < save' <= end
              && Terminated(buf, tok.value, stop) && Terminated(buf, save', end)
              && (forall i :: save <= i < tok.value ==> old(buf[i]) == ',')
              && (forall i :: tok.value <= i < stop ==> buf[i] == old(buf[i]) != ',')
              && (forall i :: save' <= i < end ==> buf[i] == old(buf[i]))
              && (if stop < end then old(buf[stop]) == ',' && save' == stop + 1 else save' == stop)
  {
    var s := SkipCommas(buf, save, end);
    if buf[s] == NUL {
      return None, s, s;
    }
    var e := TokenEnd(buf, s, end);
    tok, stop := Some(s), e;
    if buf[e] == NUL {
      save' := e;
    } else {
      buf[e] := NUL;
      save' := e + 1;
    }
  }

  /** The hosts still to be delivered: the current token's, and those of the text after it. */
  ghost predicate Ahead(buf: array<char>, tok: Option<nat>, save: nat, stop: nat, end: nat,
                        token: string, rest: string, hosts: seq<string>)
    reads buf
  {
    if tok.None? then hosts == []
    else
      && tok.value < stop <= save <= end
      && Terminated(buf, tok.value, stop) && Terminated(buf, save, end)
      && token == buf[tok.value..stop] && rest == buf[save..end]
      && hosts == Token(token) + HostsIn(rest)
  }

  lemma FetchedSlice(text: string, token: string, rest: string, a: nat)
    requires a + |token| <= |text|
    requires forall i :: a <= i < a + |token| ==> text[i] == token[i - a]
    requires |rest| <= |text| && forall i :: |text| - |rest| <= i < |text| ==> text[i] == rest[i - (|text| - |rest|)]
    requires var e := a + |token|;
             if e < |text| then text[e] == ',' && |rest| == |text| - (e + 1) else rest == ""
    ensures text[a..] == (if a + |token| < |text| then token + [','] + rest else token)
  {
  }

  lemma Fetched(text: string, token: string, rest: string, a: nat)
    requires a + |token| <= |text| && forall i :: 0 <= i < a ==> text[i] == ','
    requires ',' !in token && forall i :: a <= i < a + |token| ==> text[i] == token[i - a]
    requires |rest| <= |text| && forall i :: |text| - |rest| <= i < |text| ==> text[i] == rest[i - (|text| - |rest|)]
    requires var e := a + |token|;
             if e < |text| then text[e] == ',' && |rest| == |text| - (e + 1) else rest == ""
    ensures HostsIn(text) == Token(token) + HostsIn(rest)
  {
    SkipAll(text, a);
    FetchedSlice(text, token, rest, a);
    TokenStep(text[a..], token, rest);
  }

  /** Fetches the next token of `text`. */
  method Fetch(buf: array<char>, save: nat, ghost end: nat, ghost text: string)
    returns (tok: Option<nat>, save': nat, ghost stop: nat, ghost token: string, ghost rest: string)
    requires Terminated(buf, save, end) && text == buf[save..end]
    modifies buf
    ensures Ahead(buf, tok, save', stop, end, token, rest, HostsIn(text))
    ensures tok.Some? ==> save < save'
  {
    assert forall i :: save <= i < end ==> buf[i] == text[i - save];
    tok, save', stop := StrTok(buf, save, end);
    token, rest := "", "";
    if tok.None? {
      OnlyCommas(text);
    } else {
      token, rest := buf[tok.value..stop], buf[save'..end];
      ghost var a, r := tok.value - save, save' - save;
      forall i | a <= i < a + |token| ensures text[i] == token[i - a] {
        assert text[i] == old(buf[save + i]);
      }
      assert ',' !in token;
      forall i | r <= i < |text| ensures text[i] == rest[i - r] {
        assert text[i] == old(buf[save + i]);
      }
      Fetched(text, token, rest, a);
    }
  }

  method SkipSpaces(buf: array<char>, tok: nat, ghost stop: nat) returns (start: nat)
    requires Terminated(buf, tok, stop)
    ensures tok <= start <= stop && buf[start..stop] == TrimLeft(buf[tok..stop])
  {
    start := tok;
    while buf[start] == ' '
      invariant tok <= start <= stop
      invariant forall i :: tok <= i < start ==> buf[i] == ' '
      decreases stop - start
    {
      start := start + 1;
    }
    LeadingSpacesIs(buf[tok..stop], start - tok);
    DropDrop(buf[..stop], tok, start - tok);
  }

  method StrNLen(buf: array<char>, start: nat, ghost stop: nat) returns (len: nat)
    requires Terminated(buf, start, stop)
    ensures start + len <= stop && buf[start..start + len] == Take(buf[start..stop], HOSTNAME_LEN - 1)
  {
    len := 0;
    while len < HOSTNAME_LEN - 1 && buf[start + len] != NUL
      invariant len <= HOSTNAME_LEN - 1 && start + len <= stop
    {
      len := len + 1;
    }
  }

  method DropSpaces(buf: array<char>, start: nat, limit: nat) returns (len: nat)
    requires start + limit <= buf.Length
    ensures len <= limit && buf[start..start + len] == TrimRight(buf[start..start + limit])
  {
    len := limit;
    while len > 0 && buf[start + len - 1] == ' '
      invariant len <= limit
      invariant forall i :: start + len <= i < start + limit ==> buf[i] == ' '
    {
      len := len - 1;
    }
    TextLengthIs(buf[start..start + limit], len);
  }

  /** The trimming of one token in the buffer: where the host name starts and how long it is. */
  method TrimToken(buf: array<char>, tok: nat, ghost stop: nat) returns (start: nat, len: nat)
    requires Terminated(buf, tok, stop)
    ensures start + len <= stop && buf[start..start + len] == Clean(buf[tok..stop])
  {
    start := SkipSpaces(buf, tok, stop);
    len := StrNLen(buf, start, stop);
    len := DropSpaces(buf, start, len);
  }

  lemma CopyStopsAt(value: string, n: nat)
    requires n <= |value| && n <= BUFFER - 1 && forall i :: 0 <= i < n ==> value[i] != NUL
    requires n == BUFFER - 1 || n == |value| || value[n] == NUL
    ensures value[..n] == Take(CStr(value), BUFFER - 1)
  {
    if n == |value| || value[n] == NUL {
      StrLenIs(value, n);
    }
  }

  /** `strncpy` into the buffer, and the terminator after it. */
  method FillBuffer(value: string) returns (buf: array<char>, ghost end: nat)
    ensures fresh(buf) && buf.Length == BUFFER
    ensures Terminated(buf, 0, end) && buf[..end] == Take(CStr(value), BUFFER - 1)
  {
    buf := new char[BUFFER](_ => NUL);
    var n := 0;
    while n < BUFFER - 1 && n < |value| && value[n] != NUL
      invariant n <= BUFFER - 1 && n <= |value|
      invariant buf[..n] == value[..n] && (forall i :: 0 <= i < n ==> value[i] != NUL)
      invariant forall i :: n <= i < BUFFER ==> buf[i] == NUL
    {
      buf[n] := value[n];
      n := n + 1;
    }
    end := n;
    CopyStopsAt(value, n);
  }

  /** One token into the output, unless nothing is left of it. */
  method StoreToken(buf: array<char>, tok: nat, ghost stop: nat, ghost token: string, out: array<string>, count: nat)
    returns (count': nat)
    requires Terminated(buf, tok, stop) && token == buf[tok..stop] && count < out.Length
    modifies out
    ensures count <= count' <= count + 1 && out[..count'] == old(out[..count]) + Token(token)
    ensures forall k :: count' <= k < out.Length ==> out[k] == old(out[k])
  {
    var start, len := TrimToken(buf, tok, stop);
    count' := count;
    if len > 0 {
      out[count] := buf[start..start + len];
      count' := count + 1;
    }
  }

  lemma Reassociate(all: seq<string>, a: seq<string>, b: seq<string>, c: seq<string>)
    requires all == a + (b + c)
    ensures all == (a + b) + c
  {
  }

  lemma FirstOf(all: seq<string>, done: seq<string>, rest: seq<string>, max: nat)
    requires all == done + rest && |done| <= max && (rest == [] || |done| == max)
    ensures Take(all, max) == done
  {
  }

  /** The token loop. */
  method Tokenize(buf: array<char>, ghost end: nat, ghost text: string, out: array<string>, max: nat)
    returns (count: nat)
    requires Terminated(buf, 0, end) && text == buf[0..end] && max <= out.Length
    modifies buf, out
    ensures count <= max && out[..count] == Take(HostsIn(text), max)
    ensures forall k :: count <= k < out.Length ==> out[k] == old(out[k])
  {
    ghost var todo, stop: nat, token, rest := HostsIn(text), 0, "", "";
    var tok, save;
    count := 0;
    tok, save, stop, token, rest := Fetch(buf, 0, end, text);
    assert HostsIn(text) == out[..0] + todo;
    while tok.Some? && count < max
      invariant Ahead(buf, tok, save, stop, end, token, rest, todo)
      invariant count <= max && HostsIn(text) == out[..count] + todo
      invariant forall k :: count <= k < out.Length ==> out[k] == old(out[k])
      decreases tok.Some?, end - save
    {
      ghost var have, t, r := out[..count], token, rest;
      count := StoreToken(buf, tok.value, stop, t, out, count);
      Reassociate(HostsIn(text), have, Token(t), HostsIn(r));
      tok, save, stop, token, rest := Fetch(buf, save, end, r);
      todo := HostsIn(r);
    }
    FirstOf(HostsIn(text), out[..count], todo, max);
  }

  method ParseHostList(value: Option<string>, default: string, out: array<string>, max: nat) returns (count: nat)
    requires max <= out.Length
    modifies out
    ensures count <= max && out[..count] == ParseList(if value.Some? then value.value else default, max)
    ensures forall k :: count <= k < out.Length ==> out[k] == old(out[k])
  {
    var v := if value.Some? then value.value else default;
    ghost var end;
    var buf;
    buf, end := FillBuffer(v);
    assert buf[0..end] == buf[..end];
    count := Tokenize(buf, end, buf[..end], out, max);
  }

  // ---- What comes out ----

  /** A host name that parsing leaves alone. */
  predicate Host(h: string) {
    0 < |h| < HOSTNAME_LEN && h[0] != ' ' && h[|h| - 1] != ' ' && ',' !in h && NUL !in h
  }

  lemma CleanIsHost(token: string)
    requires ',' !in token && NUL !in token
    ensures |Clean(token)| <= |token|
    ensures Clean(token) != "" ==> Host(Clean(token))
  {
    var l := TrimLeft(token);
    var m := Take(l, HOSTNAME_LEN - 1);
    var t := TrimRight(m);
    assert t != "" ==> t[0] == l[0] != ' ';
    assert forall i :: 0 <= i < |t| ==> t[i] == token[LeadingSpaces(token) + i];
  }

  lemma HostIsClean(h: string)
    requires Host(h)
    ensures Clean(h) == h
  {
    LeadingSpacesIs(h, 0);
    TextLengthIs(h, |h|);
  }

  /** The length of the pieces, a separator counted with each. */
  function TotalLength(pieces: seq<string>): nat {
    if pieces == [] then 0 else |pieces[0]| + 1 + TotalLength(pieces[1..])
  }

  lemma TotalLengthCons(p: string, pieces: seq<string>)
    ensures TotalLength([p] + pieces) == |p| + 1 + TotalLength(pieces)
    ensures TotalLength([] + pieces) == TotalLength(pieces)
  {
    TailOf(p, pieces);
    assert [] + pieces == pieces;
  }

  lemma {:induction false} HostsAreHosts(pieces: seq<string>)
    requires NoneContains(pieces, ',') && NoneContains(pieces, NUL)
    ensures forall i :: 0 <= i < |Hosts(pieces)| ==> Host(Hosts(pieces)[i])
    ensures TotalLength(Hosts(pieces)) <= TotalLength(pieces)
  {
    if pieces != [] {
      var p, rest := pieces[0], pieces[1..];
      CleanIsHost(p);
      HostsAreHosts(rest);
      HostsCons(p, rest);
      assert pieces == [p] + rest;
      TotalLengthCons(Clean(p), Hosts(rest));
      if Clean(p) == "" {
        assert Hosts(pieces) == Hosts(rest);
      } else {
        assert Hosts(pieces) == [Clean(p)] + Hosts(rest);
      }
    }
  }

  lemma {:induction false} JoinLength(pieces: seq<string>)
    requires |pieces| >= 1
    ensures |Join(pieces, ',')| + 1 == TotalLength(pieces)
  {
    if |pieces| > 1 {
      JoinLength(pieces[1..]);
    }
  }

  lemma {:induction false} TakeLength(pieces: seq<string>, n: nat)
    ensures TotalLength(Take(pieces, n)) <= TotalLength(pieces)
  {
    if pieces != [] && 0 < n < |pieces| {
      TakeLength(pieces[1..], n - 1);
      assert Take(pieces, n)[1..] == Take(pieces[1..], n - 1);
    }
  }

  /** Every host that comes out is nonempty, trimmed, free of commas and short enough, and they still fit the buffer. */
  lemma OutputsAreHosts(value: string, max: nat)
    ensures var hosts := ParseList(value, max);
            && |hosts| <= max
            && (forall i :: 0 <= i < |hosts| ==> Host(hosts[i]))
            && TotalLength(hosts) <= BUFFER
  {
    var text := Take(CStr(value), BUFFER - 1);
    assert NUL !in text;
    var pieces := Split(text, ',');
    SplitPieces(text, ',');
    SplitKeepsOut(text, ',', NUL);
    HostsAreHosts(pieces);
    TakeLength(Hosts(pieces), max);
    JoinSplit(text, ',');
    JoinLength(pieces);
  }

  // ---- Writing a list and reading it back ----

  /** A list as one would set it in the environment. */
  function Joined(hosts: seq<string>): string {
    if hosts == [] then "" else Join(hosts, ',')
  }

  lemma {:induction false} HostsOfHosts(hosts: seq<string>)
    requires forall i :: 0 <= i < |hosts| ==> Host(hosts[i])
    ensures Hosts(hosts) == hosts
  {
    if hosts != [] {
      var h := hosts[0];
      HostsOfHosts(hosts[1..]);
      HostIsClean(h);
      assert hosts == [h] + hosts[1..];
      HostsCons(h, hosts[1..]);
    }
  }

  lemma {:induction false} JoinNulFree(hosts: seq<string>)
    requires |hosts| >= 1 && NoneContains(hosts, NUL)
    ensures NUL !in Join(hosts, ',')
  {
    if |hosts| > 1 {
      JoinNulFree(hosts[1..]);
      assert NUL !in hosts[0];
    }
  }

  /** Parsing a list of proper hosts that fits the buffer and the count returns exactly these hosts. */
  lemma ParseJoined(hosts: seq<string>, max: nat)
    requires |hosts| <= max && TotalLength(hosts) <= BUFFER
    requires forall i :: 0 <= i < |hosts| ==> Host(hosts[i])
    ensures ParseList(Joined(hosts), max) == hosts
  {
    var s := Joined(hosts);
    if hosts == [] {
      NoHosts();
      assert CStr("") == "";
    } else {
      JoinNulFree(hosts);
      JoinLength(hosts);
      StrLenIs(s, |s|);
      assert Take(CStr(s), BUFFER - 1) == s;
      SplitJoin(hosts, ',');
      HostsOfHosts(hosts);
    }
  }

  /** Whatever the variable holds, writing down the result and parsing it again changes nothing. */
  lemma ParseIsStable(value: string, max: nat)
    ensures ParseList(Joined(ParseList(value, max)), max) == ParseList(value, max)
  {
    OutputsAreHosts(value, max);
    ParseJoined(ParseList(value, max), max);
  }

  // ---- Padded and over-long tokens ----

  ghost predicate Spaces(s: string) {
    forall i :: 0 <= i < |s| ==> s[i] == ' '
  }

  /**
   * `piece` is `name` with spaces around it, or with spaces up to the 63rd character of what
   * follows the first spaces, and anything behind.
   */
  ghost predicate ReadsAs(piece: string, name: string, before: string, after: string, tail: string) {
    && Spaces(before) && Spaces(after) && piece == before + (name + after + tail)
    && if tail == "" then |name| <= 63 else |name + after| == 63
  }

  /** One token of the list stands for the host `name`, or for none when that is empty. */
  ghost predicate Reads(piece: string, name: string) {
    if name == "" then Spaces(piece)
    else name[0] != ' ' && name[|name| - 1] != ' ' &&
         exists before, after, tail :: ReadsAs(piece, name, before, after, tail)
  }

  lemma ReadsIsClean(piece: string, name: string, before: string, after: string, tail: string)
    requires name != "" && name[0] != ' ' && name[|name| - 1] != ' ' && ReadsAs(piece, name, before, after, tail)
    ensures Clean(piece) == name
  {
    var l := name + after + tail;
    assert piece[|before|..] == l && piece[|before|] == name[0];
    LeadingSpacesIs(piece, |before|);
    var m := Take(l, 63);
    assert m == Take(name + after, 63);
    assert m[..|name|] == name;
    assert forall i :: |name| <= i < |m| ==> m[i] == after[i - |name|];
    TextLengthIs(m, |name|);
  }

  lemma BlankIsClean(piece: string)
    ensures Spaces(piece) <==> Clean(piece) == ""
  {
    if Spaces(piece) {
      LeadingSpacesIs(piece, |piece|);
    } else {
      var l := TrimLeft(piece);
      assert l != "" && l[0] != ' ';
      assert Take(l, HOSTNAME_LEN - 1)[0] != ' ';
    }
  }

  lemma ThreeParts(l: string, n: nat, k: nat)
    requires n <= k <= |l|
    ensures l == l[..n] + l[n..k] + l[k..] && |l[..n] + l[n..k]| == k
  {
  }

  /** A text that does not begin with a space, cut at 63 characters and stripped of the spaces at its end. */
  lemma TextParts(l: string) returns (name: string, after: string, tail: string)
    requires l != "" && l[0] != ' '
    ensures name == TrimRight(Take(l, 63)) && name != "" && name[0] != ' ' && name[|name| - 1] != ' '
    ensures l == name + after + tail && Spaces(after)
    ensures if tail == "" then |name| <= 63 else |name + after| == 63
  {
    var m := Take(l, 63);
    var k, n := |m|, TextLength(m);
    assert m == l[..k] && m[0] != ' ';
    ThreeParts(l, n, k);
    name, after, tail := l[..n], l[n..k], l[k..];
    assert m[..n] == l[..n];
    assert forall i :: 0 <= i < |after| ==> after[i] == m[n + i];
  }

  lemma SpacesBefore(piece: string)
    ensures var k := LeadingSpaces(piece); piece == piece[..k] + TrimLeft(piece) && Spaces(piece[..k])
  {
  }

  lemma CleanIsRead(piece: string)
    ensures Reads(piece, Clean(piece))
  {
    BlankIsClean(piece);
    if Clean(piece) != "" {
      var name, after, tail := TextParts(TrimLeft(piece));
      SpacesBefore(piece);
      assert ReadsAs(piece, name, piece[..LeadingSpaces(piece)], after, tail);
    }
  }

  /** What a token is cleaned to, for every token: the one name it stands for. */
  lemma CleanExactly(piece: string, name: string)
    ensures Reads(piece, name) <==> name == Clean(piece)
  {
    CleanIsRead(piece);
    BlankIsClean(piece);
    if Reads(piece, name) && name != "" {
      var before, after, tail :| ReadsAs(piece, name, before, after, tail);
      ReadsIsClean(piece, name, before, after, tail);
    }
  }

  /** The names that are there. */
  function Present(names: seq<string>): seq<string> {
    if names == [] then [] else (if names[0] == "" then [] else [names[0]]) + Present(names[1..])
  }

  lemma {:induction false} HostsArePresent(pieces: seq<string>, names: seq<string>)
    requires |pieces| == |names| && forall i :: 0 <= i < |pieces| ==> Reads(pieces[i], names[i])
    ensures Hosts(pieces) == Present(names)
  {
    if pieces != [] {
      var p, rest := pieces[0], pieces[1..];
      CleanExactly(p, names[0]);
      HostsArePresent(rest, names[1..]);
      assert pieces == [p] + rest;
      HostsCons(p, rest);
      assert Token(p) == if names[0] == "" then [] else [names[0]];
    }
  }

  /** A list that fits the buffer means the hosts its pieces stand for, in their order, up to the count. */
  lemma ParsePieces(pieces: seq<string>, names: seq<string>, max: nat)
    requires |pieces| == |names| >= 1 && NoneContains(pieces, ',') && NoneContains(pieces, NUL)
    requires forall i :: 0 <= i < |pieces| ==> Reads(pieces[i], names[i])
    requires |Join(pieces, ',')| <= 1023
    ensures ParseList(Join(pieces, ','), max) == Take(Present(names), max)
  {
    var s := Join(pieces, ',');
    JoinNulFree(pieces);
    StrLenIs(s, |s|);
    assert Take(CStr(s), BUFFER - 1) == s;
    SplitJoin(pieces, ',');
    HostsArePresent(pieces, names);
  }

  /** What is behind the 1023rd character does not count. */
  lemma ValueIsCut(value: string, more: string, max: nat)
    requires |value| == 1023
    ensures ParseList(value + more, max) == ParseList(value, max)
  {
    var n := StrLen(value);
    if n < |value| {
      StrLenIs(value + more, n);
      assert (value + more)[..n] == value[..n];
    } else {
      assert forall i :: 0 <= i < |value| ==> value[i] == (value + more)[i];
      assert StrLen(value + more) >= 1023;
      assert Take(CStr(value + more), 1023) == value;
      assert CStr(value) == value;
    }
  }

  lemma {:induction false} PresentAll(names: seq<string>)
    requires forall i :: 0 <= i < |names| ==> names[i] != ""
    ensures Present(names) == names
  {
    if names != [] {
      PresentAll(names[1..]);
    }
  }

  /** Hosts with any spaces around them are found as they are. */
  lemma ParsePadded(hosts: seq<string>, before: seq<string>, after: seq<string>, pieces: seq<string>, max: nat)
    requires 1 <= |hosts| == |before| == |after| == |pieces| <= max
    requires forall i :: 0 <= i < |hosts| ==>
               && 1 <= |hosts[i]| <= 63 && hosts[i][0] != ' ' && hosts[i][|hosts[i]| - 1] != ' '
               && ',' !in hosts[i] && NUL !in hosts[i]
    requires forall i :: 0 <= i < |hosts| ==>
               Spaces(before[i]) && Spaces(after[i]) && pieces[i] == before[i] + hosts[i] + after[i]
    requires |Join(pieces, ',')| <= 1023
    ensures ParseList(Join(pieces, ','), max) == hosts
  {
    forall i | 0 <= i < |hosts| ensures Reads(pieces[i], hosts[i]) && ',' !in pieces[i] && NUL !in pieces[i] {
      assert pieces[i] == before[i] + (hosts[i] + after[i] + "");
      assert ReadsAs(pieces[i], hosts[i], before[i], after[i], "");
    }
    ParsePieces(pieces, hosts, max);
    PresentAll(hosts);
  }

  lemma {:induction false} BlankPieces(s: string)
    requires forall i :: 0 <= i < |s| ==> s[i] == ' ' || s[i] == ','
    ensures HostsIn(s) == []
  {
    var e := IndexOf(s, ',');
    var t := s[..e];
    LeadingSpacesIs(t, e);
    assert TrimLeft(t) == "" && Token(t) == [];
    if e < |s| {
      var r := s[e + 1..];
      BlankPieces(r);
      assert s == t + [','] + r;
      TokenThenComma(t, r);
    } else {
      assert t == s;
      LastToken(s);
    }
  }

  /** A variable set to nothing, or to spaces and commas only, means no hosts. */
  lemma BlankMeansNoHosts(value: string, max: nat)
    requires forall i :: 0 <= i < |value| ==> value[i] == ' ' || value[i] == ','
    ensures ParseList(value, max) == []
  {
    var text := Take(CStr(value), BUFFER - 1);
    BlankPieces(text);
  }
}
