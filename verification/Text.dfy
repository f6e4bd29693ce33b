/** C strings and delimiter-separated text, on sequences of characters (one character is one byte). */
module Text {
  import opened Sequences

  const NUL: char := '\0'

  /** `strlen` on the bytes of a buffer: the position of the first NUL. */
  function StrLen(buf: seq<char>): (n: nat)
    ensures n <= |buf|
    ensures forall i :: 0 <= i < n ==> buf[i] != NUL
    ensures n < |buf| ==> buf[n] == NUL
  {
    if buf == [] || buf[0] == NUL then 0 else 1 + StrLen(buf[1..])
  }

  /** The C string held in a buffer. */
  function CStr(buf: seq<char>): (s: string)
    ensures NUL !in s
    ensures s <= buf
  {
    buf[..StrLen(buf)]
  }

  lemma StrLenIs(buf: seq<char>, n: nat)
    requires n <= |buf| && forall i :: 0 <= i < n ==> buf[i] != NUL
    requires n < |buf| ==> buf[n] == NUL
    ensures StrLen(buf) == n
  {
  }

  /** The position of the first `c` in `s`, or the length of `s`. */
  function IndexOf(s: string, c: char): (e: nat)
    ensures e <= |s|
    ensures forall i :: 0 <= i < e ==> s[i] != c
    ensures e < |s| ==> s[e] == c
  {
    if s == "" || s[0] == c then 0 else 1 + IndexOf(s[1..], c)
  }

  lemma IndexOfIs(s: string, c: char, e: nat)
    requires e <= |s| && forall i :: 0 <= i < e ==> s[i] != c
    requires e < |s| ==> s[e] == c
    ensures IndexOf(s, c) == e
  {
  }

  ghost predicate NoneContains(parts: seq<string>, d: char) {
    forall i :: 0 <= i < |parts| ==> d !in parts[i]
  }

  /** The pieces of `s` between occurrences of `d`; always at least one. */
  function Split(s: string, d: char): (parts: seq<string>)
    ensures |parts| >= 1
  {
    var e := IndexOf(s, d);
    if e == |s| then [s] else [s[..e]] + Split(s[e + 1..], d)
  }

  lemma {:induction false} SplitPieces(s: string, d: char)
    ensures NoneContains(Split(s, d), d)
  {
    var e := IndexOf(s, d);
    if e < |s| {
      SplitPieces(s[e + 1..], d);
    } else {
      assert s[..e] == s;
    }
  }

  /** Splitting brings no character in. */
  lemma {:induction false} SplitKeepsOut(s: string, d: char, c: char)
    requires c !in s
    ensures NoneContains(Split(s, d), c)
  {
    var e := IndexOf(s, d);
    if e < |s| {
      SplitKeepsOut(s[e + 1..], d, c);
    }
  }

  /** The inverse of `Split`: the pieces with `d` between them. */
  function Join(parts: seq<string>, d: char): string
    requires |parts| >= 1
  {
    if |parts| == 1 then parts[0] else parts[0] + [d] + Join(parts[1..], d)
  }

  lemma JoinCons(p: string, parts: seq<string>, d: char)
    requires |parts| >= 1
    ensures Join([p] + parts, d) == p + [d] + Join(parts, d)
  {
    TailOf(p, parts);
  }

  lemma {:induction false} JoinSplit(s: string, d: char)
    ensures Join(Split(s, d), d) == s
  {
    var e := IndexOf(s, d);
    if e < |s| {
      JoinSplit(s[e + 1..], d);
      JoinCons(s[..e], Split(s[e + 1..], d), d);
    }
  }

  lemma SplitNone(s: string, d: char)
    requires d !in s
    ensures Split(s, d) == [s]
  {
    IndexOfIs(s, d, |s|);
  }

  lemma SplitCons(p: string, d: char, b: string)
    requires d !in p
    ensures Split(p + [d] + b, d) == [p] + Split(b, d)
  {
    var s := p + [d] + b;
    assert s[..|p|] == p && s[|p|] == d && s[|p| + 1..] == b;
    IndexOfIs(s, d, |p|);
  }

  lemma {:induction false} SplitAt(a: string, d: char, b: string)
    ensures Split(a + [d] + b, d) == Split(a, d) + Split(b, d)
  {
    var e := IndexOf(a, d);
    if e < |a| {
      var p, r := a[..e], a[e + 1..];
      assert a + [d] + b == p + [d] + (r + [d] + b) by { assert a == p + [d] + r; }
      SplitCons(p, d, r + [d] + b);
      SplitAt(r, d, b);
      Regroup(Split(a, d), Split(b, d));
      TailOf(p, Split(r, d));
    } else {
      assert a[..e] == a;
      SplitCons(a, d, b);
    }
  }

  lemma {:induction false} SplitJoin(parts: seq<string>, d: char)
    requires |parts| >= 1
    requires NoneContains(parts, d)
    ensures Split(Join(parts, d), d) == parts
  {
    SplitNone(parts[0], d);
    if |parts| > 1 {
      SplitJoin(parts[1..], d);
      SplitCons(parts[0], d, Join(parts[1..], d));
    }
  }

  /** One more ordinary character extends the last piece. */
  lemma {:induction false} SplitSnoc(s: string, c: char, d: char)
    requires c != d
    ensures var p := Split(s, d);
            Split(s + [c], d) == p[..|p| - 1] + [p[|p| - 1] + [c]]
  {
    var e := IndexOf(s, d);
    if e < |s| {
      var h, r := s[..e], s[e + 1..];
      assert s + [c] == h + [d] + (r + [c]) by { assert s == h + [d] + r; }
      SplitCons(h, d, r + [c]);
      SplitSnoc(r, c, d);
      InitOf(h, Split(r, d));
    } else {
      SplitNone(s, d);
      SplitNone(s + [c], d);
    }
  }

  /** Whole lines: each name followed by a newline. */
  function Unlines(lines: seq<string>): string {
    if lines == [] then "" else lines[0] + ['\n'] + Unlines(lines[1..])
  }

  lemma {:induction false} UnlinesSnoc(lines: seq<string>, x: string)
    ensures Unlines(lines + [x]) == Unlines(lines) + x + ['\n']
  {
    if lines == [] {
      assert lines + [x] == [x];
    } else {
      assert (lines + [x])[1..] == lines[1..] + [x];
      UnlinesSnoc(lines[1..], x);
    }
  }

  lemma {:induction false} UnlinesAppend(a: seq<string>, b: seq<string>)
    ensures Unlines(a + b) == Unlines(a) + Unlines(b)
  {
    if a == [] {
      assert a + b == b;
    } else {
      assert (a + b)[1..] == a[1..] + b;
      UnlinesAppend(a[1..], b);
    }
  }

  lemma UnlinesCons(lines: seq<string>, rest: string)
    requires lines != []
    ensures Unlines(lines) + rest == lines[0] + ['\n'] + (Unlines(lines[1..]) + rest)
  {
  }

  lemma {:induction false} SplitUnlines(lines: seq<string>, rest: string)
    requires NoneContains(lines, '\n')
    ensures Split(Unlines(lines) + rest, '\n') == lines + Split(rest, '\n')
  {
    if lines == [] {
      assert Unlines(lines) + rest == rest;
    } else {
      var l, ls := lines[0], lines[1..];
      var whole, tail, r := Unlines(lines) + rest, Unlines(ls) + rest, Split(rest, '\n');
      assert Split(tail, '\n') == ls + r by { SplitUnlines(ls, rest); }
      assert whole == l + ['\n'] + tail by { UnlinesCons(lines, rest); }
      assert Split(whole, '\n') == [l] + Split(tail, '\n') by { SplitCons(l, '\n', tail); }
      Regroup(lines, r);
    }
  }
}
