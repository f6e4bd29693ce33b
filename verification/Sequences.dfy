/** Sequence vocabulary shared by the models: prefixes, filtering and first occurrences. */
module Sequences {

  datatype Option<+T> = None | Some(value: T)

  function Take<T>(s: seq<T>, n: nat): seq<T> {
    if |s| <= n then s else s[..n]
  }

  function Filter<T>(keep: T -> bool, s: seq<T>): seq<T> {
    if s == [] then []
    else if keep(s[0]) then [s[0]] + Filter(keep, s[1..])
    else Filter(keep, s[1..])
  }

  lemma {:induction false} FilterMembers<T>(keep: T -> bool, s: seq<T>, x: T)
    ensures x in Filter(keep, s) <==> x in s && keep(x)
  {
    if s != [] {
      FilterMembers(keep, s[1..], x);
      assert s == [s[0]] + s[1..];
    }
  }

  ghost predicate Distinct<T>(s: seq<T>) {
    forall i, j :: 0 <= i < j < |s| ==> s[i] != s[j]
  }

  /** The elements of `s` without their repeats, each where it first appears. */
  function Dedup<T(==)>(s: seq<T>): seq<T> {
    if s == [] then []
    else
      var d := Dedup(s[..|s| - 1]);
      var x := s[|s| - 1];
      if x in d then d else d + [x]
  }

  lemma {:induction false} DedupMembers<T>(s: seq<T>, x: T)
    ensures x in Dedup(s) <==> x in s
  {
    if s != [] {
      DedupMembers(s[..|s| - 1], x);
      assert s == s[..|s| - 1] + [s[|s| - 1]];
    }
  }

  lemma {:induction false} DedupIsDistinct<T>(s: seq<T>)
    ensures Distinct(Dedup(s))
  {
    if s != [] {
      DedupIsDistinct(s[..|s| - 1]);
    }
  }

  /** The position at which `x` first appears in `s`. */
  function FirstIndex<T(==)>(s: seq<T>, x: T): (i: nat)
    requires x in s
    ensures i < |s| && s[i] == x && x !in s[..i]
  {
    if s[0] == x then 0
    else
      assert s == [s[0]] + s[1..];
      1 + FirstIndex(s[1..], x)
  }

  /** `d` lists each element of `s` once, ordered by where it first appears. */
  ghost predicate FirstOccurrences<T(!new)>(s: seq<T>, d: seq<T>) {
    && Distinct(d)
    && (forall x :: x in d <==> x in s)
    && (forall i, j :: 0 <= i < j < |d| ==> FirstIndex(s, d[i]) < FirstIndex(s, d[j]))
  }

  lemma FirstIndexInPrefix<T(!new)>(s: seq<T>, t: seq<T>, x: T)
    requires x in s
    ensures x in s + t && FirstIndex(s + t, x) == FirstIndex(s, x)
  {
    var i := FirstIndex(s, x);
    assert (s + t)[i] == x;
    assert (s + t)[..i] == s[..i];
  }

  lemma {:induction false} DedupIsFirstOccurrences<T(!new)>(s: seq<T>)
    ensures FirstOccurrences(s, Dedup(s))
  {
    DedupIsDistinct(s);
    forall x ensures x in Dedup(s) <==> x in s {
      DedupMembers(s, x);
    }
    if s != [] {
      var s', x := s[..|s| - 1], s[|s| - 1];
      assert s == s' + [x];
      DedupIsFirstOccurrences(s');
      var d', d := Dedup(s'), Dedup(s);
      forall i, j | 0 <= i < j < |d| ensures FirstIndex(s, d[i]) < FirstIndex(s, d[j]) {
        FirstIndexInPrefix(s', [x], d[i]);
        if j < |d'| {
          FirstIndexInPrefix(s', [x], d[j]);
        } else {
          assert d[j] == x && x !in s';
          assert FirstIndex(s, x) >= |s'|;
        }
      }
    }
  }

  ghost predicate Agree<T>(d: seq<T>, e: seq<T>, m: nat) {
    m <= |d| && m <= |e| && forall k :: 0 <= k < m ==> d[k] == e[k]
  }

  /** A list with the same elements as `e`, and the same first ones, has the next one further on. */
  lemma NextIsFurtherOn<T>(d: seq<T>, e: seq<T>, m: nat) returns (j: nat)
    requires Distinct(e) && Agree(d, e, m) && m < |e| && e[m] in d
    ensures m <= j < |d| && d[j] == e[m]
  {
    j :| 0 <= j < |d| && d[j] == e[m];
  }

  /** What comes next in `d` appears no later than what comes next in a list that agrees with it so far. */
  lemma NextAppearsFirst<T(!new)>(s: seq<T>, d: seq<T>, e: seq<T>, m: nat)
    requires FirstOccurrences(s, d) && FirstOccurrences(s, e) && Agree(d, e, m) && m < |e|
    ensures m < |d| && e[m] in s && d[m] in s && FirstIndex(s, d[m]) <= FirstIndex(s, e[m])
  {
    assert e[m] in e;
    var j := NextIsFurtherOn(d, e, m);
    assert d[m] in d;
  }

  lemma {:induction false} FirstOccurrencesPrefix<T(!new)>(s: seq<T>, d: seq<T>, e: seq<T>, n: nat)
    requires FirstOccurrences(s, d) && FirstOccurrences(s, e) && n <= |d|
    ensures Agree(d, e, n)
  {
    if n > 0 {
      var m := n - 1;
      FirstOccurrencesPrefix(s, d, e, m);
      NextAppearsFirst(s, e, d, m);
      NextAppearsFirst(s, d, e, m);
    }
  }

  /** Order of first appearance determines the list: any two such lists are equal. */
  lemma FirstOccurrencesUnique<T(!new)>(s: seq<T>, d: seq<T>, e: seq<T>)
    requires FirstOccurrences(s, d) && FirstOccurrences(s, e)
    ensures d == e
  {
    FirstOccurrencesPrefix(s, d, e, |d|);
    FirstOccurrencesPrefix(s, e, d, |e|);
  }

  lemma TailOf<T>(x: T, t: seq<T>)
    ensures ([x] + t)[0] == x && ([x] + t)[1..] == t
    ensures |t| > 0 ==> ([x] + t)[2..] == t[1..]
  {
  }

  lemma InitOf<T>(x: T, t: seq<T>)
    requires t != []
    ensures ([x] + t)[..|t|] == [x] + t[..|t| - 1] && ([x] + t)[|t|] == t[|t| - 1]
  {
  }

  lemma DropDrop<T>(s: seq<T>, m: nat, n: nat)
    requires m + n <= |s|
    ensures s[m..][n..] == s[m + n..]
  {
  }

  lemma DropSnoc<T>(s: seq<T>, x: T, n: nat)
    requires n <= |s|
    ensures (s + [x])[n..] == s[n..] + [x]
  {
  }

  lemma Regroup<T>(s: seq<T>, t: seq<T>)
    requires s != []
    ensures [s[0]] + (s[1..] + t) == s + t
  {
  }

  lemma {:induction false} FilterAppend<T(!new)>(keep: T -> bool, s: seq<T>, t: seq<T>)
    ensures Filter(keep, s + t) == Filter(keep, s) + Filter(keep, t)
  {
    if s == [] {
      assert s + t == t;
    } else {
      assert (s + t)[1..] == s[1..] + t;
      FilterAppend(keep, s[1..], t);
    }
  }

  lemma {:induction false} FilterAll<T(!new)>(keep: T -> bool, s: seq<T>)
    requires forall x :: x in s ==> keep(x)
    ensures Filter(keep, s) == s
  {
    if s != [] {
      assert s[0] in s;
      FilterAll(keep, s[1..]);
    }
  }

  /** Reading further only ever appends to the deduplicated list. */
  lemma {:induction false} DedupPrefix<T(!new)>(s: seq<T>, t: seq<T>)
    ensures Dedup(s) <= Dedup(s + t)
  {
    if t == [] {
      assert s + t == s;
    } else {
      var t', x := t[..|t| - 1], t[|t| - 1];
      assert (s + t)[..|s + t| - 1] == s + t';
      DedupPrefix(s, t');
    }
  }

  lemma DedupSnoc<T(!new)>(s: seq<T>, x: T)
    ensures Dedup(s + [x]) == if x in s then Dedup(s) else Dedup(s) + [x]
  {
    assert (s + [x])[..|s + [x]| - 1] == s;
    DedupMembers(s, x);
  }

  lemma {:induction false} DedupDistinct<T(!new)>(s: seq<T>)
    requires Distinct(s)
    ensures Dedup(s) == s
  {
    if s != [] {
      var s' := s[..|s| - 1];
      DedupDistinct(s');
      DedupMembers(s', s[|s| - 1]);
      assert s == s' + [s[|s| - 1]];
    }
  }

  lemma {:induction false} DedupLength<T(!new)>(s: seq<T>)
    ensures |Dedup(s)| <= |s|
    ensures |Dedup(s)| == |s| <==> Distinct(s)
  {
    if s != [] {
      var s', x := s[..|s| - 1], s[|s| - 1];
      assert s == s' + [x];
      DedupLength(s');
      DedupMembers(s', x);
      if x in s' {
        var i :| 0 <= i < |s'| && s'[i] == x;
        assert s[i] == s[|s| - 1];
      }
    }
  }

  lemma {:induction false} FilterLength<T(!new)>(keep: T -> bool, s: seq<T>)
    ensures |Filter(keep, s)| <= |s|
    ensures |Filter(keep, s)| == |s| ==> forall x :: x in s ==> keep(x)
  {
    if s != [] {
      FilterLength(keep, s[1..]);
    }
  }
}
