/** A file open for reading, as the C library presents it: a cursor and an end-of-file flag. */
module Stdio {
  import opened Sequences
  import opened Text

  /**
   * How many characters `fgets` takes from `rest` when the buffer has room for `room`:
   * the first line with its newline, the unterminated rest, or as much as fits.
   */
  function FgetsLength(rest: string, room: nat): (k: nat)
    ensures k <= |rest| && k <= room
  {
    var e := IndexOf(rest, '\n');
    if e >= room then room
    else if e < |rest| then e + 1
    else e
  }

  /** `fgets` asks for a character past the end exactly when it stops short of room and of a newline. */
  predicate FgetsHitsEof(rest: string, room: nat) {
    var e := IndexOf(rest, '\n');
    e == |rest| && e < room
  }

  /** Where the read loop of `fgets` stops is the length stated above. */
  lemma FgetsStopsAt(rest: string, room: nat, i: nat)
    requires 0 < i <= room && i <= |rest|
    requires rest[i - 1] == '\n' ==> '\n' !in rest[..i - 1]
    requires rest[i - 1] != '\n' ==> '\n' !in rest[..i] && (i == room || i == |rest|)
    ensures FgetsLength(rest, room) == i
    ensures FgetsHitsEof(rest, room) <==> rest[i - 1] != '\n' && i < room
  {
    if rest[i - 1] == '\n' {
      IndexOfIs(rest, '\n', i - 1);
    } else if i == |rest| {
      assert rest[..i] == rest;
      IndexOfIs(rest, '\n', i);
    }
  }

  class InputFile {
    const data: string
    var pos: nat
    var eof: bool

    ghost predicate Valid()
      reads this
    {
      pos <= |data|
    }

    ghost function Rest(): string
      requires Valid()
      reads this
    {
      data[pos..]
    }

    constructor (contents: string)
      ensures Valid() && data == contents && pos == 0 && !eof
    {
      data, pos, eof := contents, 0, false;
    }

    method Fgetc() returns (c: Option<char>)
      requires Valid()
      modifies this
      ensures Valid()
      ensures old(pos) < |data| ==> c == Some(data[old(pos)]) && pos == old(pos) + 1 && eof == old(eof)
      ensures old(pos) == |data| ==> c == None && pos == old(pos) && eof
    {
      if pos < |data| {
        c, pos := Some(data[pos]), pos + 1;
      } else {
        c, eof := None, true;
      }
    }

    method Fgets(buf: array<char>, size: nat) returns (ok: bool)
      requires Valid() && 2 <= size <= buf.Length
      modifies this, buf
      ensures Valid()
      ensures ok <==> old(pos) < |data|
      ensures !ok ==> pos == old(pos) && eof && buf[..] == old(buf[..])
      ensures ok ==>
                var rest := old(Rest());
                var k := FgetsLength(rest, size - 1);
                && pos == old(pos) + k
                && buf[..k] == rest[..k]
                && buf[k] == NUL
                && eof == (old(eof) || FgetsHitsEof(rest, size - 1))
    {
      ghost var rest := Rest();
      var start, i := pos, 0;
      var stop := false;
      while i < size - 1 && !stop
        invariant 0 <= i <= size - 1 && start == old(pos)
        invariant Valid() && pos == start + i
        invariant i > 0 ==> buf[..i] == rest[..i]
        invariant i == 0 ==> buf[..] == old(buf[..])
        invariant !stop ==> '\n' !in rest[..i] && eof == old(eof)
        invariant stop && !(i > 0 && rest[i - 1] == '\n') ==> '\n' !in rest[..i] && i == |rest| && i < size - 1 && eof
        invariant stop && i > 0 && rest[i - 1] == '\n' ==> '\n' !in rest[..i - 1] && eof == old(eof)
        decreases size - i, !stop
      {
        var c := Fgetc();
        if c.None? {
          stop := true;
        } else {
          buf[i] := c.value;
          stop := c.value == '\n';
          assert rest[i] == c.value;
          assert rest[..i + 1] == rest[..i] + [rest[i]];
          i := i + 1;
        }
      }
      ok := i > 0;
      if ok {
        buf[i] := NUL;
        FgetsStopsAt(rest, size - 1, i);
      }
    }
  }
}
