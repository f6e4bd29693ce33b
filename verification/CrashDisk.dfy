/**
 * A disk that can lose power. Directory changes reach the medium at an unknown later time, so any
 * directory since start-up may be the one found after a power loss; a file's bytes are certain
 * only if nothing was written to it since its last `fsync`.
 */
module CrashDisk {
  import opened Sequences

  datatype Inode = Inode(data: string, synced: bool)

  /** `dirs` lists every state of the directory since start-up; the last one is current. */
  datatype DiskState = DiskState(dirs: seq<map<string, nat>>, inodes: map<nat, Inode>)

  ghost predicate WellFormed(d: DiskState) {
    && |d.dirs| > 0
    && (forall k :: 0 <= k < |d.dirs| ==> "" !in d.dirs[k])
    && forall k, name :: 0 <= k < |d.dirs| && name in d.dirs[k] ==> d.dirs[k][name] in d.inodes
  }

  function Current(d: DiskState): map<string, nat>
    requires |d.dirs| > 0
  {
    d.dirs[|d.dirs| - 1]
  }

  /** What a process reads at `path` now; None when there is no such file. */
  function Visible(d: DiskState, path: string): Option<string>
    requires WellFormed(d)
  {
    if path in Current(d) then Some(d.inodes[Current(d)[path]].data) else None
  }

  /** Reading `path` may yield `r` after a power loss that leaves directory `k` on the medium. */
  ghost predicate MayReadIn(d: DiskState, k: nat, path: string, r: Option<string>)
    requires WellFormed(d) && k < |d.dirs|
  {
    if path !in d.dirs[k] then r == None
    else r.Some? && (d.inodes[d.dirs[k][path]].synced ==> r.value == d.inodes[d.dirs[k][path]].data)
  }

  /** Reading `path` may yield `r` if power is lost in state `d`. */
  ghost predicate MayRead(d: DiskState, path: string, r: Option<string>)
    requires WellFormed(d)
  {
    exists k :: 0 <= k < |d.dirs| && MayReadIn(d, k, path, r)
  }

  lemma VisibleMayBeRead(d: DiskState, path: string)
    requires WellFormed(d)
    ensures MayRead(d, path, Visible(d, path))
  {
    assert MayReadIn(d, |d.dirs| - 1, path, Visible(d, path));
  }

  /** The scratch file is not, and was never, another name of the file at `path`. */
  ghost predicate Separate(d: DiskState, path: string, tmp: string)
    requires WellFormed(d)
  {
    && path != tmp
    && (forall k :: 0 <= k < |d.dirs| && path in d.dirs[k] && tmp in d.dirs[k] ==>
          d.dirs[k][path] != d.dirs[k][tmp])
    && (tmp in Current(d) ==>
          forall k :: 0 <= k < |d.dirs| && path in d.dirs[k] ==> d.dirs[k][path] != Current(d)[tmp])
  }

  /** Whatever directory survives, the bytes at `path` are certain. */
  ghost predicate Settled(d: DiskState, path: string)
    requires WellFormed(d)
  {
    forall k :: 0 <= k < |d.dirs| && path in d.dirs[k] ==> d.inodes[d.dirs[k][path]].synced
  }

  /** From `a` to `b` nothing changed but the bytes of file `ino`. */
  ghost predicate OnlyFile(a: DiskState, b: DiskState, ino: nat) {
    && b.dirs == a.dirs
    && b.inodes.Keys == a.inodes.Keys
    && forall j :: j in a.inodes && j != ino ==> b.inodes[j] == a.inodes[j]
  }

  /** Every state visited since position `from` differs from `s` in the bytes of `ino` at most. */
  ghost predicate FileSteps(s: DiskState, trace: seq<DiskState>, from: nat, ino: nat) {
    forall k :: from <= k < |trace| ==> WellFormed(trace[k]) && OnlyFile(s, trace[k], ino)
  }

  ghost predicate OnlyFileSince(base: DiskState, past: seq<DiskState>, s: DiskState, trace: seq<DiskState>, ino: nat) {
    OnlyFile(base, s, ino) && past <= trace && FileSteps(base, trace, |past|, ino)
  }

  lemma {:induction false} UpperBoundExists(used: set<nat>)
    ensures exists b: nat :: b !in used && forall x :: x in used ==> x < b
  {
    if used == {} {
      assert 0 !in used;
    } else {
      var x :| x in used;
      UpperBoundExists(used - {x});
      var b: nat :| b !in used - {x} && forall y :: y in used - {x} ==> y < b;
      var c := if x < b then b else x + 1;
      assert forall y :: y in used ==> y == x || y in used - {x};
      assert c !in used;
    }
  }

  /** The disk: its state, every state it has been in, and how many calls have reported failure. */
  class Disk {
    var st: DiskState
    ghost var trace: seq<DiskState>
    ghost var faults: nat

    constructor (initial: DiskState)
      ensures st == initial && trace == []
    {
      st, trace, faults := initial, [], 0;
    }

    /** `fopen(name, "w")`: truncates or creates, or fails with null. */
    method OpenForWriting(name: string) returns (f: OutFile?)
      requires WellFormed(st) && name != ""
      modifies this
      ensures WellFormed(st) && trace == old(trace) + [st]
      ensures f == null ==> st == old(st)
      ensures faults == old(faults) + if f == null then 1 else 0
      ensures f != null ==>
                && fresh(f) && f.disk == this && f.pending == "" && f.Valid()
                && f.base == st && f.past == trace
                && name in Current(st) && Current(st)[name] == f.ino
                && st.inodes[f.ino].data == ""
                && (if name in Current(old(st))
                    then f.ino == Current(old(st))[name] && OnlyFile(old(st), st, f.ino)
                    else f.ino !in old(st).inodes
                         && st.dirs == old(st).dirs + [Current(old(st))[name := f.ino]]
                         && st.inodes.Keys == old(st).inodes.Keys + {f.ino}
                         && forall j :: j in old(st).inodes ==> st.inodes[j] == old(st).inodes[j])
    {
      var ok: bool := *;
      if !ok {
        trace, faults := trace + [st], faults + 1;
        return null;
      }
      if name in Current(st) {
        var ino := Current(st)[name];
        st := st.(inodes := st.inodes[ino := Inode("", false)]);
        trace := trace + [st];
        f := new OutFile(this, ino);
      } else {
        UpperBoundExists(st.inodes.Keys);
        var ino: nat :| ino !in st.inodes.Keys;
        st := DiskState(st.dirs + [Current(st)[name := ino]], st.inodes[ino := Inode("", false)]);
        trace := trace + [st];
        f := new OutFile(this, ino);
      }
    }

    method Rename(from: string, to: string) returns (ok: bool)
      requires WellFormed(st) && from in Current(st) && to != ""
      modifies this
      ensures WellFormed(st) && trace == old(trace) + [st] && st.inodes == old(st.inodes)
      ensures st.dirs == if ok then old(st.dirs) + [Current(old(st))[to := Current(old(st))[from]] - {from}]
                         else old(st.dirs)
      ensures faults == old(faults) + if ok then 0 else 1
    {
      ok := *;
      if ok {
        st := st.(dirs := st.dirs + [Current(st)[to := Current(st)[from]] - {from}]);
      } else {
        faults := faults + 1;
      }
      trace := trace + [st];
    }

    method Unlink(name: string)
      requires WellFormed(st)
      modifies this
      ensures WellFormed(st) && trace == old(trace) + [st] && st.inodes == old(st.inodes)
      ensures st.dirs == old(st.dirs) || st.dirs == old(st.dirs) + [Current(old(st)) - {name}]
      ensures faults >= old(faults)
    {
      var ok: bool := *;
      if ok {
        st := st.(dirs := st.dirs + [Current(st) - {name}]);
      } else {
        faults := faults + 1;
      }
      trace := trace + [st];
    }
  }

  /** Some number of bytes up to `n`: how far a write got is not the program's choice. */
  method AnyUpTo(n: nat) returns (k: nat)
    ensures k <= n
  {
    k :| 0 <= k <= n;
  }

  /**
   * A stdio stream open for writing: bytes not yet handed to the kernel are `pending`. Since it
   * was opened (in state `base`, after the states `past`), only its own file has changed.
   */
  class OutFile {
    const disk: Disk
    const ino: nat
    ghost const base: DiskState
    ghost const past: seq<DiskState>
    var pending: string

    constructor (disk: Disk, ino: nat)
      requires WellFormed(disk.st) && ino in disk.st.inodes
      ensures this.disk == disk && this.ino == ino && pending == "" && Valid()
      ensures base == disk.st && past == disk.trace
    {
      this.disk, this.ino, pending := disk, ino, "";
      base, past := disk.st, disk.trace;
    }

    ghost predicate Valid()
      reads this, disk
    {
      && WellFormed(disk.st) && ino in disk.st.inodes
      && OnlyFileSince(base, past, disk.st, disk.trace, ino)
    }

    /** Everything printed so far, whether or not it left the buffer. */
    ghost function Contents(): string
      requires Valid()
      reads this, disk
    {
      disk.st.inodes[ino].data + pending
    }

    /** Replaces this file's bytes on the disk and records the new state. */
    method Put(node: Inode)
      requires Valid()
      modifies disk
      ensures Valid() && disk.st == old(disk.st).(inodes := old(disk.st).inodes[ino := node])
      ensures disk.faults == old(disk.faults)
    {
      disk.st := disk.st.(inodes := disk.st.inodes[ino := node]);
      disk.trace := disk.trace + [disk.st];
    }

    /** Hands the first `n` pending bytes to the kernel. */
    method Drain(n: nat)
      requires Valid() && n <= |pending|
      modifies this, disk
      ensures Valid() && Contents() == old(Contents()) && pending == old(pending)[n..]
      ensures n == 0 ==> disk.st == old(disk.st)
      ensures disk.faults == old(disk.faults)
    {
      if n > 0 {
        Put(Inode(disk.st.inodes[ino].data + pending[..n], false));
        assert pending == pending[..n] + pending[n..];
      }
      pending := pending[n..];
    }

    /** `fprintf`: some of the buffer may reach the kernel, and the call may fail part-way. */
    method Print(s: string) returns (ok: bool)
      requires Valid()
      modifies this, disk
      ensures Valid()
      ensures ok ==> Contents() == old(Contents()) + s
      ensures disk.faults == old(disk.faults) + if ok then 0 else 1
    {
      ok := *;
      var buffered := AnyUpTo(|s|);
      pending := pending + if ok then s else s[..buffered];
      var n := AnyUpTo(|pending|);
      Drain(n);
      disk.faults := disk.faults + if ok then 0 else 1;
    }

    method Flush() returns (ok: bool)
      requires Valid()
      modifies this, disk
      ensures Valid()
      ensures ok ==> pending == "" && disk.st.inodes[ino].data == old(Contents())
      ensures disk.faults == old(disk.faults) + if ok then 0 else 1
    {
      ok := *;
      var n := AnyUpTo(|pending|);
      Drain(if ok then |pending| else n);
      disk.faults := disk.faults + if ok then 0 else 1;
    }

    /** `fsync` on the descriptor: certain bytes on success, no promise on failure. */
    method Sync() returns (ok: bool)
      requires Valid()
      modifies disk
      ensures Valid() && disk.st.inodes[ino].data == old(disk.st.inodes[ino].data)
      ensures ok ==> disk.st.inodes[ino].synced
      ensures disk.faults == old(disk.faults) + if ok then 0 else 1
    {
      ok := *;
      if ok {
        Put(disk.st.inodes[ino].(synced := true));
      } else {
        disk.faults := disk.faults + 1;
      }
    }

    /** `fclose`: flushes what is left, and may report an error even when nothing was. */
    method Close() returns (ok: bool)
      requires Valid()
      modifies this, disk
      ensures Valid()
      ensures old(pending) == "" ==> disk.st == old(disk.st)
      ensures disk.faults == old(disk.faults) + if ok then 0 else 1
    {
      ok := *;
      var n := AnyUpTo(|pending|);
      Drain(if ok then |pending| else n);
      disk.faults := disk.faults + if ok then 0 else 1;
    }
  }
}
