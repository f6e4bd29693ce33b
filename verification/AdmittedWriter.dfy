/** `admitted_save`: the temporary file, its flush to the medium, and the rename that publishes it. */
module AdmittedWriter {
  import opened Protocol
  import opened Sequences
  import opened Text
  import opened AdmittedFormat
  import opened CrashDisk
  import AdmittedReader

  const TMP_PATH_LEN: nat := 600

  function TmpPath(path: string): string {
    path + ".tmp"
  }

  /** Whatever a power loss in state `a` could bring back, one in state `s` still can. */
  ghost predicate ReadsRemain(a: DiskState, s: DiskState, path: string)
    requires WellFormed(a) && WellFormed(s)
  {
    forall r :: MayRead(a, path, r) ==> MayRead(s, path, r)
  }

  /** In state `s`, reached from `a`, `path` is as it was, now and after a power loss. */
  ghost predicate Untouched(a: DiskState, s: DiskState, path: string)
    requires WellFormed(a) && WellFormed(s)
  {
    && Visible(s, path) == Visible(a, path)
    && ReadsRemain(a, s, path)
    && ReadsRemain(s, a, path)
  }

  /**
   * In state `s`, reached from `a`, `path` holds `text`; a power loss may still bring back all that
   * it could in `a`, and nothing else but `text`.
   */
  ghost predicate Published(a: DiskState, s: DiskState, path: string, text: string)
    requires WellFormed(a) && WellFormed(s)
  {
    && Visible(s, path) == Some(text)
    && ReadsRemain(a, s, path)
    && forall r :: MayRead(s, path, r) ==> MayRead(a, path, r) || r == Some(text)
  }

  /**
   * In state `s`, reached from `a`, `path` holds the old bytes or the complete new ones, now and
   * after a power loss.
   */
  ghost predicate CrashSafe(a: DiskState, s: DiskState, path: string, text: string)
    requires WellFormed(a)
  {
    && WellFormed(s)
    && Separate(s, path, TmpPath(path))
    && (Settled(a, path) ==> Settled(s, path))
    && (Untouched(a, s, path) || Published(a, s, path, text))
  }

  /** While the new file is written: only it changed, and it is not reachable under `path`. */
  ghost predicate Writing(a: DiskState, s: DiskState, path: string, tmp: string, ino: nat) {
    && WellFormed(a) && WellFormed(s) && ino in s.inodes
    && Separate(s, path, tmp) && tmp in Current(s) && Current(s)[tmp] == ino
    && Untouched(a, s, path)
    && (Settled(a, path) ==> Settled(s, path))
  }

  /** Directories that are kept, with the bytes they have for `path`, can still be found after a power loss. */
  lemma KeptReads(a: DiskState, s: DiskState, path: string)
    requires WellFormed(a) && WellFormed(s) && a.dirs <= s.dirs
    requires forall k :: 0 <= k < |a.dirs| && path in a.dirs[k] ==>
               a.dirs[k][path] in s.inodes && s.inodes[a.dirs[k][path]] == a.inodes[a.dirs[k][path]]
    ensures ReadsRemain(a, s, path)
  {
    forall r | MayRead(a, path, r) ensures MayRead(s, path, r) {
      var k :| 0 <= k < |a.dirs| && MayReadIn(a, k, path, r);
      assert MayReadIn(s, k, path, r);
    }
  }

  lemma WritingStep(a: DiskState, s: DiskState, s': DiskState, path: string, tmp: string, ino: nat)
    requires Writing(a, s, path, tmp, ino) && WellFormed(s') && OnlyFile(s, s', ino)
    ensures Writing(a, s', path, tmp, ino)
  {
    KeptReads(s, s', path);
    KeptReads(s', s, path);
  }

  lemma OpenedIsWriting(a: DiskState, s: DiskState, path: string, tmp: string, ino: nat)
    requires WellFormed(a) && WellFormed(s) && Separate(a, path, tmp)
    requires tmp in Current(s) && Current(s)[tmp] == ino && ino in s.inodes
    requires if tmp in Current(a) then ino == Current(a)[tmp] && OnlyFile(a, s, ino)
             else ino !in a.inodes && s.dirs == a.dirs + [Current(a)[tmp := ino]]
                  && s.inodes.Keys == a.inodes.Keys + {ino}
                  && forall j :: j in a.inodes ==> s.inodes[j] == a.inodes[j]
    ensures Writing(a, s, path, tmp, ino)
  {
    KeptReads(a, s, path);
    forall r | MayRead(s, path, r) ensures MayRead(a, path, r) {
      var k :| 0 <= k < |s.dirs| && MayReadIn(s, k, path, r);
      assert MayReadIn(a, if k < |a.dirs| then k else |a.dirs| - 1, path, r);
    }
  }

  lemma UnlinkedIsUntouched(a: DiskState, s: DiskState, s': DiskState, path: string, tmp: string, ino: nat)
    requires Writing(a, s, path, tmp, ino) && WellFormed(s') && s'.inodes == s.inodes
    requires s'.dirs == s.dirs || s'.dirs == s.dirs + [Current(s) - {tmp}]
    ensures Untouched(a, s', path) && Separate(s', path, tmp)
    ensures Settled(a, path) ==> Settled(s', path)
  {
    KeptReads(s, s', path);
    forall r | MayRead(s', path, r) ensures MayRead(s, path, r) {
      var k :| 0 <= k < |s'.dirs| && MayReadIn(s', k, path, r);
      assert MayReadIn(s, if k < |s.dirs| then k else |s.dirs| - 1, path, r);
    }
  }

  lemma RenamedIsNew(a: DiskState, s: DiskState, s': DiskState, path: string, tmp: string, ino: nat, text: string)
    requires Writing(a, s, path, tmp, ino) && WellFormed(s') && s'.inodes == s.inodes
    requires s'.dirs == s.dirs + [Current(s)[path := ino] - {tmp}]
    requires s.inodes[ino] == Inode(text, true)
    ensures Published(a, s', path, text) && Separate(s', path, tmp)
    ensures Settled(a, path) ==> Settled(s', path)
  {
    KeptReads(s, s', path);
    forall r | MayRead(s', path, r) ensures MayRead(s, path, r) || r == Some(text) {
      var k :| 0 <= k < |s'.dirs| && MayReadIn(s', k, path, r);
      if k < |s.dirs| {
        assert MayReadIn(s, k, path, r);
      }
    }
  }

  ghost predicate AllWriting(a: DiskState, trace: seq<DiskState>, from: nat, path: string, tmp: string, ino: nat) {
    forall k :: from <= k < |trace| ==> Writing(a, trace[k], path, tmp, ino)
  }

  lemma WritingTrace(a: DiskState, s: DiskState, trace: seq<DiskState>, from: nat, path: string, tmp: string, ino: nat)
    requires Writing(a, s, path, tmp, ino) && FileSteps(s, trace, from, ino)
    ensures AllWriting(a, trace, from, path, tmp, ino)
  {
    forall k | from <= k < |trace| ensures Writing(a, trace[k], path, tmp, ino) {
      WritingStep(a, s, trace[k], path, tmp, ino);
    }
  }

  /** One turn of the writing loop: a new valid name is printed and remembered. */
  method WriteName(f: OutFile, host: string, seen: array<string>, nseen: nat) returns (ok: bool, nseen': nat)
    requires f.Valid() && nseen < seen.Length
    modifies f, f.disk, seen
    ensures f.Valid()
    ensures old(f.disk.faults) <= f.disk.faults && (ok <==> f.disk.faults == old(f.disk.faults))
    ensures var add := IsHostname(host) && host !in old(seen[..nseen]);
            ok ==>
              && nseen' == (if add then nseen + 1 else nseen)
              && seen[..nseen'] == old(seen[..nseen]) + (if add then [host] else [])
              && f.Contents() == old(f.Contents()) + (if add then host + ['\n'] else "")
  {
    var valid := AdmittedReader.ValidHostname(Some(host));
    if !valid {
      return true, nseen;
    }
    var have := AdmittedReader.AlreadyHave(seen, nseen, host);
    if have {
      return true, nseen;
    }
    ok := f.Print(host + ['\n']);
    if !ok {
      return false, nseen;
    }
    seen[nseen] := host;
    return true, nseen + 1;
  }

  lemma NameWritten(start: string, hosts: seq<string>, i: nat)
    requires i < |hosts|
    ensures var names, host := Names(hosts[..i]), hosts[i];
            var add := IsHostname(host) && host !in names;
            && Names(hosts[..i + 1]) == names + (if add then [host] else [])
            && start + Unlines(Names(hosts[..i + 1])) ==
               (start + Unlines(names)) + (if add then host + ['\n'] else "")
  {
    assert hosts[..i + 1] == hosts[..i] + [hosts[i]];
    NamesSnoc(hosts[..i], hosts[i]);
    UnlinesSnoc(Names(hosts[..i]), hosts[i]);
  }

  /** Stopping at the end of the list or with a full file, what was written is what should be. */
  lemma WrittenPrefix(hosts: seq<string>, i: nat, names: seq<string>)
    requires i <= |hosts| && names == Names(hosts[..i]) && |names| <= MAX_CLIENTS
    requires i == |hosts| || |names| == MAX_CLIENTS
    ensures Written(hosts) == names
  {
    assert hosts == hosts[..i] + hosts[i..];
    NamesPrefix(hosts[..i], hosts[i..]);
    if i == |hosts| {
      assert hosts[..i] == hosts;
    }
  }

  /** One section's names, validated and deduplicated on the way out. */
  method WriteNames(f: OutFile, hosts: seq<string>) returns (ok: bool)
    requires f.Valid()
    modifies f, f.disk
    ensures f.Valid()
    ensures old(f.disk.faults) <= f.disk.faults && (ok <==> f.disk.faults == old(f.disk.faults))
    ensures ok ==> f.Contents() == old(f.Contents()) + Unlines(Written(hosts))
  {
    ghost var start := f.Contents();
    var seen := new string[MAX_CLIENTS];
    var i, nseen := 0, 0;
    while i < |hosts| && nseen < MAX_CLIENTS
      invariant 0 <= i <= |hosts| && 0 <= nseen <= MAX_CLIENTS
      invariant f.Valid() && f.disk.faults == old(f.disk.faults)
      invariant seen[..nseen] == Names(hosts[..i])
      invariant f.Contents() == start + Unlines(Names(hosts[..i]))
    {
      NameWritten(start, hosts, i);
      ok, nseen := WriteName(f, hosts[i], seen, nseen);
      if !ok {
        return;
      }
      i := i + 1;
    }
    WrittenPrefix(hosts, i, seen[..nseen]);
    return true;
  }

  lemma TextFromParts(hosts: seq<string>, net: seq<string>)
    ensures var a, b := Unlines(Written(hosts)), Unlines(Written(net));
            SavedText(hosts, net) == if |net| > 0 then a + "[net]\n" + b else a
  {
  }

  /** Both sections into the stream. */
  method WriteSections(f: OutFile, hosts: seq<string>, net: seq<string>)
    returns (ok: bool)
    requires f.Valid() && f.Contents() == ""
    modifies f, f.disk
    ensures f.Valid()
    ensures old(f.disk.faults) <= f.disk.faults && (ok <==> f.disk.faults == old(f.disk.faults))
    ensures ok ==> f.Contents() == SavedText(hosts, net)
  {
    ghost var a, b := Unlines(Written(hosts)), Unlines(Written(net));
    TextFromParts(hosts, net);
    ok := WriteNames(f, hosts);
    assert ok ==> f.Contents() == a;
    if ok && |net| > 0 {
      ok := f.Print("[net]\n");
      if ok {
        ok := WriteNames(f, net);
        assert ok ==> f.Contents() == a + "[net]\n" + b;
      }
    }
  }

  /** Flush, then sync: what is on its way becomes the certain contents of the file. */
  method MakeDurable(f: OutFile) returns (ok: bool)
    requires f.Valid()
    modifies f, f.disk
    ensures f.Valid()
    ensures old(f.disk.faults) <= f.disk.faults && (ok <==> f.disk.faults == old(f.disk.faults))
    ensures ok ==> f.pending == "" && f.disk.st.inodes[f.ino] == Inode(old(f.Contents()), true)
  {
    ok := f.Flush();
    if ok {
      ok := f.Sync();
    }
  }

  /** Everything done with the open stream: print, make durable, close. */
  method Fill(f: OutFile, hosts: seq<string>, net: seq<string>) returns (ok: bool)
    requires f.Valid() && f.Contents() == ""
    modifies f, f.disk
    ensures f.Valid()
    ensures old(f.disk.faults) <= f.disk.faults && (ok <==> f.disk.faults == old(f.disk.faults))
    ensures ok ==> f.disk.st.inodes[f.ino] == Inode(SavedText(hosts, net), true)
  {
    ok := WriteSections(f, hosts, net);
    if ok {
      ok := MakeDurable(f);
    }
    var closed := f.Close();
    if !closed {
      ok := false;
    }
  }

  /**
   * What a save that started in state `a` and visited `states` promises: at every step, whatever
   * failed and wherever power is lost, `path` holds the old bytes or the complete new ones; a
   * failed save leaves it untouched, a successful one has replaced it.
   */
  ghost predicate SaveContract(a: DiskState, s: DiskState, states: seq<DiskState>, path: string, text: string, ok: bool)
    requires WellFormed(a) && WellFormed(s)
  {
    && CrashSafe(a, s, path, text)
    && (if ok then Published(a, s, path, text) else Untouched(a, s, path))
    && forall k :: 0 <= k < |states| ==> CrashSafe(a, states[k], path, text)
  }

  lemma NothingDone(a: DiskState, path: string, text: string)
    requires WellFormed(a) && Separate(a, path, TmpPath(path))
    ensures SaveContract(a, a, [], path, text, false)
    ensures SaveContract(a, a, [a], path, text, false)
  {
  }

  lemma AbandonedIsUntouched(a: DiskState, s: DiskState, s': DiskState, states: seq<DiskState>, path: string,
                             ino: nat, text: string)
    requires Writing(a, s, path, TmpPath(path), ino) && WellFormed(s') && s'.inodes == s.inodes
    requires s'.dirs == s.dirs || s'.dirs == s.dirs + [Current(s) - {TmpPath(path)}]
    requires AllWriting(a, states, 0, path, TmpPath(path), ino)
    ensures SaveContract(a, s', states + [s'], path, text, false)
  {
    UnlinkedIsUntouched(a, s, s', path, TmpPath(path), ino);
  }

  lemma RenamedIsSaved(a: DiskState, s: DiskState, s': DiskState, states: seq<DiskState>, path: string,
                       ino: nat, text: string)
    requires Writing(a, s, path, TmpPath(path), ino) && WellFormed(s') && s'.inodes == s.inodes
    requires s'.dirs == s.dirs + [Current(s)[path := ino] - {TmpPath(path)}]
    requires s.inodes[ino] == Inode(text, true)
    requires AllWriting(a, states, 0, path, TmpPath(path), ino)
    ensures SaveContract(a, s', states + [s'], path, text, true)
  {
    RenamedIsNew(a, s, s', path, TmpPath(path), ino, text);
  }

  /** Opening, writing, syncing and closing the temporary file. */
  method WriteTmp(disk: Disk, tmp: string, hosts: seq<string>, net: seq<string>,
                  ghost path: string)
    returns (started: bool, ok: bool, ghost ino: nat)
    requires WellFormed(disk.st) && Separate(disk.st, path, tmp) && tmp != ""
    modifies disk
    ensures WellFormed(disk.st) && old(disk.trace) < disk.trace
    ensures old(disk.faults) <= disk.faults && (ok <==> disk.faults == old(disk.faults))
    ensures !started ==> !ok && disk.st == old(disk.st) && disk.trace == old(disk.trace) + [disk.st]
    ensures started ==> Writing(old(disk.st), disk.st, path, tmp, ino)
    ensures started ==> AllWriting(old(disk.st), disk.trace, |old(disk.trace)|, path, tmp, ino)
    ensures ok ==> disk.st.inodes[ino] == Inode(SavedText(hosts, net), true)
  {
    ghost var a := disk.st;
    var f := disk.OpenForWriting(tmp);
    if f == null {
      return false, false, 0;
    }
    started, ino := true, f.ino;
    ghost var s, from := disk.st, |disk.trace|;
    OpenedIsWriting(a, s, path, tmp, ino);
    ok := Fill(f, hosts, net);
    WritingStep(a, s, disk.st, path, tmp, ino);
    WritingTrace(a, s, disk.trace, from, path, tmp, ino);
  }

  /** The temporary file is removed, as far as that works. */
  method Abandon(disk: Disk, path: string, ghost a: DiskState, ghost from: nat, ghost ino: nat, ghost text: string)
    requires Writing(a, disk.st, path, TmpPath(path), ino)
    requires from <= |disk.trace| && AllWriting(a, disk.trace[from..], 0, path, TmpPath(path), ino)
    modifies disk
    ensures WellFormed(disk.st) && old(disk.trace) <= disk.trace && old(disk.faults) <= disk.faults
    ensures SaveContract(a, disk.st, disk.trace[from..], path, text, false)
  {
    ghost var s, trace := disk.st, disk.trace;
    disk.Unlink(TmpPath(path));
    DropSnoc(trace, disk.st, from);
    AbandonedIsUntouched(a, s, disk.st, trace[from..], path, ino, text);
  }

  /** The rename that makes the new file visible, or the removal of the temporary file. */
  method Publish(disk: Disk, path: string, ghost a: DiskState, ghost from: nat, ghost ino: nat, ghost text: string)
    returns (ok: bool)
    requires Writing(a, disk.st, path, TmpPath(path), ino) && path != ""
    requires disk.st.inodes[ino] == Inode(text, true)
    requires from <= |disk.trace| && AllWriting(a, disk.trace[from..], 0, path, TmpPath(path), ino)
    modifies disk
    ensures WellFormed(disk.st) && old(disk.trace) <= disk.trace
    ensures old(disk.faults) <= disk.faults && (ok <==> disk.faults == old(disk.faults))
    ensures SaveContract(a, disk.st, disk.trace[from..], path, text, ok)
  {
    ghost var s, trace := disk.st, disk.trace;
    ok := disk.Rename(TmpPath(path), path);
    DropSnoc(trace, disk.st, from);
    if ok {
      RenamedIsSaved(a, s, disk.st, trace[from..], path, ino, text);
    } else {
      Abandon(disk, path, a, from, ino, text);
    }
  }

  /** From opening the temporary file to publishing or abandoning it. */
  method Replace(disk: Disk, path: string, hosts: seq<string>, net: seq<string>)
    returns (ok: bool)
    requires WellFormed(disk.st) && Separate(disk.st, path, TmpPath(path)) && path != ""
    modifies disk
    ensures WellFormed(disk.st) && old(disk.trace) < disk.trace
    ensures old(disk.faults) <= disk.faults && (ok <==> disk.faults == old(disk.faults))
    ensures SaveContract(old(disk.st), disk.st, disk.trace[|old(disk.trace)|..], path,
                         SavedText(hosts, net), ok)
  {
    ghost var a, from := disk.st, |disk.trace|;
    ghost var text := SavedText(hosts, net);
    var started, written;
    ghost var ino;
    started, written, ino := WriteTmp(disk, TmpPath(path), hosts, net, path);
    if !started {
      NothingDone(a, path, text);
      assert disk.trace[from..] == [a];
      return false;
    }
    if written {
      ok := Publish(disk, path, a, from, ino, text);
    } else {
      Abandon(disk, path, a, from, ino, text);
      ok := false;
    }
  }

  /** The arguments with which a save does not even start; a path of 596 characters leaves no room for the suffix. */
  predicate Refused(path: Option<string>, hosts: Option<seq<string>>, count: int,
                    net: Option<seq<string>>, netCount: int)
  {
    || path.None? || path.value == ""
    || count < 0 || netCount < 0
    || (count > 0 && hosts.None?) || (netCount > 0 && net.None?)
    || |path.value| >= 596
  }

  /** `admitted_save`. */
  method Save(disk: Disk, path: Option<string>, hosts: Option<seq<string>>, count: int,
              net: Option<seq<string>>, netCount: int)
    returns (ok: bool)
    requires hosts.Some? ==> count <= |hosts.value|
    requires net.Some? ==> netCount <= |net.value|
    requires WellFormed(disk.st) && (path.Some? ==> Separate(disk.st, path.value, TmpPath(path.value)))
    modifies disk
    ensures WellFormed(disk.st) && old(disk.trace) <= disk.trace
    ensures Refused(path, hosts, count, net, netCount) ==>
              disk.st == old(disk.st) && disk.trace == old(disk.trace) && disk.faults == old(disk.faults)
    ensures !Refused(path, hosts, count, net, netCount) ==> old(disk.trace) < disk.trace
    ensures ok <==> !Refused(path, hosts, count, net, netCount) && disk.faults == old(disk.faults)
    ensures !Refused(path, hosts, count, net, netCount) ==>
              SaveContract(old(disk.st), disk.st, disk.trace[|old(disk.trace)|..], path.value,
                           SavedText(if count > 0 then hosts.value[..count] else [],
                                     if netCount > 0 then net.value[..netCount] else []), ok)
  {
    if path.None? || path.value == "" {
      return false;
    }
    if count < 0 || netCount < 0 {
      return false;
    }
    if (count > 0 && hosts.None?) || (netCount > 0 && net.None?) {
      return false;
    }
    if |TmpPath(path.value)| >= TMP_PATH_LEN {
      return false;
    }
    var names := if count > 0 then hosts.value[..count] else [];
    var netNames := if netCount > 0 then net.value[..netCount] else [];
    ok := Replace(disk, path.value, names, netNames);
  }
}
