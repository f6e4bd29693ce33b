/**
 * The admitted sets over the life of the dashboard: what polls, failed saves, restarts and power
 * losses do to the two in-memory sets and to the file that outlives them.
 */
module Lifecycle {
  import opened Protocol
  import opened Sequences
  import opened AdmittedFormat
  import opened AdmittedSets
  import opened CrashDisk
  import opened AdmittedWriter

  // ---- The transition system ----

  datatype World = World(mem: Memory, disk: DiskState)

  /**
   * `Poll`: a connected poll that runs to its end, `saved` telling whether a save succeeded.
   * `CutPoll`: the process dies during the poll's save and is started again.
   * `Restart`: it dies between polls. `PowerLoss`: the machine does, in whatever state the disk is.
   */
  datatype Event =
    | Poll(published: seq<string>, live: seq<string>, saved: bool)
    | CutPoll(published: seq<string>, live: seq<string>)
    | Restart
    | PowerLoss

  /** A directory and bytes that the medium may hold when power goes in state `d`. */
  ghost predicate Survives(d: DiskState, d': DiskState)
    requires WellFormed(d)
  {
    && WellFormed(d') && |d'.dirs| == 1 && d'.dirs[0] in d.dirs
    && d'.inodes.Keys == d.inodes.Keys
    && forall i :: i in d.inodes ==>
         d'.inodes[i].synced && (d.inodes[i].synced ==> d'.inodes[i].data == d.inodes[i].data)
  }

  ghost predicate Step(path: string, w: World, e: Event, w': World) {
    && WellFormed(w.disk) && WellFormed(w'.disk)
    && match e
       case Poll(published, live, saved) =>
         var m := Observed(w.mem, published, live);
         && w'.mem == Clean(m)
         && (if Dirty(m)
             then SaveContract(w.disk, w'.disk, [], path, SavedBy(m), saved)
             else !saved && w'.disk == w.disk)
       case CutPoll(published, live) =>
         && CrashSafe(w.disk, w'.disk, path, SavedBy(Observed(w.mem, published, live)))
         && w'.mem == Boot(Visible(w'.disk, path))
       case Restart =>
         w'.disk == w.disk && w'.mem == Boot(Visible(w'.disk, path))
       case PowerLoss =>
         Survives(w.disk, w'.disk) && w'.mem == Boot(Visible(w'.disk, path))
  }

  /** The machine has just come up on some file contents, any at all, and the dashboard has started. */
  ghost predicate Init(path: string, w: World) {
    && WellFormed(w.disk) && Separate(w.disk, path, TmpPath(path)) && Settled(w.disk, path)
    && |w.disk.dirs| == 1
    && w.mem == Boot(Visible(w.disk, path))
  }

  ghost predicate Run(path: string, ws: seq<World>, es: seq<Event>) {
    && |ws| == |es| + 1 && Init(path, ws[0])
    && forall i :: 0 <= i < |es| ==> Step(path, ws[i], es[i], ws[i + 1])
  }

  // ---- The invariant ----

  /** Contents `r` name no host that contents `v` do not. */
  ghost predicate NamesWithin(r: Option<string>, v: Option<string>) {
    Subset(Persisted(r, ""), Persisted(v, "")) && Subset(Persisted(r, NET), Persisted(v, NET))
  }

  /**
   * Both sets fit, everything in the file is in memory, and whatever file a power loss could
   * bring back names no host that the current file does not.
   */
  ghost predicate Inv(path: string, w: World) {
    && WellFormed(w.disk) && Separate(w.disk, path, TmpPath(path)) && Settled(w.disk, path)
    && Bounded(w.mem.hosts) && Bounded(w.mem.net)
    && Subset(Persisted(Visible(w.disk, path), ""), w.mem.hosts)
    && Subset(Persisted(Visible(w.disk, path), NET), w.mem.net)
    && forall r :: MayRead(w.disk, path, r) ==> NamesWithin(r, Visible(w.disk, path))
  }

  // ---- Each step keeps the invariant ----

  /** Everything persisted before is in what a larger memory writes. */
  lemma SaveCovers(r: Option<string>, m: Memory)
    requires Bounded(m.hosts) && Bounded(m.net)
    requires Subset(Persisted(r, ""), m.hosts) && Subset(Persisted(r, NET), m.net)
    ensures NamesWithin(r, Some(SavedBy(m)))
    ensures Subset(Written(m.hosts), m.hosts) && Subset(Written(m.net), m.net)
  {
    SavedIsPersisted(m);
    WrittenMembers(m.hosts);
    WrittenMembers(m.net);
    LoadedFacts(r, "");
    LoadedFacts(r, NET);
  }

  /** A machine that has just come up can only read what it reads. */
  lemma FreshReads(d: DiskState, path: string, r: Option<string>)
    requires WellFormed(d) && |d.dirs| == 1 && Settled(d, path) && MayRead(d, path, r)
    ensures r == Visible(d, path)
  {
    var k :| 0 <= k < |d.dirs| && MayReadIn(d, k, path, r);
  }

  lemma InitInv(path: string, w: World)
    requires Init(path, w)
    ensures Inv(path, w)
  {
    var v := Visible(w.disk, path);
    BootRestores(v);
    LoadedFacts(v, "");
    LoadedFacts(v, NET);
    forall r | MayRead(w.disk, path, r) ensures NamesWithin(r, v) {
      FreshReads(w.disk, path, r);
    }
  }

  /** After a save that was completed, abandoned or cut short, the invariant holds for any memory that covers both. */
  lemma SaveKeepsInv(path: string, w: World, m: Memory, disk': DiskState)
    requires Inv(path, w) && Bounded(m.hosts) && Bounded(m.net)
    requires Subset(w.mem.hosts, m.hosts) && Subset(w.mem.net, m.net)
    requires CrashSafe(w.disk, disk', path, SavedBy(m))
    ensures Inv(path, World(m, disk'))
    ensures NamesWithin(Visible(w.disk, path), Visible(disk', path))
  {
    var old_, new_ := Visible(w.disk, path), Visible(disk', path);
    SaveCovers(old_, m);
    SavedIsPersisted(m);
    VisibleMayBeRead(w.disk, path);
    if !Untouched(w.disk, disk', path) {
      forall r | MayRead(disk', path, r) ensures NamesWithin(r, new_) {
        if MayRead(w.disk, path, r) {
          assert NamesWithin(r, old_);
        }
      }
    }
  }

  lemma BootKeepsInv(path: string, w: World)
    requires Inv(path, w)
    ensures Inv(path, World(Boot(Visible(w.disk, path)), w.disk))
  {
    var v := Visible(w.disk, path);
    BootRestores(v);
    LoadedFacts(v, "");
    LoadedFacts(v, NET);
  }

  lemma SurvivorIsFresh(path: string, tmp: string, d: DiskState, d': DiskState)
    requires WellFormed(d) && Separate(d, path, tmp) && Survives(d, d')
    ensures Separate(d', path, tmp) && Settled(d', path)
  {
    var k :| 0 <= k < |d.dirs| && d.dirs[k] == d'.dirs[0];
  }

  lemma SurvivorMayBeRead(d: DiskState, path: string, d': DiskState)
    requires WellFormed(d) && Survives(d, d')
    ensures MayRead(d, path, Visible(d', path))
  {
    var k :| 0 <= k < |d.dirs| && d.dirs[k] == d'.dirs[0];
    assert MayReadIn(d, k, path, Visible(d', path));
  }

  lemma PowerLossKeepsInv(path: string, w: World, disk': DiskState)
    requires Inv(path, w) && Survives(w.disk, disk')
    ensures Inv(path, World(Boot(Visible(disk', path)), disk'))
    ensures MayRead(w.disk, path, Visible(disk', path))
  {
    SurvivorIsFresh(path, TmpPath(path), w.disk, disk');
    SurvivorMayBeRead(w.disk, path, disk');
    InitInv(path, World(Boot(Visible(disk', path)), disk'));
  }

  lemma StepInv(path: string, w: World, e: Event, w': World)
    requires Inv(path, w) && Step(path, w, e, w')
    ensures Inv(path, w')
    ensures e != PowerLoss ==> NamesWithin(Visible(w.disk, path), Visible(w'.disk, path))
    ensures e == PowerLoss ==> MayRead(w.disk, path, Visible(w'.disk, path))
  {
    match e
    case Poll(published, live, saved) =>
      var m := Observed(w.mem, published, live);
      ObservedGrows(w.mem, published, live);
      if Dirty(m) {
        SaveKeepsInv(path, w, m, w'.disk);
      }
    case CutPoll(published, live) =>
      var m := Observed(w.mem, published, live);
      ObservedGrows(w.mem, published, live);
      SaveKeepsInv(path, w, m, w'.disk);
      BootKeepsInv(path, World(m, w'.disk));
    case Restart =>
      BootKeepsInv(path, w);
    case PowerLoss =>
      PowerLossKeepsInv(path, w, w'.disk);
  }

  // ---- Whole runs ----

  /** Every reachable world keeps the invariant: the file never names a host the memory has forgotten. */
  lemma {:induction false} Reachable(path: string, ws: seq<World>, es: seq<Event>, n: nat)
    requires Run(path, ws, es) && n <= |es|
    ensures Inv(path, ws[n])
  {
    if n == 0 {
      InitInv(path, ws[0]);
    } else {
      Reachable(path, ws, es, n - 1);
      StepInv(path, ws[n - 1], es[n - 1], ws[n]);
    }
  }

  lemma NamesWithinTransitive(a: Option<string>, b: Option<string>, c: Option<string>)
    requires NamesWithin(a, b) && NamesWithin(b, c)
    ensures NamesWithin(a, c)
  {
  }

  /** Without power loss the persisted sets never shrink, through failed saves, kills and restarts. */
  lemma {:induction false} NeverShrinks(path: string, ws: seq<World>, es: seq<Event>, i: nat, j: nat)
    requires Run(path, ws, es) && i <= j <= |es|
    requires forall k :: i <= k < j ==> es[k] != PowerLoss
    ensures WellFormed(ws[i].disk) && WellFormed(ws[j].disk)
    ensures NamesWithin(Visible(ws[i].disk, path), Visible(ws[j].disk, path))
  {
    Reachable(path, ws, es, i);
    Reachable(path, ws, es, j);
    if i < j {
      NeverShrinks(path, ws, es, i, j - 1);
      Reachable(path, ws, es, j - 1);
      StepInv(path, ws[j - 1], es[j - 1], ws[j]);
      NamesWithinTransitive(Visible(ws[i].disk, path), Visible(ws[j - 1].disk, path), Visible(ws[j].disk, path));
    }
  }

  /** Contents `r` are the file the machine came up with, or the complete output of one poll's save. */
  ghost predicate WholeFile(path: string, ws: seq<World>, es: seq<Event>, n: nat, r: Option<string>)
    requires Run(path, ws, es) && n <= |es|
  {
    || r == Visible(ws[0].disk, path)
    || exists j :: 0 <= j < n && (es[j].Poll? || es[j].CutPoll?) &&
         r == Some(SavedBy(Observed(ws[j].mem, es[j].published, es[j].live)))
  }

  lemma WhatSaveAdds(path: string, a: DiskState, s: DiskState, text: string, r: Option<string>)
    requires WellFormed(a) && CrashSafe(a, s, path, text) && MayRead(s, path, r)
    ensures MayRead(a, path, r) || r == Some(text)
  {
  }

  /** What a step can add to the files that a power loss may bring back. */
  lemma WhatStepAdds(path: string, w: World, e: Event, w': World, r: Option<string>)
    requires Inv(path, w) && Step(path, w, e, w') && MayRead(w'.disk, path, r)
    ensures || MayRead(w.disk, path, r)
            || ((e.Poll? || e.CutPoll?) && r == Some(SavedBy(Observed(w.mem, e.published, e.live))))
  {
    match e
    case Poll(published, live, saved) =>
      var m := Observed(w.mem, published, live);
      if Dirty(m) {
        WhatSaveAdds(path, w.disk, w'.disk, SavedBy(m), r);
      }
    case CutPoll(published, live) =>
      WhatSaveAdds(path, w.disk, w'.disk, SavedBy(Observed(w.mem, published, live)), r);
    case Restart =>
    case PowerLoss =>
      SurvivorIsFresh(path, TmpPath(path), w.disk, w'.disk);
      SurvivorMayBeRead(w.disk, path, w'.disk);
      FreshReads(w'.disk, path, r);
  }

  /** Only a power loss takes away any of the files that a power loss may bring back. */
  lemma WhatStepKeeps(path: string, w: World, e: Event, w': World)
    requires WellFormed(w.disk) && Step(path, w, e, w') && e != PowerLoss
    ensures ReadsRemain(w.disk, w'.disk, path)
  {
  }

  /**
   * Whatever the history of kills and power losses, and whenever power is lost next, what is then
   * read at `path` is a whole file: the original one or all of what some poll saved.
   */
  lemma {:induction false} NeverPartial(path: string, ws: seq<World>, es: seq<Event>, n: nat, r: Option<string>)
    requires Run(path, ws, es) && n <= |es|
    requires WellFormed(ws[n].disk) && MayRead(ws[n].disk, path, r)
    ensures WholeFile(path, ws, es, n, r)
  {
    if n == 0 {
      FreshReads(ws[0].disk, path, r);
    } else {
      var w, e := ws[n - 1], es[n - 1];
      Reachable(path, ws, es, n - 1);
      assert Step(path, w, e, ws[n]);
      WhatStepAdds(path, w, e, ws[n], r);
      if MayRead(w.disk, path, r) {
        NeverPartial(path, ws, es, n - 1, r);
      }
    }
  }

  /** A power loss invents no host: everything read afterwards was in the file just before. */
  lemma PowerLossInventsNothing(path: string, ws: seq<World>, es: seq<Event>, n: nat)
    requires Run(path, ws, es) && n < |es| && es[n] == PowerLoss
    ensures WellFormed(ws[n].disk) && WellFormed(ws[n + 1].disk)
    ensures NamesWithin(Visible(ws[n + 1].disk, path), Visible(ws[n].disk, path))
  {
    Reachable(path, ws, es, n);
    StepInv(path, ws[n], es[n], ws[n + 1]);
  }

  // ---- Saves that meet no failure ----

  /** The disk after a save in which every call succeeded: a new file, first under its temporary name. */
  function AfterSave(d: DiskState, path: string, ino: nat, text: string): DiskState
    requires |d.dirs| > 0
  {
    var created := Current(d)[TmpPath(path) := ino];
    DiskState(d.dirs + [created, created[path := ino] - {TmpPath(path)}], d.inodes[ino := Inode(text, true)])
  }

  lemma CompleteSave(d: DiskState, path: string, ino: nat, text: string)
    requires WellFormed(d) && Separate(d, path, TmpPath(path)) && path != ""
    requires TmpPath(path) !in Current(d) && ino !in d.inodes
    ensures var d' := AfterSave(d, path, ino, text);
            WellFormed(d') && SaveContract(d, d', [], path, text, true) && TmpPath(path) !in Current(d')
  {
    var tmp, d' := TmpPath(path), AfterSave(d, path, ino, text);
    var empty := DiskState(d.dirs + [Current(d)[tmp := ino]], d.inodes[ino := Inode("", false)]);
    var synced := empty.(inodes := d'.inodes);
    OpenedIsWriting(d, empty, path, tmp, ino);
    WritingStep(d, empty, synced, path, tmp, ino);
    RenamedIsNew(d, synced, d', path, tmp, ino, text);
  }

  /** A poll with news whose save meets no failure. */
  lemma SavingPoll(path: string, w: World, published: seq<string>, live: seq<string>, ino: nat)
    requires WellFormed(w.disk) && Separate(w.disk, path, TmpPath(path)) && path != ""
    requires TmpPath(path) !in Current(w.disk) && ino !in w.disk.inodes
    requires Dirty(Observed(w.mem, published, live))
    ensures var m := Observed(w.mem, published, live);
            var d' := AfterSave(w.disk, path, ino, SavedBy(m));
            && Step(path, w, Poll(published, live, true), World(Clean(m), d'))
            && WellFormed(d') && Separate(d', path, TmpPath(path)) && TmpPath(path) !in Current(d')
            && Visible(d', path) == Some(SavedBy(m))
  {
    CompleteSave(w.disk, path, ino, SavedBy(Observed(w.mem, published, live)));
  }

  /** A machine may come up on any file. */
  lemma StartOn(path: string, text: string) returns (w: World)
    requires path != ""
    ensures Init(path, w) && w.mem == Boot(Some(text)) && Visible(w.disk, path) == Some(text)
    ensures TmpPath(path) !in Current(w.disk)
  {
    w := World(Boot(Some(text)), DiskState([map[path := 0]], map[0 := Inode(text, true)]));
  }

  /** A run goes on by any step from its end. */
  lemma RunSnoc(path: string, ws: seq<World>, es: seq<Event>, e: Event, w': World)
    returns (ws': seq<World>, es': seq<Event>)
    requires Run(path, ws, es) && Step(path, ws[|es|], e, w')
    ensures ws' == ws + [w'] && es' == es + [e] && Run(path, ws', es')
  {
    ws', es' := ws + [w'], es + [e];
  }
}
