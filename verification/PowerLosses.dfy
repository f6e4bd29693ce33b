/** Exactly when a power loss can take names away, at any point of any run. */
module PowerLosses {
  import opened Protocol
  import opened Sequences
  import opened AdmittedFormat
  import opened AdmittedLaws
  import opened AdmittedSets
  import opened CrashDisk
  import opened AdmittedWriter
  import opened Lifecycle

  // ---- What may come back ----

  /** Every file that may be read after a power loss is one that some surviving disk shows. */
  lemma ReadIsPossible(d: DiskState, path: string, r: Option<string>) returns (d': DiskState)
    requires WellFormed(d) && MayRead(d, path, r)
    ensures Survives(d, d') && Visible(d', path) == r
  {
    var k :| 0 <= k < |d.dirs| && MayReadIn(d, k, path, r);
    var dir := d.dirs[k];
    d' := DiskState([dir], map i | i in d.inodes ::
      Inode(if path in dir && i == dir[path] then r.value else d.inodes[i].data, true));
  }

  /** A power loss in this state of the disk may leave a file that lacks a name of the current one. */
  ghost predicate MayLose(d: DiskState, path: string)
    requires WellFormed(d)
  {
    exists d' :: Survives(d, d') && !NamesWithin(Visible(d, path), Visible(d', path))
  }

  lemma LosesExactly(d: DiskState, path: string)
    requires WellFormed(d)
    ensures MayLose(d, path) <==> exists r :: MayRead(d, path, r) && !NamesWithin(Visible(d, path), r)
  {
    if MayLose(d, path) {
      var d' :| Survives(d, d') && !NamesWithin(Visible(d, path), Visible(d', path));
      SurvivorMayBeRead(d, path, d');
    }
    if r :| MayRead(d, path, r) && !NamesWithin(Visible(d, path), r) {
      var d' := ReadIsPossible(d, path, r);
    }
  }

  /** When the machine last came up. */
  function LastStart(es: seq<Event>, n: nat): (s: nat)
    requires n <= |es|
    ensures s <= n && forall k :: s <= k < n ==> es[k] != PowerLoss
    ensures s == 0 || es[s - 1] == PowerLoss
  {
    if n == 0 || es[n - 1] == PowerLoss then n else LastStart(es, n - 1)
  }

  lemma SavedTextCovers(path: string, w: World, published: seq<string>, live: seq<string>)
    requires Inv(path, w)
    ensures NamesWithin(Visible(w.disk, path), Some(SavedBy(Observed(w.mem, published, live))))
  {
    ObservedGrows(w.mem, published, live);
    SaveCovers(Visible(w.disk, path), Observed(w.mem, published, live));
  }

  lemma StartIsFresh(path: string, ws: seq<World>, es: seq<Event>, n: nat)
    requires Run(path, ws, es) && n <= |es| && (n == 0 || es[n - 1] == PowerLoss)
    ensures WellFormed(ws[n].disk) && |ws[n].disk.dirs| == 1 && Settled(ws[n].disk, path)
  {
    if n > 0 {
      Reachable(path, ws, es, n - 1);
      assert Step(path, ws[n - 1], es[n - 1], ws[n]);
      SurvivorIsFresh(path, TmpPath(path), ws[n - 1].disk, ws[n].disk);
    }
  }

  /** `found` may come back, and any file that may come back holds at least its names. */
  ghost predicate MayReturnTo(d: DiskState, path: string, found: Option<string>) {
    WellFormed(d) && MayRead(d, path, found) && forall r :: MayRead(d, path, r) ==> NamesWithin(found, r)
  }

  lemma ReturnStep(path: string, w: World, e: Event, w': World, found: Option<string>)
    requires Inv(path, w) && Step(path, w, e, w') && e != PowerLoss && MayReturnTo(w.disk, path, found)
    ensures MayReturnTo(w'.disk, path, found)
  {
    WhatStepKeeps(path, w, e, w');
    VisibleMayBeRead(w.disk, path);
    forall r | MayRead(w'.disk, path, r) ensures NamesWithin(found, r) {
      WhatStepAdds(path, w, e, w', r);
      if !MayRead(w.disk, path, r) {
        SavedTextCovers(path, w, e.published, e.live);
        NamesWithinTransitive(found, Visible(w.disk, path), r);
      }
    }
  }

  lemma FreshReturns(d: DiskState, path: string)
    requires WellFormed(d) && |d.dirs| == 1 && Settled(d, path)
    ensures MayReturnTo(d, path, Visible(d, path))
  {
    VisibleMayBeRead(d, path);
    forall r | MayRead(d, path, r) ensures r == Visible(d, path) {
      FreshReads(d, path, r);
    }
  }

  lemma {:induction false} MayReturnSince(path: string, ws: seq<World>, es: seq<Event>, s: nat, n: nat,
                                         found: Option<string>)
    requires Run(path, ws, es) && s <= n <= |es| && forall k :: s <= k < n ==> es[k] != PowerLoss
    requires MayReturnTo(ws[s].disk, path, found)
    ensures MayReturnTo(ws[n].disk, path, found)
  {
    if s < n {
      MayReturnSince(path, ws, es, s, n - 1, found);
      Reachable(path, ws, es, n - 1);
      ReturnStep(path, ws[n - 1], es[n - 1], ws[n], found);
    }
  }

  /** However long ago the machine came up, the file it found then may still come back. */
  lemma StartMayReturn(path: string, ws: seq<World>, es: seq<Event>, n: nat)
    requires Run(path, ws, es) && n <= |es|
    ensures WellFormed(ws[LastStart(es, n)].disk)
    ensures MayReturnTo(ws[n].disk, path, Visible(ws[LastStart(es, n)].disk, path))
  {
    var s := LastStart(es, n);
    StartIsFresh(path, ws, es, s);
    FreshReturns(ws[s].disk, path);
    MayReturnSince(path, ws, es, s, n, Visible(ws[s].disk, path));
  }

  /**
   * At any point of any run a power loss can take names away exactly when the file found at the last
   * start of the machine lacks a name of the current one: no save is final until the machine restarts.
   */
  lemma PowerLossLosesExactly(path: string, ws: seq<World>, es: seq<Event>, n: nat)
    requires Run(path, ws, es) && n <= |es|
    ensures var d, start := ws[n].disk, ws[LastStart(es, n)].disk;
            && WellFormed(d) && WellFormed(start)
            && (MayLose(d, path) <==> !NamesWithin(Visible(d, path), Visible(start, path)))
  {
    var d, found := ws[n].disk, Visible(ws[LastStart(es, n)].disk, path);
    StartMayReturn(path, ws, es, n);
    LosesExactly(d, path);
    if r :| MayRead(d, path, r) && !NamesWithin(Visible(d, path), r) {
      if NamesWithin(Visible(d, path), found) {
        NamesWithinTransitive(Visible(d, path), found, r);
      }
    }
  }

  // ---- A saved host that is lost ----

  lemma OneHostPublished()
    ensures Observed(Boot(None), ["a"], []) == Memory(["a"], true, [], false)
  {
    BootRestores(None);
    assert ["a"][1..] == [];
    assert [] + ["a"] == ["a"];
    assert AdmitAll(AdmitHost(Boot(None), "a"), []) == Memory(["a"], true, [], false);
  }

  lemma OneHostPersisted()
    ensures Persisted(Some(SavedBy(Memory(["a"], true, [], false))), "") == ["a"]
  {
    SavedIsPersisted(Memory(["a"], true, [], false));
    WrittenMembers(["a"]);
    NamesFixed(["a"]);
  }

  const EMPTY_DISK := DiskState([map[]], map[])

  /** Power is lost before the directory of a first save reaches the medium. */
  lemma FirstSaveLost(path: string, m: Memory)
    requires path != ""
    ensures var saved := AfterSave(EMPTY_DISK, path, 0, SavedBy(m));
            && Step(path, World(Clean(m), saved), PowerLoss, World(Boot(None), EMPTY_DISK.(inodes := saved.inodes)))
  {
    CompleteSave(EMPTY_DISK, path, 0, SavedBy(m));
    assert EMPTY_DISK.dirs[0] == AfterSave(EMPTY_DISK, path, 0, SavedBy(m)).dirs[0];
  }

  lemma FirstSaveStep(path: string) returns (w0: World, w1: World)
    requires path != ""
    ensures Init(path, w0) && w0 == World(Boot(None), EMPTY_DISK)
    ensures Step(path, w0, Poll(["a"], [], true), w1)
    ensures WellFormed(w1.disk) && Persisted(Visible(w1.disk, path), "") == ["a"]
    ensures Step(path, w1, PowerLoss, World(Boot(None), EMPTY_DISK.(inodes := w1.disk.inodes)))
  {
    var m := Memory(["a"], true, [], false);
    w0 := World(Boot(None), EMPTY_DISK);
    w1 := World(Clean(m), AfterSave(EMPTY_DISK, path, 0, SavedBy(m)));
    OneHostPublished();
    SavingPoll(path, w0, ["a"], [], 0);
    OneHostPersisted();
    FirstSaveLost(path, m);
  }

  lemma RunOfTwo(path: string, w0: World, e0: Event, w1: World, e1: Event, w2: World)
    requires Init(path, w0) && Step(path, w0, e0, w1) && Step(path, w1, e1, w2)
    ensures Run(path, [w0, w1, w2], [e0, e1])
  {
  }

  /** The concrete failure: on an empty disk a host is published and saved, and a power loss takes it away. */
  lemma SavedHostCanBeLost() returns (path: string, ws: seq<World>, es: seq<Event>)
    ensures Run(path, ws, es) && es == [Poll(["a"], [], true), PowerLoss]
    ensures WellFormed(ws[1].disk) && Persisted(Visible(ws[1].disk, path), "") == ["a"]
    ensures WellFormed(ws[2].disk) && Persisted(Visible(ws[2].disk, path), "") == []
  {
    path := "state";
    var w0, w1 := FirstSaveStep(path);
    var w2 := World(Boot(None), EMPTY_DISK.(inodes := w1.disk.inodes));
    RunOfTwo(path, w0, Poll(["a"], [], true), w1, PowerLoss, w2);
    ws, es := [w0, w1, w2], [Poll(["a"], [], true), PowerLoss];
  }
}
