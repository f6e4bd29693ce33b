/** Exactly when the file is up to date, at any point of any run, and which polls write it. */
module Freshness {
  import opened Protocol
  import opened Sequences
  import opened AdmittedFormat
  import opened AdmittedLaws
  import opened AdmittedSets
  import opened CrashDisk
  import opened AdmittedWriter
  import opened Lifecycle

  // ---- After a successful save ----

  /** After a poll that saved, the file decodes to exactly the valid names of both sets, in their order. */
  lemma SavedPollPersistsAll(path: string, w: World, e: Event, w': World)
    requires Inv(path, w) && Step(path, w, e, w') && e.Poll? && e.saved
    ensures Persisted(Visible(w'.disk, path), "") == Names(w'.mem.hosts)
    ensures Persisted(Visible(w'.disk, path), NET) == Names(w'.mem.net)
    ensures Persisted(Visible(w'.disk, path), "") == w'.mem.hosts <==>
            Distinct(w'.mem.hosts) && forall x :: x in w'.mem.hosts ==> IsHostname(x)
    ensures Persisted(Visible(w'.disk, path), NET) == w'.mem.net <==>
            Distinct(w'.mem.net) && forall x :: x in w'.mem.net ==> IsHostname(x)
  {
    var m := Observed(w.mem, e.published, e.live);
    ObservedGrows(w.mem, e.published, e.live);
    SavedIsPersisted(m);
    WrittenMembers(m.hosts);
    WrittenMembers(m.net);
    WrittenExactly(m.hosts);
    WrittenExactly(m.net);
  }

  /** Every valid name of a set is among the persisted ones. */
  ghost predicate Covered(names: seq<string>, persisted: seq<string>) {
    forall x :: x in names && IsHostname(x) ==> x in persisted
  }

  /** Every valid name in memory is in the file. */
  ghost predicate UpToDate(path: string, w: World) {
    && WellFormed(w.disk)
    && Covered(w.mem.hosts, Persisted(Visible(w.disk, path), ""))
    && Covered(w.mem.net, Persisted(Visible(w.disk, path), NET))
  }

  // ---- Without one ----

  /** Sets that hold all of the file and only grow stay covered by it exactly as long as they gain no valid name. */
  lemma CoveredExactly(before: seq<string>, after: seq<string>, persisted: seq<string>)
    requires Subset(before, after) && Subset(persisted, before)
    ensures Covered(after, persisted) <==> Covered(before, persisted) && !GainsValid(before, after)
  {
  }

  lemma FailedSaveStep(path: string, w: World, e: Event, w': World)
    requires Step(path, w, e, w') && e.Poll? && !e.saved
    ensures !Dirty(w'.mem) && Visible(w'.disk, path) == Visible(w.disk, path)
  {
  }

  /** After a poll without a successful save the file is as far behind as before, or one more valid name. */
  lemma UnsavedPoll(path: string, w: World, e: Event, w': World)
    requires Inv(path, w) && Step(path, w, e, w') && e.Poll? && !e.saved
    ensures UpToDate(path, w') <==> UpToDate(path, w) && !Brings(w.mem, e.published, e.live)
  {
    FailedSaveStep(path, w, e, w');
    BringsExactly(w.mem, e.published, e.live);
    ObservedGrows(w.mem, e.published, e.live);
    var v := Visible(w.disk, path);
    CoveredExactly(w.mem.hosts, w'.mem.hosts, Persisted(v, ""));
    CoveredExactly(w.mem.net, w'.mem.net, Persisted(v, NET));
  }

  lemma StartUpToDate(path: string, w: World)
    requires WellFormed(w.disk) && w.mem == Boot(Visible(w.disk, path))
    ensures UpToDate(path, w)
  {
    BootRestores(Visible(w.disk, path));
  }

  predicate Unsaved(e: Event) {
    e.Poll? && !e.saved
  }

  lemma RefreshedUpToDate(path: string, w: World, e: Event, w': World)
    requires Inv(path, w) && Step(path, w, e, w') && !Unsaved(e)
    ensures UpToDate(path, w')
  {
    if e.Poll? {
      SavedPollPersistsAll(path, w, e, w');
      NamesMembers(w'.mem.hosts);
      NamesMembers(w'.mem.net);
    } else {
      StartUpToDate(path, w');
    }
  }

  // ---- Over whole runs ----

  /** The last time at which the file was written or read: after it come only polls that saved nothing. */
  function LastRefresh(es: seq<Event>, n: nat): (i: nat)
    requires n <= |es|
    ensures i <= n && forall k :: i <= k < n ==> Unsaved(es[k])
    ensures i == 0 || !Unsaved(es[i - 1])
  {
    if n == 0 || !Unsaved(es[n - 1]) then n else LastRefresh(es, n - 1)
  }

  lemma UpToDateAtRefresh(path: string, ws: seq<World>, es: seq<Event>, i: nat)
    requires Run(path, ws, es) && i <= |es| && (i == 0 || !Unsaved(es[i - 1]))
    ensures UpToDate(path, ws[i])
  {
    if i == 0 {
      StartUpToDate(path, ws[0]);
    } else {
      Reachable(path, ws, es, i - 1);
      RefreshedUpToDate(path, ws[i - 1], es[i - 1], ws[i]);
    }
  }

  /** The event is a poll that brings a valid name. */
  ghost predicate BroughtBy(w: World, e: Event) {
    e.Poll? && Brings(w.mem, e.published, e.live)
  }

  /** No poll from `i` on and before `n` brought a valid name. */
  ghost predicate NoneBrought(ws: seq<World>, es: seq<Event>, i: nat, n: nat)
    requires n <= |es| && n <= |ws|
  {
    forall k :: i <= k < n ==> !BroughtBy(ws[k], es[k])
  }

  /** What every turn keeps up to one that breaks it holds in the end exactly when no turn breaks it. */
  lemma {:induction false} KeptExactly(holds: seq<bool>, broken: seq<bool>, i: nat, n: nat)
    requires i <= n <= |broken| && n < |holds| && holds[i]
    requires forall k :: i <= k < n ==> (holds[k + 1] <==> holds[k] && !broken[k])
    ensures holds[n] <==> forall k :: i <= k < n ==> !broken[k]
  {
    if i < n {
      KeptExactly(holds, broken, i, n - 1);
    }
  }

  lemma BehindByOnePoll(path: string, ws: seq<World>, es: seq<Event>, n: nat)
    requires Run(path, ws, es) && n < |es| && Unsaved(es[n])
    ensures UpToDate(path, ws[n + 1]) <==> UpToDate(path, ws[n]) && !BroughtBy(ws[n], es[n])
  {
    Reachable(path, ws, es, n);
    UnsavedPoll(path, ws[n], es[n], ws[n + 1]);
  }

  /**
   * At any point of any run, kills, restarts and power losses included, the file holds every valid
   * name in memory exactly when no poll since the last start or successful save brought a new one.
   */
  lemma UpToDateExactly(path: string, ws: seq<World>, es: seq<Event>, n: nat)
    requires Run(path, ws, es) && n <= |es|
    ensures UpToDate(path, ws[n]) <==> NoneBrought(ws, es, LastRefresh(es, n), n)
  {
    var i := LastRefresh(es, n);
    var current := seq(n + 1, k requires 0 <= k <= n => UpToDate(path, ws[k]));
    var brought := seq(n, k requires 0 <= k < n => BroughtBy(ws[k], es[k]));
    UpToDateAtRefresh(path, ws, es, i);
    forall k | i <= k < n ensures current[k + 1] <==> current[k] && !brought[k] {
      assert Unsaved(es[k]);
      BehindByOnePoll(path, ws, es, k);
    }
    KeptExactly(current, brought, i, n);
    assert forall k :: 0 <= k < n ==> brought[k] == BroughtBy(ws[k], es[k]);
  }

  /** Every poll up to `n` that found a flag up saved. */
  ghost predicate NoSaveFailed(ws: seq<World>, es: seq<Event>, n: nat)
    requires n <= |es| && n <= |ws|
  {
    forall k :: 0 <= k < n && Unsaved(es[k]) ==> !Dirty(Observed(ws[k].mem, es[k].published, es[k].live))
  }

  /** The file falls behind only through a failed save: as long as none fails, it is up to date all the time. */
  lemma BehindOnlyByFailure(path: string, ws: seq<World>, es: seq<Event>, n: nat)
    requires Run(path, ws, es) && n <= |es| && NoSaveFailed(ws, es, n)
    ensures UpToDate(path, ws[n])
  {
    UpToDateExactly(path, ws, es, n);
    forall k | LastRefresh(es, n) <= k < n ensures !BroughtBy(ws[k], es[k]) {
      Reachable(path, ws, es, k);
      assert Unsaved(es[k]);
      CleanPollBringsNothing(ws[k].mem, es[k].published, es[k].live);
    }
  }

  // ---- Polls that bring nothing, and polls that write for nothing ----

  lemma QuietStep(path: string, w: World, e: Event, w': World)
    requires Step(path, w, e, w') && e.Poll? && !Dirty(w.mem)
    requires Subset(e.published, w.mem.hosts) && Subset(e.live, w.mem.net)
    ensures w' == w
  {
    QuietAdmit(w.mem, e.published);
    QuietObserve(w.mem, e.live);
  }

  /**
   * A failed save is not retried: as long as the following polls bring nothing new, neither the
   * memory nor the disk changes, and the file stays behind.
   */
  lemma {:induction false} FailedSaveIsNotRetried(path: string, ws: seq<World>, es: seq<Event>, i: nat, j: nat)
    requires Run(path, ws, es) && i < j <= |es|
    requires es[i].Poll? && !es[i].saved && Dirty(Observed(ws[i].mem, es[i].published, es[i].live))
    requires forall k :: i < k < j ==>
               && es[k].Poll?
               && Subset(es[k].published, ws[i + 1].mem.hosts) && Subset(es[k].live, ws[i + 1].mem.net)
    ensures ws[j] == ws[i + 1]
    ensures WellFormed(ws[i].disk) && WellFormed(ws[j].disk)
    ensures Visible(ws[j].disk, path) == Visible(ws[i].disk, path)
  {
    FailedSaveStep(path, ws[i], es[i], ws[i + 1]);
    if j > i + 1 {
      FailedSaveIsNotRetried(path, ws, es, i, j - 1);
      QuietStep(path, ws[j - 1], es[j - 1], ws[j]);
    }
  }

  /** The poll hears of no new host, and of a live network host that is not in its set. */
  ghost predicate Squeezed(hosts: seq<string>, net: seq<string>, e: Event) {
    e.Poll? && Subset(e.published, hosts) && exists h :: h in e.live && h !in net
  }

  /** The poll raises a flag and tries to save; if it succeeds the file is `text`, and else as it was. */
  ghost predicate WritesAgain(path: string, w: World, e: Event, w': World, text: string) {
    && WellFormed(w.disk) && WellFormed(w'.disk)
    && e.Poll? && Dirty(Observed(w.mem, e.published, e.live))
    && Visible(w'.disk, path) == if e.saved then Some(text) else Visible(w.disk, path)
  }

  lemma SqueezedPoll(path: string, w: World, e: Event, w': World)
    requires Step(path, w, e, w') && |w.mem.net| == MAX_CLIENTS && Squeezed(w.mem.hosts, w.mem.net, e)
    ensures w'.mem.hosts == w.mem.hosts && w'.mem.net == w.mem.net
    ensures WritesAgain(path, w, e, w', SavedBy(w.mem))
  {
    PollWritesExactly(w.mem, e.published, e.live);
    QuietAdmit(w.mem, e.published);
    FullNetStays(w.mem, e.live);
  }

  /**
   * Once the network set is full, one more live host makes every poll write the file, and nothing
   * ever changes: the sets stay, and each successful save writes the bytes of the one before.
   */
  lemma {:induction false} FullSetRewritesEveryPoll(path: string, ws: seq<World>, es: seq<Event>, i: nat, j: nat)
    requires Run(path, ws, es) && i <= j <= |es| && |ws[i].mem.net| == MAX_CLIENTS
    requires forall k :: i <= k < j ==> Squeezed(ws[i].mem.hosts, ws[i].mem.net, es[k])
    ensures ws[j].mem.hosts == ws[i].mem.hosts && ws[j].mem.net == ws[i].mem.net
    ensures forall k :: i <= k < j ==> WritesAgain(path, ws[k], es[k], ws[k + 1], SavedBy(ws[i].mem))
  {
    if i < j {
      FullSetRewritesEveryPoll(path, ws, es, i, j - 1);
      SqueezedPoll(path, ws[j - 1], es[j - 1], ws[j]);
    }
  }

  // ---- Such a run ----

  /** The names "a", "b" and so on. */
  function Letters(n: nat): (names: seq<string>)
    requires n <= 26
    ensures |names| == n
  {
    seq(n, i requires 0 <= i < n => ['a' + i as char])
  }

  const FULL_NET := Letters(MAX_CLIENTS)

  lemma LettersAreNames(n: nat)
    requires n <= MAX_CLIENTS
    ensures Names(Letters(n)) == Letters(n) && Written(Letters(n)) == Letters(n)
    ensures "z" !in Letters(n)
  {
    var names := Letters(n);
    forall i | 0 <= i < n ensures IsHostname(names[i]) {
      assert HostChar('a' + i as char);
    }
    forall i, j | 0 <= i < j < n ensures names[i] != names[j] {
      assert names[i][0] != names[j][0];
    }
    forall i | 0 <= i < n ensures names[i] != "z" {
      assert names[i][0] != 'z';
    }
    NamesFixed(names);
  }

  const FULL_FILE := SavedText([], FULL_NET)

  /** The dashboard runs with a full network set and an up-to-date file, and no save is under way. */
  ghost predicate Full(path: string, w: World) {
    && w.mem == Memory([], false, FULL_NET, false)
    && WellFormed(w.disk) && Separate(w.disk, path, TmpPath(path)) && TmpPath(path) !in Current(w.disk)
    && Visible(w.disk, path) == Some(FULL_FILE)
  }

  lemma FullRestored()
    ensures Boot(Some(FULL_FILE)) == Memory([], false, FULL_NET, false)
  {
    LettersAreNames(MAX_CLIENTS);
    SavedIsPersisted(Memory([], false, FULL_NET, false));
    BootRestores(Some(FULL_FILE));
    assert Written([]) == [];
  }

  lemma FullStart(path: string) returns (w: World)
    requires path != ""
    ensures Init(path, w) && Full(path, w)
  {
    w := StartOn(path, FULL_FILE);
    FullRestored();
  }

  /** The host "z" is live, and the file is written once more: a new one with the same bytes. */
  ghost predicate Rewrites(path: string, w: World, e: Event, w': World) {
    e == Poll([], ["z"], true) && WritesAgain(path, w, e, w', FULL_FILE) && w.disk.dirs < w'.disk.dirs
  }

  ghost predicate AllRewrite(path: string, ws: seq<World>, es: seq<Event>)
    requires |ws| == |es| + 1
  {
    forall k :: 0 <= k < |es| ==> Rewrites(path, ws[k], es[k], ws[k + 1])
  }

  lemma AllRewriteSnoc(path: string, ws: seq<World>, es: seq<Event>, e: Event, w': World)
    requires |ws| == |es| + 1 && AllRewrite(path, ws, es) && Rewrites(path, ws[|es|], e, w')
    ensures AllRewrite(path, ws + [w'], es + [e])
  {
  }

  lemma FullPoll(path: string, w: World) returns (w': World)
    requires Full(path, w) && path != ""
    ensures Step(path, w, Poll([], ["z"], true), w') && Full(path, w')
    ensures Rewrites(path, w, Poll([], ["z"], true), w')
  {
    LettersAreNames(MAX_CLIENTS);
    UpperBoundExists(w.disk.inodes.Keys);
    var ino: nat :| ino !in w.disk.inodes.Keys;
    assert Observed(w.mem, [], ["z"]) == w.mem.(netDirty := true) by {
      assert ["z"][1..] == [];
      assert ObserveAll(ObserveLive(w.mem, "z"), []) == ObserveLive(w.mem, "z");
    }
    SavingPoll(path, w, [], ["z"], ino);
    w' := World(w.mem, AfterSave(w.disk, path, ino, FULL_FILE));
  }

  /** There are such runs of every length: from a file with 16 network names, with every save successful. */
  lemma {:induction false} FullSetRun(path: string, n: nat) returns (ws: seq<World>, es: seq<Event>)
    requires path != ""
    ensures Run(path, ws, es) && |es| == n && Full(path, ws[0]) && Full(path, ws[n]) && AllRewrite(path, ws, es)
  {
    if n == 0 {
      var w := FullStart(path);
      ws, es := [w], [];
    } else {
      ws, es := FullSetRun(path, n - 1);
      var w' := FullPoll(path, ws[n - 1]);
      AllRewriteSnoc(path, ws, es, Poll([], ["z"], true), w');
      ws, es := RunSnoc(path, ws, es, Poll([], ["z"], true), w');
    }
  }
}
