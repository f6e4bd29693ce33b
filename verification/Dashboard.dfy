/** The dashboard's poll callback and start-up, with the state they update in place. */
module Dashboard {
  import opened Protocol
  import opened Sequences
  import opened AdmittedFormat
  import opened CrashDisk
  import opened AdmittedWriter
  import opened AdmittedSets
  import opened Lifecycle
  import AdmittedReader

  method IsAdmitted(names: seq<string>, host: string) returns (known: bool)
    ensures known <==> host in names
  {
    for i := 0 to |names|
      invariant host !in names[..i]
    {
      if names[i] == host {
        return true;
      }
    }
    return false;
  }

  method RememberName(names: seq<string>, host: string) returns (names': seq<string>, grew: bool)
    ensures names' == Remember(names, host)
    ensures grew <==> host !in names && |names| < MAX_CLIENTS
  {
    var known := IsAdmitted(names, host);
    if known || |names| >= MAX_CLIENTS {
      return names, false;
    }
    return names + [Truncated(host)], true;
  }

  method SeedNames(names: seq<string>, loaded: seq<string>) returns (names': seq<string>)
    ensures names' == Seed(names, loaded)
  {
    names' := names;
    for i := 0 to |loaded|
      invariant Seed(names', loaded[i..]) == Seed(names, loaded)
    {
      assert loaded[i..][1..] == loaded[i + 1..];
      if loaded[i] != "" {
        var grew;
        names', grew := RememberName(names', loaded[i]);
      }
    }
    assert loaded[|loaded|..] == [];
  }

  class Panel {
    const disk: Disk
    const stateFile: string
    var hosts: seq<string>
    var hostsDirty: bool
    var net: seq<string>
    var netDirty: bool

    ghost predicate Valid()
      reads this, disk
    {
      WellFormed(disk.st) && Separate(disk.st, stateFile, TmpPath(stateFile))
    }

    ghost function Mem(): Memory
      reads this
    {
      Memory(hosts, hostsDirty, net, netDirty)
    }

    ghost function State(): World
      reads this, disk
    {
      World(Mem(), disk.st)
    }

    /** The state file's name is there and leaves room for the temporary one. */
    predicate CanSave() {
      stateFile != "" && |stateFile| < 596
    }

    /** Start-up: both loads from the file seed the two sets. */
    constructor (disk: Disk, stateFile: string)
      requires WellFormed(disk.st) && Separate(disk.st, stateFile, TmpPath(stateFile))
      ensures Valid() && this.disk == disk && this.stateFile == stateFile
      ensures Mem() == Boot(Visible(disk.st, stateFile))
    {
      this.disk, this.stateFile := disk, stateFile;
      hosts, hostsDirty, net, netDirty := [], false, [], false;
      new;
      var contents := Visible(disk.st, stateFile);
      var admitted := new string[MAX_CLIENTS];
      var n := AdmittedReader.LoadSection(Some(stateFile), contents, None, admitted, MAX_CLIENTS);
      hosts := SeedNames(hosts, admitted[..n]);
      n := AdmittedReader.LoadSection(Some(stateFile), contents, Some(NET), admitted, MAX_CLIENTS);
      net := SeedNames(net, admitted[..n]);
    }

    method RegistryAdmit(host: string)
      modifies this
      ensures Mem() == AdmitHost(old(Mem()), host)
    {
      if host == "" {
        return;
      }
      var grew;
      hosts, grew := RememberName(hosts, host);
      if grew {
        hostsDirty := true;
      }
    }

    method NetObserveLive(host: string)
      modifies this
      ensures Mem() == ObserveLive(old(Mem()), host)
    {
      var known := IsAdmitted(net, host);
      if !known {
        var grew;
        net, grew := RememberName(net, host);
        netDirty := true;
      }
    }

    method TakeHostsDirty() returns (was: bool)
      modifies this
      ensures was == old(hostsDirty) && Mem() == old(Mem()).(hostsDirty := false)
    {
      was, hostsDirty := hostsDirty, false;
    }

    method TakeNetDirty() returns (was: bool)
      modifies this
      ensures was == old(netDirty) && Mem() == old(Mem()).(netDirty := false)
    {
      was, netDirty := netDirty, false;
    }

    /** Both flags are taken on every poll; one of them is enough to write both sets. */
    method SaveAdmittedIfChanged() returns (ok: bool)
      requires Valid()
      modifies this, disk
      ensures Valid() && Mem() == Clean(old(Mem())) && old(disk.trace) <= disk.trace
      ensures !Dirty(old(Mem())) ==> !ok && disk.st == old(disk.st)
      ensures old(disk.trace) < disk.trace <==> Dirty(old(Mem())) && CanSave()
      ensures ok <==> Dirty(old(Mem())) && CanSave() && disk.faults == old(disk.faults)
      ensures Dirty(old(Mem())) ==>
                SaveContract(old(disk.st), disk.st, disk.trace[|old(disk.trace)|..], stateFile, SavedBy(old(Mem())), ok)
    {
      var hostsGrew := TakeHostsDirty();
      var netGrew := TakeNetDirty();
      if !hostsGrew && !netGrew {
        return false;
      }
      NothingDone(disk.st, stateFile, SavedBy(Mem()));
      ok := AdmittedWriter.Save(disk, Some(stateFile), Some(hosts), |hosts|, Some(net), |net|);
      assert hosts[..|hosts|] == hosts && net[..|net|] == net;
    }

    /** `redis_poll`, as far as it concerns the admitted sets. */
    method RedisPoll(published: seq<string>, live: seq<string>)
      modifies this
      ensures Mem() == Observed(old(Mem()), published, live)
    {
      for i := 0 to |published|
        invariant AdmitAll(Mem(), published[i..]) == AdmitAll(old(Mem()), published)
      {
        assert published[i..][1..] == published[i + 1..];
        RegistryAdmit(published[i]);
      }
      assert published[|published|..] == [];
      ghost var m := Mem();
      for i := 0 to |live|
        invariant ObserveAll(Mem(), live[i..]) == ObserveAll(m, live)
      {
        assert live[i..][1..] == live[i + 1..];
        NetObserveLive(live[i]);
      }
      assert live[|live|..] == [];
    }

    /**
     * One timer tick: a connected poll admits what was seen and saves what grew. The whole tick is
     * one `Poll` step, and being killed in any state of the disk that it visits is a `CutPoll` step.
     * The disk is touched exactly when a flag was up before or there is news.
     */
    method TimerPoll(connected: bool, published: seq<string>, live: seq<string>) returns (saved: bool)
      requires Valid()
      modifies this, disk
      ensures Valid() && old(disk.trace) <= disk.trace
      ensures !connected ==> !saved && State() == old(State())
      ensures old(disk.trace) < disk.trace <==>
              connected && CanSave() && (Dirty(old(Mem())) || News(old(Mem()), published, live))
      ensures connected ==> Step(stateFile, old(State()), Poll(published, live, saved), State())
      ensures connected ==> forall k :: |old(disk.trace)| <= k < |disk.trace| ==>
                WellFormed(disk.trace[k]) &&
                Step(stateFile, old(State()), CutPoll(published, live),
                     World(Boot(Visible(disk.trace[k], stateFile)), disk.trace[k]))
    {
      if !connected {
        return false;
      }
      PollWritesExactly(Mem(), published, live);
      RedisPoll(published, live);
      ghost var m, a, from := Mem(), disk.st, |disk.trace|;
      saved := SaveAdmittedIfChanged();
      ghost var states := disk.trace[from..];
      assert forall k :: from <= k < |disk.trace| ==> disk.trace[k] == states[k - from];
    }
  }
}
