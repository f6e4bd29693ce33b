/**
 * The two admitted sets in memory: how they grow, which flags are raised, what start-up restores and
 * what is left of them when they are written.
 */
module AdmittedSets {
  import opened Protocol
  import opened Sequences
  import opened AdmittedFormat
  import opened AdmittedLaws

  // ---- The sets and their flags ----

  datatype Memory = Memory(hosts: seq<string>, hostsDirty: bool, net: seq<string>, netDirty: bool)

  /** Names are stored in fixed buffers. */
  function Truncated(host: string): string {
    if |host| < HOSTNAME_LEN then host else host[..HOSTNAME_LEN - 1]
  }

  function Remember(names: seq<string>, host: string): seq<string> {
    if host in names || |names| >= MAX_CLIENTS then names else names + [Truncated(host)]
  }

  /** A host without a slot has published its first payload of this run. */
  function AdmitHost(m: Memory, host: string): Memory {
    if host == "" || host in m.hosts || |m.hosts| >= MAX_CLIENTS then m
    else m.(hosts := Remember(m.hosts, host), hostsDirty := true)
  }

  /** A host of the network card is live. The flag is set even when the full set cannot grow. */
  function ObserveLive(m: Memory, host: string): Memory {
    if host in m.net then m else m.(net := Remember(m.net, host), netDirty := true)
  }

  /** A new host for which there is room is kept under its first 63 characters. */
  lemma NewHostKept(m: Memory, host: string)
    ensures var kept := if |host| <= 63 then host else host[..63];
            && (host != "" && host !in m.hosts && |m.hosts| < 16 ==>
                  AdmitHost(m, host) == m.(hosts := m.hosts + [kept], hostsDirty := true))
            && (host !in m.net && |m.net| < 16 ==>
                  ObserveLive(m, host) == m.(net := m.net + [kept], netDirty := true))
  {
  }

  /** Any other changes nothing, but for the flag of the full network set. */
  lemma KnownHostIgnored(m: Memory, host: string)
    ensures host == "" || host in m.hosts || |m.hosts| >= 16 ==> AdmitHost(m, host) == m
    ensures host in m.net ==> ObserveLive(m, host) == m
    ensures host !in m.net && |m.net| >= 16 ==> ObserveLive(m, host) == m.(netDirty := true)
  {
  }

  function AdmitAll(m: Memory, published: seq<string>): Memory
    decreases published
  {
    if published == [] then m else AdmitAll(AdmitHost(m, published[0]), published[1..])
  }

  function ObserveAll(m: Memory, live: seq<string>): Memory
    decreases live
  {
    if live == [] then m else ObserveAll(ObserveLive(m, live[0]), live[1..])
  }

  /** One `redis_poll`: first the clients, then the network hosts. */
  function Observed(m: Memory, published: seq<string>, live: seq<string>): Memory {
    ObserveAll(AdmitAll(m, published), live)
  }

  function Seed(names: seq<string>, loaded: seq<string>): seq<string>
    decreases loaded
  {
    if loaded == [] then names
    else Seed(if loaded[0] == "" then names else Remember(names, loaded[0]), loaded[1..])
  }

  /** What the file's contents say about one section. */
  function Persisted(contents: Option<string>, want: string): seq<string> {
    if contents.None? then [] else Load(contents.value, want, MAX_CLIENTS)
  }

  /** The memory of a process that has just started on the given file contents. */
  function Boot(contents: Option<string>): Memory {
    Memory(Seed([], Persisted(contents, "")), false, Seed([], Persisted(contents, NET)), false)
  }

  function SavedBy(m: Memory): string {
    SavedText(m.hosts, m.net)
  }

  predicate Dirty(m: Memory) {
    m.hostsDirty || m.netDirty
  }

  function Clean(m: Memory): Memory {
    m.(hostsDirty := false, netDirty := false)
  }

  ghost predicate Subset(s: seq<string>, t: seq<string>) {
    forall x :: x in s ==> x in t
  }

  predicate Bounded(names: seq<string>) {
    |names| <= MAX_CLIENTS && forall i :: 0 <= i < |names| ==> |names[i]| < HOSTNAME_LEN
  }

  // ---- What start-up restores ----

  lemma LoadedFacts(contents: Option<string>, want: string)
    ensures var names := Persisted(contents, want);
            Bounded(names) && Distinct(names) && forall i :: 0 <= i < |names| ==> IsHostname(names[i])
  {
    if contents.Some? {
      LoadIsNormalForm(contents.value, want, MAX_CLIENTS);
    }
  }

  lemma {:induction false} SeedAppends(names: seq<string>, loaded: seq<string>)
    requires Distinct(names + loaded) && |names + loaded| <= MAX_CLIENTS
    requires forall i :: 0 <= i < |loaded| ==> IsHostname(loaded[i])
    ensures Seed(names, loaded) == names + loaded
    decreases loaded
  {
    if loaded == [] {
      assert names + loaded == names;
    } else {
      var x := loaded[0];
      assert x == (names + loaded)[|names|];
      assert forall i :: 0 <= i < |names| ==> names[i] == (names + loaded)[i];
      assert names + loaded == (names + [x]) + loaded[1..];
      SeedAppends(names + [x], loaded[1..]);
    }
  }

  /** Start-up restores exactly what the file says. */
  lemma BootRestores(contents: Option<string>)
    ensures Boot(contents) == Memory(Persisted(contents, ""), false, Persisted(contents, NET), false)
  {
    LoadedFacts(contents, "");
    LoadedFacts(contents, NET);
    var hosts, net := Persisted(contents, ""), Persisted(contents, NET);
    assert [] + hosts == hosts && [] + net == net;
    SeedAppends([], hosts);
    SeedAppends([], net);
  }

  // ---- What is written ----

  /** A set that fits is written without loss: exactly its valid names come back. */
  lemma WrittenMembers(names: seq<string>)
    requires |names| <= MAX_CLIENTS
    ensures Written(names) == Names(names)
    ensures forall x :: x in Written(names) <==> x in names && IsHostname(x)
  {
    NamesMembers(names);
    FilterLength(IsHostname, names);
    DedupLength(Filter(IsHostname, names));
  }

  /** A saved set comes back exactly if and only if all its names are valid and distinct. */
  lemma WrittenExactly(names: seq<string>)
    requires |names| <= MAX_CLIENTS
    ensures Written(names) == names <==> Distinct(names) && forall x :: x in names ==> IsHostname(x)
  {
    WrittenMembers(names);
    NamesMembers(names);
    if Distinct(names) && forall x :: x in names ==> IsHostname(x) {
      NamesFixed(names);
    }
  }

  lemma SavedIsPersisted(m: Memory)
    requires Bounded(m.hosts) && Bounded(m.net)
    ensures Persisted(Some(SavedBy(m)), "") == Written(m.hosts)
    ensures Persisted(Some(SavedBy(m)), NET) == Written(m.net)
  {
    SaveThenLoad(m.hosts, m.net, "", MAX_CLIENTS);
    SaveThenLoad(m.hosts, m.net, NET, MAX_CLIENTS);
  }

  /** No file, whoever writes it, can hold a name that is not a valid one. */
  lemma InvalidNameIsNeverPersisted(x: string, contents: Option<string>, want: string)
    requires !IsHostname(x)
    ensures x !in Persisted(contents, want)
  {
    LoadedFacts(contents, want);
  }

  /** A host name in upper case is kept in memory, and no save, now or later, brings it into the file. */
  lemma UpperCaseHostIsNotPersisted()
    ensures AdmitHost(Boot(None), "KAI").hosts == ["KAI"]
    ensures forall contents, want :: "KAI" !in Persisted(contents, want)
  {
    assert !HostChar("KAI"[0]);
    forall contents, want ensures "KAI" !in Persisted(contents, want) {
      InvalidNameIsNeverPersisted("KAI", contents, want);
    }
  }

  // ---- The sets only grow ----

  lemma {:induction false} AdmitAllGrows(m: Memory, published: seq<string>)
    requires Bounded(m.hosts)
    ensures var m' := AdmitAll(m, published);
            Bounded(m'.hosts) && m.hosts <= m'.hosts && m'.net == m.net && m'.netDirty == m.netDirty
    decreases published
  {
    if published != [] {
      AdmitAllGrows(AdmitHost(m, published[0]), published[1..]);
    }
  }

  lemma {:induction false} ObserveAllGrows(m: Memory, live: seq<string>)
    requires Bounded(m.net)
    ensures var m' := ObserveAll(m, live);
            Bounded(m'.net) && m.net <= m'.net && m'.hosts == m.hosts && m'.hostsDirty == m.hostsDirty
    decreases live
  {
    if live != [] {
      ObserveAllGrows(ObserveLive(m, live[0]), live[1..]);
    }
  }

  lemma ObservedGrows(m: Memory, published: seq<string>, live: seq<string>)
    requires Bounded(m.hosts) && Bounded(m.net)
    ensures var m' := Observed(m, published, live);
            Bounded(m'.hosts) && Bounded(m'.net) && Subset(m.hosts, m'.hosts) && Subset(m.net, m'.net)
  {
    AdmitAllGrows(m, published);
    ObserveAllGrows(AdmitAll(m, published), live);
  }

  lemma {:induction false} OtherSetUntouched(m: Memory, published: seq<string>, live: seq<string>)
    ensures var m' := AdmitAll(m, published); m'.net == m.net && m'.netDirty == m.netDirty
    ensures var m' := ObserveAll(m, live); m'.hosts == m.hosts && m'.hostsDirty == m.hostsDirty
    decreases |published| + |live|
  {
    if published != [] {
      OtherSetUntouched(AdmitHost(m, published[0]), published[1..], live);
    }
    if live != [] {
      OtherSetUntouched(ObserveLive(m, live[0]), published, live[1..]);
    }
  }

  lemma {:induction false} QuietAdmit(m: Memory, published: seq<string>)
    requires Subset(published, m.hosts)
    ensures AdmitAll(m, published) == m
    decreases published
  {
    if published != [] {
      assert published[0] in published;
      QuietAdmit(m, published[1..]);
    }
  }

  lemma {:induction false} QuietObserve(m: Memory, live: seq<string>)
    requires Subset(live, m.net)
    ensures ObserveAll(m, live) == m
    decreases live
  {
    if live != [] {
      assert live[0] in live;
      QuietObserve(m, live[1..]);
    }
  }

  lemma {:induction false} FullNetStays(m: Memory, live: seq<string>)
    requires |m.net| == MAX_CLIENTS
    ensures ObserveAll(m, live).net == m.net && ObserveAll(m, live).hosts == m.hosts
    decreases live
  {
    if live != [] {
      FullNetStays(ObserveLive(m, live[0]), live[1..]);
    }
  }

  // ---- When a flag is raised ----

  lemma {:induction false} AdmitAllDirty(m: Memory, published: seq<string>)
    ensures AdmitAll(m, published).hostsDirty <==>
            m.hostsDirty || (|m.hosts| < MAX_CLIENTS && exists h :: h in published && h != "" && h !in m.hosts)
    decreases published
  {
    if published != [] {
      var h := published[0];
      AdmitAllDirty(AdmitHost(m, h), published[1..]);
      assert forall x :: x in published <==> x == h || x in published[1..];
    }
  }

  lemma {:induction false} ObserveAllDirty(m: Memory, live: seq<string>)
    ensures ObserveAll(m, live).netDirty <==> m.netDirty || exists h :: h in live && h !in m.net
    decreases live
  {
    if live != [] {
      var h := live[0];
      ObserveAllDirty(ObserveLive(m, h), live[1..]);
      assert forall x :: x in live <==> x == h || x in live[1..];
    }
  }

  /** A new host has published and there is room for it, or a live network host is not in its set. */
  ghost predicate News(m: Memory, published: seq<string>, live: seq<string>) {
    || (|m.hosts| < MAX_CLIENTS && exists h :: h in published && h != "" && h !in m.hosts)
    || (exists h :: h in live && h !in m.net)
  }

  /** A poll raises a flag exactly when it brings news, for a network host whether or not there is room. */
  lemma PollWritesExactly(m: Memory, published: seq<string>, live: seq<string>)
    ensures Dirty(Observed(m, published, live)) <==> Dirty(m) || News(m, published, live)
  {
    AdmitAllDirty(m, published);
    OtherSetUntouched(m, published, []);
    ObserveAllDirty(AdmitAll(m, published), live);
    OtherSetUntouched(AdmitAll(m, published), [], live);
  }

  lemma {:induction false} CleanAdmit(m: Memory, published: seq<string>)
    requires !AdmitAll(m, published).hostsDirty
    ensures AdmitAll(m, published) == m
    decreases published
  {
    if published != [] {
      CleanAdmit(AdmitHost(m, published[0]), published[1..]);
    }
  }

  lemma {:induction false} CleanObserve(m: Memory, live: seq<string>)
    requires !ObserveAll(m, live).netDirty
    ensures ObserveAll(m, live) == m
    decreases live
  {
    if live != [] {
      CleanObserve(ObserveLive(m, live[0]), live[1..]);
    }
  }

  /** A poll that raises no flag leaves the sets as they were: the flags miss nothing. */
  lemma FlagsMissNothing(m: Memory, published: seq<string>, live: seq<string>)
    requires !Dirty(Observed(m, published, live))
    ensures Observed(m, published, live) == m
  {
    var m1 := AdmitAll(m, published);
    OtherSetUntouched(m1, [], live);
    CleanAdmit(m, published);
    CleanObserve(m1, live);
  }

  // ---- When a valid name comes in ----

  /** The name under which a host is kept is valid and not yet known. */
  predicate NewValid(names: seq<string>, host: string) {
    IsHostname(Truncated(host)) && Truncated(host) !in names
  }

  /** The poll brings a valid name that is new, and finds room for it when its turn comes. */
  ghost predicate Brings(m: Memory, published: seq<string>, live: seq<string>) {
    || (exists j :: 0 <= j < |published| && NewValid(m.hosts, published[j]) &&
                    |AdmitAll(m, published[..j]).hosts| < MAX_CLIENTS)
    || (exists j :: 0 <= j < |live| && NewValid(m.net, live[j]) &&
                    |ObserveAll(m, live[..j]).net| < MAX_CLIENTS)
  }

  lemma AdmitPrefix(m: Memory, published: seq<string>, j: nat)
    requires 0 < j <= |published|
    ensures AdmitAll(m, published[..j]) == AdmitAll(AdmitHost(m, published[0]), published[1..][..j - 1])
  {
    assert published[..j][1..] == published[1..][..j - 1];
  }

  lemma ObservePrefix(m: Memory, live: seq<string>, j: nat)
    requires 0 < j <= |live|
    ensures ObserveAll(m, live[..j]) == ObserveAll(ObserveLive(m, live[0]), live[1..][..j - 1])
  {
    assert live[..j][1..] == live[1..][..j - 1];
  }

  lemma {:induction false} AdmittedFrom(m: Memory, published: seq<string>, x: string) returns (j: nat)
    requires x in AdmitAll(m, published).hosts && x !in m.hosts
    ensures j < |published| && Truncated(published[j]) == x && |AdmitAll(m, published[..j]).hosts| < MAX_CLIENTS
    decreases published
  {
    var m1 := AdmitHost(m, published[0]);
    if x in m1.hosts {
      j := 0;
      assert AdmitAll(m, published[..0]) == m;
    } else {
      j := AdmittedFrom(m1, published[1..], x);
      j := j + 1;
      AdmitPrefix(m, published, j);
    }
  }

  lemma {:induction false} AdmittedAt(m: Memory, published: seq<string>, j: nat)
    requires Bounded(m.hosts) && j < |published| && IsHostname(Truncated(published[j]))
    requires |AdmitAll(m, published[..j]).hosts| < MAX_CLIENTS
    ensures Truncated(published[j]) in AdmitAll(m, published).hosts
    decreases published
  {
    var m1 := AdmitHost(m, published[0]);
    if j == 0 {
      assert AdmitAll(m, published[..0]) == m;
      AdmitAllGrows(m1, published[1..]);
      assert Truncated(published[0]) in m1.hosts;
      assert forall x :: x in m1.hosts ==> x in AdmitAll(m1, published[1..]).hosts;
    } else {
      AdmitPrefix(m, published, j);
      AdmittedAt(m1, published[1..], j - 1);
    }
  }

  lemma {:induction false} ObservedFrom(m: Memory, live: seq<string>, x: string) returns (j: nat)
    requires x in ObserveAll(m, live).net && x !in m.net
    ensures j < |live| && Truncated(live[j]) == x && |ObserveAll(m, live[..j]).net| < MAX_CLIENTS
    decreases live
  {
    var m1 := ObserveLive(m, live[0]);
    if x in m1.net {
      j := 0;
      assert ObserveAll(m, live[..0]) == m;
    } else {
      j := ObservedFrom(m1, live[1..], x);
      j := j + 1;
      ObservePrefix(m, live, j);
    }
  }

  lemma {:induction false} ObservedAt(m: Memory, live: seq<string>, j: nat)
    requires Bounded(m.net) && j < |live|
    requires |ObserveAll(m, live[..j]).net| < MAX_CLIENTS
    ensures Truncated(live[j]) in ObserveAll(m, live).net
    decreases live
  {
    var m1 := ObserveLive(m, live[0]);
    if j == 0 {
      assert ObserveAll(m, live[..0]) == m;
      ObserveAllGrows(m1, live[1..]);
      assert Truncated(live[0]) in m1.net;
      assert forall x :: x in m1.net ==> x in ObserveAll(m1, live[1..]).net;
    } else {
      ObservePrefix(m, live, j);
      ObservedAt(m1, live[1..], j - 1);
    }
  }

  /** A valid name that was not there before. */
  ghost predicate GainsValid(before: seq<string>, after: seq<string>) {
    exists x :: x in after && x !in before && IsHostname(x)
  }

  lemma {:induction false} SameNet(m: Memory, m': Memory, live: seq<string>)
    requires m.net == m'.net
    ensures ObserveAll(m, live).net == ObserveAll(m', live).net
    decreases live
  {
    if live != [] {
      SameNet(ObserveLive(m, live[0]), ObserveLive(m', live[0]), live[1..]);
    }
  }

  lemma BringsExactly(m: Memory, published: seq<string>, live: seq<string>)
    requires Bounded(m.hosts) && Bounded(m.net)
    ensures var m' := Observed(m, published, live);
            Brings(m, published, live) <==> GainsValid(m.hosts, m'.hosts) || GainsValid(m.net, m'.net)
  {
    var m' := Observed(m, published, live);
    OtherSetUntouched(AdmitAll(m, published), [], live);
    OtherSetUntouched(m, published, []);
    SameNet(AdmitAll(m, published), m, live);
    if x :| x in m'.hosts && x !in m.hosts && IsHostname(x) {
      var j := AdmittedFrom(m, published, x);
    }
    if x :| x in m'.net && x !in m.net && IsHostname(x) {
      var j := ObservedFrom(m, live, x);
    }
    if j :| 0 <= j < |published| && NewValid(m.hosts, published[j]) &&
            |AdmitAll(m, published[..j]).hosts| < MAX_CLIENTS {
      AdmittedAt(m, published, j);
    }
    if j :| 0 <= j < |live| && NewValid(m.net, live[j]) && |ObserveAll(m, live[..j]).net| < MAX_CLIENTS {
      ObservedAt(m, live, j);
    }
  }

  lemma CleanPollBringsNothing(m: Memory, published: seq<string>, live: seq<string>)
    requires Bounded(m.hosts) && Bounded(m.net) && !Dirty(Observed(m, published, live))
    ensures !Brings(m, published, live)
  {
    FlagsMissNothing(m, published, live);
    BringsExactly(m, published, live);
  }
}
