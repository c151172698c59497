/** The ASUS adapter: which lists it remembers as its own, when it skips, and what a failed stage leaves alone. */
module Asus {
  import opened Records
  import opened Text
  import opened Sorting
  import N = Nvram
  import B = BlockList
  import D = DnsDirector
  import R = DnsDirectorRuns
  import F = Firewall
  import P = DohSteps
  import X = DohExact
  import S = SshClient

  // ---- the demands ------------------------------------------------------------------------------

  /** The lower-case MACs that contain a colon, in order, each once. */
  function Lowered(macs: seq<string>): seq<string> {
    SortedSet(LowerWithColon(macs))
  }

  function LowerWithColon(macs: seq<string>): seq<string> {
    if macs == [] then [] else (if ':' in macs[0] then [Lower(macs[0])] else []) + LowerWithColon(macs[1..])
  }

  predicate SameMacs(a: seq<string>, b: seq<string>) {
    (set m | m in a) == (set m | m in b)
  }

  /** The name under the MAC as given, else under its lower-case form, else the MAC in capitals; blank names do
      not count. */
  function NameOf(names: map<string, string>, mac: string): string {
    var m := Lower(mac);
    if mac in names && names[mac] != "" then names[mac]
    else if m in names && names[m] != "" then names[m]
    else Upper(m)
  }

  lemma NameIs(names: map<string, string>, mac: string)
    ensures mac in names && names[mac] != "" ==> NameOf(names, mac) == names[mac]
    ensures !(mac in names && names[mac] != "") && Lower(mac) in names && names[Lower(mac)] != "" ==> NameOf(names, mac) == names[Lower(mac)]
    ensures !(mac in names && names[mac] != "") && !(Lower(mac) in names && names[Lower(mac)] != "") ==> NameOf(names, mac) == Upper(Lower(mac))
  {
  }

  /** A label and a MAC per device, in the reconciler's order, each lower-case MAC once. */
  function Pairs(desired: seq<string>, names: map<string, string>): seq<(string, string)> {
    if desired == [] then []
    else
      var init, mac := Pairs(desired[..|desired| - 1], names), desired[|desired| - 1];
      if mac == "" || Lower(mac) in MacsIn(init) then init
      else init + [(R.AdapterLabel(NameOf(names, mac), Lower(mac)), Lower(mac))]
  }

  function MacsIn(pairs: seq<(string, string)>): seq<string> {
    seq(|pairs|, i requires 0 <= i < |pairs| => pairs[i].1)
  }

  /** The MACs paired up are the demanded ones in lower case. */
  lemma {:induction false} PairsHaveAll(desired: seq<string>, names: map<string, string>, m: string)
    ensures m in MacsIn(Pairs(desired, names)) <==> exists raw :: raw in desired && raw != "" && Lower(raw) == m
  {
    if desired != [] {
      var init, last := desired[..|desired| - 1], desired[|desired| - 1];
      assert desired == init + [last];
      PairsHaveAll(init, names, m);
      PairsHaveAll(init, names, Lower(last));
      var before, after := Pairs(init, names), Pairs(desired, names);
      if |after| > |before| {
        assert MacsIn(after) == MacsIn(before) + [Lower(last)];
      } else {
        assert after == before;
      }
      if raw :| raw in desired && raw != "" && Lower(raw) == m {
        assert raw in init || raw == last;
      }
      if raw :| raw in init && raw != "" && Lower(raw) == m {
        assert raw in desired;
      }
    }
  }

  /** The first device with a MAC, in whatever case, is sent under its own name's label. */
  lemma {:induction false} FirstIsPaired(desired: seq<string>, names: map<string, string>, i: nat)
    requires i < |desired| && desired[i] != "" && forall j :: 0 <= j < i ==> Lower(desired[j]) != Lower(desired[i])
    ensures (R.AdapterLabel(NameOf(names, desired[i]), Lower(desired[i])), Lower(desired[i])) in Pairs(desired, names)
  {
    hide NameOf, R.AdapterLabel, Lower;
    var init := desired[..|desired| - 1];
    if i < |init| {
      FirstIsPaired(init, names, i);
    } else {
      PairsHaveAll(init, names, Lower(desired[i]));
    }
  }

  lemma LowerTwice(s: string)
    ensures B.AsusNorm(Lower(s)) == B.AsusNorm(s)
  {
    forall i | 0 <= i < |s| ensures Lower(Lower(s))[i] == Lower(s)[i] {
      assert Lower(s)[i] == LowerChar(s[i]);
    }
    assert Lower(Lower(s)) == Lower(s);
  }

  /** The list of our MACs remembered after a push normalises to exactly the MACs demanded. */
  lemma RememberedAreDemanded(desired: seq<string>, names: map<string, string>)
    ensures B.Norms(MacsIn(Pairs(desired, names))) == B.Norms(desired)
  {
    hide B.AsusNorm, Lower, Pairs, MacsIn;
    var macs := MacsIn(Pairs(desired, names));
    B.BlankIsNoMac();
    forall m ensures m in B.Norms(macs) <==> m in B.Norms(desired) {
      if m in B.Norms(macs) {
        var low :| low in macs && B.AsusNorm(low) != "" && B.AsusNorm(low) == m;
        PairsHaveAll(desired, names, low);
        var raw :| raw in desired && raw != "" && Lower(raw) == low;
        LowerTwice(raw);
      }
      if m in B.Norms(desired) {
        var raw :| raw in desired && B.AsusNorm(raw) != "" && B.AsusNorm(raw) == m;
        LowerTwice(raw);
        PairsHaveAll(desired, names, Lower(raw));
        assert Lower(raw) in macs;
      }
    }
  }

  /** What the next tick takes for ours is what this one asked for: persisted list and cleaned pairs agree. */
  lemma NextTickKnowsOurs(desired: seq<string>, names: map<string, string>)
    ensures B.Norms(MacsIn(Pairs(desired, names))) == D.Macs(D.Clean(Pairs(desired, names)))
    ensures D.Macs(D.Clean(Pairs(desired, names))) == B.Norms(desired)
  {
    var pairs := Pairs(desired, names);
    var macs := MacsIn(pairs);
    forall m ensures m in B.Norms(macs) <==> m in D.Macs(D.Clean(pairs)) {
      D.CleanedMacs(pairs, m);
      if i :| 0 <= i < |pairs| && B.AsusNorm(pairs[i].1) == m && m != "" {
        assert macs[i] in macs;
      }
    }
    RememberedAreDemanded(desired, names);
  }

  lemma {:induction false} LabelsAreTheAdapters(desired: seq<string>, names: map<string, string>, d: (string, string))
    requires d in Pairs(desired, names)
    ensures exists raw :: raw in desired && d == (R.AdapterLabel(NameOf(names, raw), Lower(raw)), Lower(raw))
  {
    var init, last := desired[..|desired| - 1], desired[|desired| - 1];
    assert desired == init + [last];
    if d in Pairs(init, names) {
      LabelsAreTheAdapters(init, names, d);
      var raw :| raw in init && d == (R.AdapterLabel(NameOf(names, raw), Lower(raw)), Lower(raw));
      assert raw in desired;
    } else {
      assert last in desired;
    }
  }

  lemma {:induction false} CleanedFrom(pairs: seq<(string, string)>, d: (string, string))
    requires d in D.Clean(pairs)
    ensures exists q :: q in pairs && d.1 == D.Norm(q.1) && (d.0 == q.0 || d.0 == Upper(d.1))
  {
    var init, last := pairs[..|pairs| - 1], pairs[|pairs| - 1];
    assert pairs == init + [last];
    if d in D.Clean(init) {
      CleanedFrom(init, d);
      var q :| q in init && d.1 == D.Norm(q.1) && (d.0 == q.0 || d.0 == Upper(d.1));
      assert q in pairs;
    } else {
      assert last in pairs;
    }
  }

  /** What the adapter asks for can be printed, whatever the devices are called, as long as the MACs can. */
  lemma AdapterPairsPrint(desired: seq<string>, names: map<string, string>)
    requires forall raw :: raw in desired ==> D.Plain(Upper(Lower(raw))) && D.Plain(Upper(B.AsusNorm(raw)))
    ensures R.PrintablePairs(D.Clean(Pairs(desired, names)))
  {
    hide NameOf, R.AdapterLabel, Lower, B.AsusNorm, Upper;
    var pairs := Pairs(desired, names);
    forall d | d in D.Clean(pairs) ensures N.NoSeparators(d.0) && D.Plain(Upper(d.1)) {
      CleanedFrom(pairs, d);
      var q :| q in pairs && d.1 == D.Norm(q.1) && (d.0 == q.0 || d.0 == Upper(d.1));
      LabelsAreTheAdapters(desired, names, q);
      var raw :| raw in desired && q == (R.AdapterLabel(NameOf(names, raw), Lower(raw)), Lower(raw));
      LowerTwice(raw);
      R.AdapterLabelIsPrintable(NameOf(names, raw), Lower(raw));
    }
  }

  lemma {:induction false} LowerWithColonHas(macs: seq<string>, m: string)
    ensures m in LowerWithColon(macs) <==> exists raw :: raw in macs && ':' in raw && Lower(raw) == m
  {
    if macs != [] {
      hide Lower;
      LowerWithColonHas(macs[1..], m);
      assert macs == [macs[0]] + macs[1..];
    }
  }

  lemma SortedIsSame(desired: seq<string>)
    ensures B.Norms(Sorted(desired)) == B.Norms(desired)
  {
    SortedHasSame(desired);
  }

  // ---- stage 3 as a function --------------------------------------------------------------------------

  datatype Report = Disabled | Skipped | Pushed | TornDown | Failed

  /** Whether the stage is on, and whether there is a password to log in with. */
  datatype Switches = Switches(on: bool, credentials: bool)

  datatype DohState = DohState(managed: seq<string>, last: Option<seq<string>>, router: P.Session)

  /** One call of stage 3.  Switched off it tears down once if anything is remembered; without a password it
      merely forgets. */
  function DohTick(c: Switches, d: DohState, desired: seq<string>, connected: bool, ips: seq<string>): (DohState, Report) {
    if !c.on then
      if d.managed == [] then (d, Disabled)
      else if !c.credentials then (DohState([], Some([]), d.router), Failed)
      else if !connected then (d, Failed)
      else
        var torn := P.Apply(d.router, [], ips);
        if torn.ok then (DohState([], Some([]), torn.s), TornDown) else (d.(router := torn.s), Failed)
    else if !c.credentials then (d, Failed)
    else
      var lowered := Lowered(desired);
      if d.last == Some(lowered) && SameMacs(d.managed, lowered) then (d, Skipped)
      else if !connected then (d, Failed)
      else
        var pushed := P.Apply(d.router, lowered, ips);
        if pushed.ok then (DohState(lowered, Some(lowered), pushed.s), Pushed) else (d.(router := pushed.s), Failed)
  }

  /** What each call reports and remembers, by the switches, what was remembered, the demand and whether the session and
      the apply work. */
  lemma ReportsAre(c: Switches, d: DohState, desired: seq<string>, connected: bool, ips: seq<string>)
    requires F.Kernel(d.router.t)
    ensures
      var (after, r) := DohTick(c, d, desired, connected, ips);
      var skips := d.last == Some(Lowered(desired)) && forall m :: m in d.managed <==> m in Lowered(desired);
      && (r.Disabled? <==> !c.on && d.managed == [])
      && (r.Skipped? <==> c.on && c.credentials && skips)
      && (r.TornDown? <==> !c.on && d.managed != [] && c.credentials && connected && X.Returns(d.router, [], ips))
      && (r.Pushed? <==> c.on && c.credentials && !skips && connected && X.Returns(d.router, Lowered(desired), ips))
      && (r.TornDown? ==> after.managed == [] && after.last == Some([]))
      && (r.Pushed? ==> after.managed == Lowered(desired) && after.last == Some(Lowered(desired)))
      && (r.Disabled? || r.Skipped? ==> after == d)
      && (r.Failed? && !c.on && !c.credentials ==> after == DohState([], Some([]), d.router))
      && (r.Failed? && (c.on || c.credentials) ==> after.managed == d.managed && after.last == d.last)
      && (r.Failed? && (!connected || !c.credentials) ==> after.router == d.router)
  {
    hide P.Apply, X.Returns, F.Kernel, Lowered, SameMacs;
    X.ApplyReturnsIff(d.router, [], ips);
    X.ApplyReturnsIff(d.router, Lowered(desired), ips);
    SameMacsIff(d.managed, Lowered(desired));
  }

  lemma SameMacsIff(a: seq<string>, b: seq<string>)
    ensures SameMacs(a, b) <==> forall m :: m in a <==> m in b
  {
    var x, y := set m | m in a, set m | m in b;
    assert forall m :: (m in x <==> m in a) && (m in y <==> m in b);
    if forall m :: m in a <==> m in b { assert x == y; }
  }

  /** What the stage asks for: the MACs of the demand that have a colon, in lower case, in order and each once. */
  lemma LoweredIs(desired: seq<string>, m: string)
    ensures Ascending(Lowered(desired))
    ensures m in Lowered(desired) <==> exists raw :: raw in desired && ':' in raw && Lower(raw) == m
  {
    LowerWithColonHas(desired, m);
  }

  lemma DohTickKeeps(c: Switches, d: DohState, desired: seq<string>, connected: bool, ips: seq<string>)
    ensures P.Keeps(d.router.t, DohTick(c, d, desired, connected, ips).0.router.t)
  {
    hide P.Apply, Lowered;
    P.ApplyKeeps(d.router, [], ips);
    P.ApplyKeeps(d.router, Lowered(desired), ips);
  }

  /** No command is going to be refused without reason, and none was so far. */
  ghost predicate Sane(d: DohState) {
    P.Reliable(d.router.script) && F.Kernel(d.router.t) && F.Jumps(d.router.t.forward) <= 1
  }

  lemma DohTickReaches(c: Switches, d: DohState, desired: seq<string>, connected: bool, ips: seq<string>)
    requires Sane(d)
    ensures
      var (after, r) := DohTick(c, d, desired, connected, ips);
      && F.Jumps(after.router.t.forward) <= 1
      && (r.Pushed? && F.CleanMacs(after.managed) == [] ==> after.router.t == F.Untouched(d.router.t))
      && (r.Pushed? && F.CleanMacs(after.managed) != [] ==> after.router.t == F.Installed(d.router.t, after.managed, ips))
      && (r.TornDown? ==> after.router.t == F.Untouched(d.router.t))
  {
    hide P.Apply, P.Reliable, F.Kernel, F.Jumps, F.Untouched, F.Installed, F.CleanMacs, F.TornDown, Lowered;
    TornDownIsUntouched(d.router.t);
    NothingToBlock();
    ApplyReaches(d.router, [], ips);
    ApplyReaches(d.router, Lowered(desired), ips);
  }

  lemma ApplyReaches(s: P.Session, macs: seq<string>, ips: seq<string>)
    requires P.Reliable(s.script) && F.Kernel(s.t) && F.Jumps(s.t.forward) <= 1
    ensures
      var r := P.Apply(s, macs, ips);
      && F.Jumps(r.s.t.forward) <= 1
      && (r.ok ==> r.s.t == if F.CleanMacs(macs) == [] then F.TornDown(s.t) else F.Installed(s.t, macs, ips))
  {
    hide P.Apply, P.Reliable, F.Kernel, F.Jumps, F.Installed, F.CleanMacs, F.TornDown;
    P.ReliableKeepsOneJump(s, macs, ips);
    if P.Apply(s, macs, ips).ok { P.WholeApply(s, macs, ips); }
  }

  /** A call that reports a push or a tear-down has reached what it is for if and only if nothing it had to do was
      refused. */
  lemma DohTickReachesIff(c: Switches, d: DohState, desired: seq<string>, connected: bool, ips: seq<string>)
    requires F.Kernel(d.router.t)
    ensures
      var (after, r) := DohTick(c, d, desired, connected, ips);
      && (r.TornDown? || (r.Pushed? && F.CleanMacs(Lowered(desired)) == []) ==>
           (after.router.t == F.Untouched(d.router.t) <==> X.Restores(X.AfterProbe(d.router))))
      && (r.Pushed? && F.CleanMacs(Lowered(desired)) != [] ==>
           (after.router.t == F.Installed(d.router.t, Lowered(desired), ips) <==> Reaches(d, desired, ips)))
  {
    hide P.Apply, F.Kernel, F.Untouched, F.Installed, F.CleanMacs, Lowered, X.AfterProbe, X.Restores, X.Reaches;
    NothingToBlock();
    ReachesIff(d.router, [], ips);
    ReachesIff(d.router, Lowered(desired), ips);
  }

  /** No rule iptables can read and no address was refused, and our jump was found if it was there. */
  predicate Reaches(d: DohState, desired: seq<string>, ips: seq<string>) {
    X.Reaches(X.AfterProbe(d.router), F.CleanMacs(Lowered(desired)), ips)
  }

  lemma ReachesIff(s: P.Session, macs: seq<string>, ips: seq<string>)
    requires F.Kernel(s.t)
    ensures
      var r := P.Apply(s, macs, ips);
      && (r.ok && F.CleanMacs(macs) == [] ==> (r.s.t == F.Untouched(s.t) <==> X.Restores(X.AfterProbe(s))))
      && (r.ok && F.CleanMacs(macs) != [] ==>
           (r.s.t == F.Installed(s.t, macs, ips) <==> X.Reaches(X.AfterProbe(s), F.CleanMacs(macs), ips)))
  {
    hide P.Apply, F.Kernel, F.Untouched, F.Installed, F.CleanMacs, X.AfterProbe, X.Restores, X.Reaches;
    if P.Apply(s, macs, ips).ok { X.ApplyReachesIff(s, macs, ips); }
  }

  /** Calls of one adapter one after another: what each is asked for, and whether it connects. */
  function DohTicks(c: Switches, d: DohState, ticks: seq<(seq<string>, bool)>, ips: seq<string>): DohState
    decreases |ticks|
  {
    if ticks == [] then d else DohTicks(c, DohTick(c, d, ticks[0].0, ticks[0].1, ips).0, ticks[1..], ips)
  }

  lemma {:induction false} EqualDemandsSkip(c: Switches, d: DohState, ticks: seq<(seq<string>, bool)>, ips: seq<string>)
    requires c.on && c.credentials && d.last == Some(d.managed)
    requires forall t :: t in ticks ==> Lowered(t.0) == d.managed
    ensures DohTicks(c, d, ticks, ips) == d
    decreases |ticks|
  {
    if ticks != [] {
      hide Lowered;
      assert ticks[0] in ticks;
      EqualDemandsSkip(c, d, ticks[1..], ips);
    }
  }

  /** A push that returns without having reached its goal is not noticed: while the same adapter is asked for the
      same devices it does nothing, and the firewall stays wrong if and only if something was refused. */
  lemma SkippedTicksLeaveIff(c: Switches, d: DohState, desired: seq<string>, connected: bool, ticks: seq<(seq<string>, bool)>,
      ips: seq<string>)
    requires F.Kernel(d.router.t) && c.on && DohTick(c, d, desired, connected, ips).1.Pushed?
    requires F.CleanMacs(Lowered(desired)) != [] && forall t :: t in ticks ==> Lowered(t.0) == Lowered(desired)
    ensures
      var after := DohTicks(c, DohTick(c, d, desired, connected, ips).0, ticks, ips);
      after.router.t == F.Installed(d.router.t, Lowered(desired), ips) <==> Reaches(d, desired, ips)
  {
    hide P.Apply, F.Kernel, F.Installed, F.CleanMacs, Lowered, Reaches;
    DohTickReachesIff(c, d, desired, connected, ips);
    EqualDemandsSkip(c, DohTick(c, d, desired, connected, ips).0, ticks, ips);
  }

  /** An adapter just built, as the registry does for every tick, never skips: it pushes if and only if the session
      opens and the apply returns. */
  lemma RebuiltPushesIff(c: Switches, d: DohState, desired: seq<string>, connected: bool, ips: seq<string>)
    requires F.Kernel(d.router.t) && c.on && c.credentials && d.last.None?
    ensures DohTick(c, d, desired, connected, ips).1.Pushed? <==> connected && X.Returns(d.router, Lowered(desired), ips)
  {
    hide P.Apply, F.Kernel, Lowered, X.Returns;
    X.ApplyReturnsIff(d.router, Lowered(desired), ips);
  }

  /** Nothing of ours is in the firewall unless the settings remember it. */
  predicate Accounted(d: DohState) {
    d.managed == [] ==> d.router.t == F.Untouched(d.router.t)
  }

  /** Switched off with no password: the settings forget what the firewall still holds. */
  predicate Forgets(c: Switches, d: DohState) {
    !c.on && !c.credentials && d.managed != [] && d.router.t != F.Untouched(d.router.t)
  }

  /** A push while nothing is remembered that gets past the creation of the set and then breaks off. */
  predicate BreaksOff(c: Switches, d: DohState, desired: seq<string>, connected: bool, ips: seq<string>) {
    && c.on && c.credentials && connected && d.managed == [] && Lowered(desired) != []
    && P.Head(d.router.script).Works? && P.Head(P.Tail(d.router.script)).Works?
    && !X.Returns(d.router, Lowered(desired), ips)
  }

  /** A tear-down of something remembered that returns although a command it had to get through was refused. */
  predicate LeavesBehind(c: Switches, d: DohState, desired: seq<string>, connected: bool, ips: seq<string>) {
    && connected && c.credentials && d.managed != [] && (!c.on || Lowered(desired) == [])
    && X.Returns(d.router, [], ips) && !X.Restores(X.AfterProbe(d.router))
  }

  /** The books stay right if and only if the call does none of the three. */
  lemma BooksStayRightIff(c: Switches, d: DohState, desired: seq<string>, connected: bool, ips: seq<string>)
    requires F.Kernel(d.router.t) && Accounted(d)
    ensures Accounted(DohTick(c, d, desired, connected, ips).0) <==>
      !Forgets(c, d) && !BreaksOff(c, d, desired, connected, ips) && !LeavesBehind(c, d, desired, connected, ips)
  {
    hide P.Apply, P.Head, P.Tail, F.Kernel, F.Untouched, F.Installed, F.CleanMacs, Lowered, SameMacs, Reaches, X.Restores, X.AfterProbe,
      X.Returns;
    NothingLowered(desired);
    NothingToBlock();
    UntouchedTwice(d.router.t);
    UsersUntouched(c, d, desired, connected, ips);
    DohTickReachesIff(c, d, desired, connected, ips);
    X.ApplyReturnsIff(d.router, Lowered(desired), ips);
    X.ApplyReturnsIff(d.router, [], ips);
    if SameMacs(d.managed, Lowered(desired)) { SameEmptiness(d.managed, Lowered(desired)); }
    if d.managed == [] {
      if F.CleanMacs(Lowered(desired)) == [] {
        P.EmptyApplyLeavesAlone(d.router, Lowered(desired), ips);
      } else {
        P.NonemptyApplyLeavesAloneIff(d.router, Lowered(desired), ips);
      }
    }
  }

  lemma UsersUntouched(c: Switches, d: DohState, desired: seq<string>, connected: bool, ips: seq<string>)
    ensures F.Untouched(DohTick(c, d, desired, connected, ips).0.router.t) == F.Untouched(d.router.t)
  {
    hide P.Apply, Lowered, F.UserRules, F.Kernel;
    DohTickKeeps(c, d, desired, connected, ips);
  }

  lemma UntouchedTwice(t: F.Tables)
    ensures F.Untouched(F.Untouched(t)) == F.Untouched(t)
  {
    P.UsersHaveNoJump(t.forward);
    F.JumpsCount(F.UserRules(t.forward));
  }

  lemma {:induction false} LoweredHaveColons(macs: seq<string>, m: string)
    requires m in LowerWithColon(macs)
    ensures ':' in m
  {
    if ':' in macs[0] && m == Lower(macs[0]) {
      var i :| 0 <= i < |macs[0]| && macs[0][i] == ':';
      assert Lower(macs[0])[i] == ':';
    } else {
      LoweredHaveColons(macs[1..], m);
    }
  }

  lemma SameEmptiness(a: seq<string>, b: seq<string>)
    requires SameMacs(a, b)
    ensures a == [] <==> b == []
  {
    var of := set m | m in a;
    assert a != [] ==> a[0] in of;
    assert b != [] ==> b[0] in of;
  }

  /** Of what the adapter asks for the apply drops nothing. */
  lemma NothingLowered(desired: seq<string>)
    ensures Lowered(desired) == [] <==> F.CleanMacs(Lowered(desired)) == []
  {
    hide Lower, Strip;
    if Lowered(desired) != [] {
      var m := Lowered(desired)[0];
      assert m in Lowered(desired);
      LoweredHaveColons(desired, m);
      F.WithColonsHas(Lowered(desired), Lower(Strip(m)));
      assert Lower(Strip(m)) in F.CleanMacs(Lowered(desired));
    }
  }

  /** A push that breaks off while nothing is remembered is an error nobody remembers: switching the stage off
      afterwards tears nothing down, and what the push put in stays. */
  lemma BrokenFirstPushStays(d: DohState, desired: seq<string>, ips: seq<string>, later: seq<string>, connected: bool)
    requires Accounted(d) && BreaksOff(Switches(true, true), d, desired, true, ips)
    ensures
      var (broken, first) := DohTick(Switches(true, true), d, desired, true, ips);
      var (after, second) := DohTick(Switches(false, true), broken, later, connected, ips);
      && first.Failed? && second.Disabled? && after == broken
      && after.router.t != F.Untouched(after.router.t)
  {
    hide P.Apply, P.Head, P.Tail, F.CleanMacs, F.UserRules, Lowered, SameMacs, X.Returns;
    P.UsersHaveNoJump(d.router.t.forward);
    NothingLowered(desired);
    if SameMacs(d.managed, Lowered(desired)) { SameEmptiness(d.managed, Lowered(desired)); }
    X.ApplyReturnsIff(d.router, Lowered(desired), ips);
    P.NonemptyApplyLeavesAloneIff(d.router, Lowered(desired), ips);
  }

  /** It does happen: the connection is lost when the set has just been created. */
  lemma FirstPushCanBreakOff(d: DohState, desired: seq<string>, ips: seq<string>)
    requires d.managed == [] && d.last.None? && d.router.script == [P.Works, P.Works, P.Lost]
    requires Lowered(desired) != []
    ensures BreaksOff(Switches(true, true), d, desired, true, ips)
  {
    hide Lowered, F.CleanMacs, X.NoLoss;
    NothingLowered(desired);
    assert P.Tail(d.router.script) == [P.Works, P.Lost];
    assert !X.SetReturns(P.Tail(d.router.script), ips);
  }

  /** With nothing refused without reason, the first push breaks off if and only if the connection is lost after
      the set's creation and before the last of the commands the push takes. */
  lemma ReliableBreaksOffIff(d: DohState, desired: seq<string>, ips: seq<string>)
    requires P.Reliable(d.router.script) && Accounted(d) && d.managed == [] && Lowered(desired) != []
    ensures BreaksOff(Switches(true, true), d, desired, true, ips) <==>
      X.NoLoss(d.router.script, 0, 2) && !X.NoLoss(d.router.script, 0, X.PushLength(d.router.t, F.CleanMacs(Lowered(desired)), ips))
  {
    hide F.CleanMacs, F.UserRules, Lowered, X.Returns, X.NoLoss, X.PushLength, P.Apply;
    P.UsersHaveNoJump(d.router.t.forward);
    NothingLowered(desired);
    X.ApplyReturnsIff(d.router, Lowered(desired), ips);
    X.ReliablePushReturnsIff(d.router, Lowered(desired), ips);
    X.ReliableAt(d.router.script, 0);
    X.ReliableAt(d.router.script, 1);
    X.NoLossFirst(d.router.script, 2);
    X.NoLossFirst(P.Tail(d.router.script), 1);
    X.NothingToLose(P.Tail(P.Tail(d.router.script)), 0);
  }

  /** With our jump in the firewall, a tear-down whose deletion of it is refused by the firewall's lock reports
      success: jump and chain stay, nothing remembers them, and no later switch-off takes them away. */
  lemma RefusedDeletionStays(d: DohState, desired: seq<string>, ips: seq<string>, later: seq<string>, connected: bool)
    requires F.Kernel(d.router.t) && F.Jumps(d.router.t.forward) == 1
    requires d.managed != [] && d.router.script == [P.Works, P.Works, P.Works, P.Refused]
    ensures
      var off := Switches(false, true);
      var (after, r) := DohTick(off, d, desired, true, ips);
      && r.TornDown? && after.managed == [] && !Accounted(after)
      && F.Jumps(after.router.t.forward) == 1 && after.router.t.chain.Some?
      && !Forgets(off, d) && !BreaksOff(off, d, desired, true, ips) && LeavesBehind(off, d, desired, true, ips)
      && DohTick(off, after, later, connected, ips) == (after, Disabled)
  {
    hide F.Jumps, F.UserRules, F.WithoutFirstJump, Lowered;
    F.JumpsCount(d.router.t.forward);
    NothingToBlock();
    var probed := X.AfterProbe(d.router);
    assert probed.script == [P.Works, P.Works, P.Refused];
    assert probed.script[1..] == [P.Works, P.Refused] && probed.script[1..][1..] == [P.Refused] && [P.Refused][1..] == [];
    X.NeverLost(probed.script);
    X.ApplyReturnsIff(d.router, [], ips);
    X.FlushChainReturnsIff(probed);
  }

  // ---- the adapter ---------------------------------------------------------------------------------

  class AsusAdapter {
    // what the settings table remembers
    var managedKill: seq<string>
    var managedDns: seq<string>
    var managedDoh: seq<string>
    var dnsEnabled: bool
    var dnsIp: string
    var sshEnabled: bool
    var dohEnabled: bool
    var credentials: bool
    // what this adapter remembers
    var lastKillPush: Option<seq<string>>
    var lastDohPush: Option<seq<string>>
    // the router
    var block: B.BlockNvram
    var dns: D.DnsNvram
    const ssh: S.Router
    const dohIps: seq<string>

    constructor (router: S.Router, ips: seq<string>, block: B.BlockNvram, dns: D.DnsNvram)
      ensures ssh == router && dohIps == ips && this.block == block && this.dns == dns
      ensures managedKill == [] && managedDns == [] && managedDoh == []
      ensures lastKillPush.None? && lastDohPush.None?
    {
      ssh, dohIps, this.block, this.dns := router, ips, block, dns;
      managedKill, managedDns, managedDoh := [], [], [];
      dnsEnabled, dnsIp, sshEnabled, dohEnabled, credentials := false, "", false, false, false;
      lastKillPush, lastDohPush := None, None;
    }

    /** Stage 1.  `read` is how the router returns the list; `works` says whether the exchange succeeds. */
    method ApplyKillSwitch(desired: seq<string>, labels: map<string, string>, read: B.BlockNvram, works: bool)
      returns (r: Report)
      requires B.ReadsAs(block, read)
      modifies this`block, this`managedKill, this`lastKillPush
      ensures r == if old(lastKillPush) == Some(Sorted(desired)) then Skipped else if works then Pushed else Failed
      ensures r.Pushed? ==>
        && block == B.Pushed(read, B.Norms(old(managedKill)), desired, labels)
        && B.Norms(managedKill) == B.Norms(desired) && lastKillPush == Some(managedKill)
      ensures !r.Pushed? ==> block == old(block) && managedKill == old(managedKill) && lastKillPush == old(lastKillPush)
      ensures old(lastKillPush) in {None, Some(old(managedKill))} ==> lastKillPush in {None, Some(managedKill)}
    {
      var sorted := Sorted(desired);
      if lastKillPush == Some(sorted) { return Skipped; }
      if !works { return Failed; }
      var written, _ := B.ApplyManagedBlockedMacs(read, desired, managedKill, labels);
      block := written;
      SortedIsSame(desired);
      managedKill := sorted;
      lastKillPush := Some(sorted);
      return Pushed;
    }

    method BuildPairs(desired: seq<string>, names: map<string, string>) returns (pairs: seq<(string, string)>)
      ensures pairs == Pairs(desired, names)
    {
      hide NameOf, Lower, R.AdapterLabel;
      pairs := [];
      var seen: set<string> := {};
      for i := 0 to |desired|
        invariant pairs == Pairs(desired[..i], names)
        invariant seen == set m | m in MacsIn(pairs)
      {
        assert desired[..i + 1][..i] == desired[..i];
        var mac := desired[i];
        var m := Lower(mac);
        if mac == "" || m in seen {
          continue;
        }
        seen := seen + {m};
        ghost var before := pairs;
        pairs := pairs + [(R.AdapterLabel(NameOf(names, mac), m), m)];
        assert MacsIn(pairs) == MacsIn(before) + [m];
      }
      assert desired[..|desired|] == desired;
    }

    /** Stage 2: redirects the desired devices, or takes every rule of ours out once when switched off. */
    method ApplyDnsDirector(desired: seq<string>, names: map<string, string>, read: D.DnsNvram, works: bool)
      returns (r: Report)
      requires R.ReadsAs(dns, read)
      modifies this`dns, this`managedDns
      ensures r.Disabled? <==> !dnsEnabled && old(managedDns) == []
      ensures r.Failed? <==> (dnsEnabled && (dnsIp == "" || !works)) || (!dnsEnabled && old(managedDns) != [] && !works)
      ensures r.Pushed? ==> dnsEnabled && dns == D.Pushed(read, B.Norms(old(managedDns)), Pairs(desired, names), dnsIp)
      ensures r.Pushed? ==> B.Norms(managedDns) == D.Macs(D.Clean(Pairs(desired, names))) == B.Norms(desired)
      ensures r.TornDown? ==>
        && !dnsEnabled && managedDns == []
        && dns == D.Pushed(read, B.Norms(old(managedDns)), [], if dnsIp != "" then dnsIp else "0.0.0.0")
      ensures r.Disabled? || r.Failed? ==> dns == old(dns) && managedDns == old(managedDns)
      ensures !r.Skipped?
    {
      if !dnsEnabled {
        if managedDns == [] { return Disabled; }
        if !works { return Failed; }
        dns := D.ApplyManagedDnsDirector(read, [], if dnsIp != "" then dnsIp else "0.0.0.0", managedDns);
        managedDns := [];
        return TornDown;
      }
      if dnsIp == "" { return Failed; }
      var pairs := BuildPairs(desired, names);
      if !works { return Failed; }
      dns := D.ApplyManagedDnsDirector(read, pairs, dnsIp, managedDns);
      NextTickKnowsOurs(desired, names);
      managedDns := MacsIn(pairs);
      return Pushed;
    }

    /** Stage 3's settings. */
    function DohSwitches(): Switches
      reads this`sshEnabled, this`dohEnabled, this`credentials
    {
      Switches(sshEnabled && dohEnabled, credentials)
    }

    /** What stage 3 remembers, and the router it works on. */
    function DohNow(): DohState
      reads this`managedDoh, this`lastDohPush, ssh
    {
      DohState(managedDoh, lastDohPush, ssh.Now())
    }

    /** Stage 3: `connected` says whether the SSH session opens. */
    method ApplyDohBlock(desired: seq<string>, connected: bool) returns (r: Report)
      modifies this`managedDoh, this`lastDohPush, ssh
      ensures r.Disabled? <==> !(sshEnabled && dohEnabled) && old(managedDoh) == []
      ensures r.Skipped? || r.Pushed? ==> sshEnabled && dohEnabled && credentials
      ensures r.TornDown? ==> !(sshEnabled && dohEnabled) && credentials
      ensures (DohNow(), r) == DohTick(DohSwitches(), old(DohNow()), desired, connected, dohIps)
      ensures P.Keeps(old(ssh.State()), ssh.State())
      ensures old(Sane(DohNow())) ==> F.Jumps(ssh.forward) <= 1
      ensures old(Sane(DohNow())) && r.Pushed? ==>
        ssh.State() == if F.CleanMacs(managedDoh) == [] then F.Untouched(old(ssh.State())) else F.Installed(old(ssh.State()), managedDoh, dohIps)
      ensures old(Sane(DohNow())) && r.TornDown? ==> ssh.State() == F.Untouched(old(ssh.State()))
      ensures old(F.Kernel(ssh.State())) && r.Pushed? && F.CleanMacs(managedDoh) != [] ==>
        (ssh.State() == F.Installed(old(ssh.State()), managedDoh, dohIps) <==> Reaches(old(DohNow()), desired, dohIps))
      ensures old(F.Kernel(ssh.State())) && (r.TornDown? || (r.Pushed? && F.CleanMacs(managedDoh) == [])) ==>
        (ssh.State() == F.Untouched(old(ssh.State())) <==> X.Restores(X.AfterProbe(old(ssh.Now()))))
      ensures old(F.Kernel(ssh.State()) && Accounted(DohNow())) ==>
        (Accounted(DohNow()) <==>
          && !Forgets(DohSwitches(), old(DohNow()))
          && !BreaksOff(DohSwitches(), old(DohNow()), desired, connected, dohIps)
          && !LeavesBehind(DohSwitches(), old(DohNow()), desired, connected, dohIps))
    {
      hide P.Apply, P.Keeps, P.Reliable, F.Kernel, F.Jumps, F.Untouched, F.Installed, F.CleanMacs, Lowered, SameMacs, Forgets, BreaksOff,
        LeavesBehind, Accounted, Reaches, X.Restores, X.AfterProbe;
      ghost var c, d := DohSwitches(), DohNow();
      DohTickKeeps(c, d, desired, connected, dohIps);
      if Sane(d) { DohTickReaches(c, d, desired, connected, dohIps); }
      if F.Kernel(d.router.t) { DohTickReachesIff(c, d, desired, connected, dohIps); }
      if F.Kernel(d.router.t) && Accounted(d) { BooksStayRightIff(c, d, desired, connected, dohIps); }
      if !(sshEnabled && dohEnabled) {
        if managedDoh == [] { return Disabled; }
        if !credentials {
          managedDoh, lastDohPush := [], Some([]);
          return Failed;
        }
        if !connected { return Failed; }
        var ok, _, _ := ssh.ApplyDohBlocklist([], dohIps);
        if !ok { return Failed; }
        managedDoh, lastDohPush := [], Some([]);
        return TornDown;
      }
      if !credentials { return Failed; }
      var lowered := Lowered(desired);
      if Some(lowered) == lastDohPush && SameMacs(managedDoh, lowered) { return Skipped; }
      if !connected { return Failed; }
      var ok, _, _ := ssh.ApplyDohBlocklist(lowered, dohIps);
      if !ok { return Failed; }
      managedDoh, lastDohPush := lowered, Some(lowered);
      return Pushed;
    }
  }

  lemma NothingToBlock()
    ensures F.CleanMacs([]) == []
  {
  }

  lemma TornDownIsUntouched(t: F.Tables)
    requires F.Kernel(t) && F.Jumps(t.forward) <= 1
    ensures F.TornDown(t) == F.Untouched(t)
    ensures F.Untouched(F.Untouched(t)) == F.Untouched(t)
  {
    F.TearDownRestoresIff(t);
    F.JumpsCount(F.UserRules(t.forward));
  }
}
