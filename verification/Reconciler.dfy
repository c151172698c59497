/** One reconcile tick: purge, follow MACs, resolve every device, push the map. */
module Reconcile {
  import opened Records
  import opened Tables
  import opened StoreSpec
  import opened Selections
  import opened Resolution
  import opened Migration
  import opened MacAnchoring
  import opened Push
  import opened DeviceStore

  // ---- the tick as a function of what it reads -------------------------------------

  /** The tables once the tick has purged and followed the router's snapshot. */
  ghost function Settled(db: Db, c: Clock, reports: seq<Report>, froms: seq<Option<string>>, env: Env): Db
    requires |reports| == |froms| && ValidRun(Purged(db, c.utc), reports, froms, env, |reports|)
  {
    After(Purged(db, c.utc), reports, froms, env, |reports|)
  }

  function At<K, B>(groups: map<K, seq<B>>, k: K): seq<B> {
    if k in groups then groups[k] else []
  }

  /** Grouping rows by target, as the resolve step does before it looks anyone up. */
  method GroupByTarget<B>(rows: seq<Row<B>>) returns (groups: map<Target, seq<(nat, B)>>)
    ensures forall t :: At(groups, t) == RowsFor(rows, t)
  {
    groups := map[];
    assert forall t :: RowsFor(rows[..0], t) == [];
    hide RowsFor, At;
    for i := 0 to |rows|
      invariant forall t :: At(groups, t) == RowsFor(rows[..i], t)
    {
      var r := rows[i];
      assert rows[..i + 1] == rows[..i] + [r];
      GroupOneMore(groups, rows[..i], r);
      groups := groups[r.target := At(groups, r.target) + [(r.id, r.body)]];
    }
    assert rows[..|rows|] == rows;
  }

  lemma GroupOneMore<B>(groups: map<Target, seq<(nat, B)>>, rows: seq<Row<B>>, r: Row<B>)
    requires forall t :: At(groups, t) == RowsFor(rows, t)
    ensures
      var after := groups[r.target := At(groups, r.target) + [(r.id, r.body)]];
      forall t :: At(after, t) == RowsFor(rows + [r], t)
  {
    hide RowsFor;
    var after := groups[r.target := At(groups, r.target) + [(r.id, r.body)]];
    forall t ensures At(after, t) == RowsFor(rows + [r], t) {
      RowsForAppend(rows, r, t);
      assert At(groups, t) + [] == At(groups, t);
    }
  }

  /** Minutes of each target on one day. */
  function DayUsage(usage: Usage<string>, date: string): map<Target, int> {
    map t | t in (set k | k in usage && k.1 == date :: k.0) :: Get(usage, (t, date))
  }

  lemma DayUsageGet(usage: Usage<string>, date: string, t: Target)
    ensures Get(DayUsage(usage, date), t) == Get(UsageOf(usage, t), date)
  {
  }

  /** The snapshot a tick resolves from, grouped by target. */
  datatype Inputs = Inputs(
    schedules: map<Target, seq<(nat, ScheduleBody)>>,
    quotas: map<Target, seq<(nat, QuotaBody)>>,
    overrides: map<Target, seq<(nat, OverrideBody)>>,
    usage: map<Target, int>)
  {
    function StateFor(t: Target, base: Option<string>): TargetState {
      TargetState(base, At(schedules, t) + At(schedules, AllTarget), At(quotas, t), At(overrides, t), Get(usage, t))
    }
  }

  /** The groups hold the tables' rows, the overrides only the live ones. */
  ghost predicate Describes(inputs: Inputs, db: Db, c: Clock) {
    && (forall t :: At(inputs.schedules, t) == RowsFor(db.schedules, t))
    && (forall t :: At(inputs.quotas, t) == RowsFor(db.quotas, t))
    && (forall t :: At(inputs.overrides, t) == RowsFor(Unexpired(db.overrides, c.utc), t))
    && (forall t :: Get(inputs.usage, t) == Get(UsageOf(db.usage, t), c.date))
  }

  method ResolvePeople(inputs: Inputs, profiles: map<int, Option<string>>, ghost db: Db, c: Clock)
    returns (people: map<int, Trace>)
    requires ValidClock(c) && Describes(inputs, db, c) && profiles == db.people
    ensures people.Keys == db.people.Keys
    ensures forall p :: p in people ==> people[p] == PersonTrace(db, p, c)
  {
    people := map[];
    var todo := profiles.Keys;
    while todo != {}
      invariant todo <= profiles.Keys && people.Keys == profiles.Keys - todo
      invariant forall p :: p in people ==> people[p] == PersonTrace(db, p, c)
      decreases todo
    {
      NonEmptyInts(todo);
      var pid :| pid in todo;
      var t := PersonTarget(pid);
      people := people[pid := Resolve(inputs.StateFor(t, profiles[pid]), c, Some(pid))];
      UnexpiredResolvesAlike(db, t, profiles[pid], c, Some(pid));
      todo := todo - {pid};
    }
  }

  method ResolveDevices(inputs: Inputs, devices: map<string, Device>, people: map<int, Trace>, ghost db: Db, c: Clock)
    returns (effective: map<string, Trace>)
    requires ValidClock(c) && Describes(inputs, db, c) && devices == db.devices
    requires people.Keys == db.people.Keys && forall p :: p in people ==> people[p] == PersonTrace(db, p, c)
    ensures effective == Effective(db, c)
  {
    hide Resolve;
    effective := map[];
    var todo := devices.Keys;
    while todo != {}
      invariant todo <= devices.Keys && effective.Keys == devices.Keys - todo
      invariant forall ip :: ip in effective ==> effective[ip] == DeviceTrace(db, ip, c)
      decreases todo
    {
      var ip :| ip in todo;
      var d, t := devices[ip], DeviceTarget(ip);
      var trace := Resolve(inputs.StateFor(t, d.baseProfile), c, None);
      UnexpiredResolvesAlike(db, t, d.baseProfile, c, None);
      if d.personId.Some? && d.personId.value != 0 && d.personId.value in people {
        trace := MergePerson(trace, Some(people[d.personId.value]));
      }
      effective := effective[ip := trace];
      todo := todo - {ip};
    }
  }

  /** The addresses at which recording the MAC, or the vendor, raises. */
  datatype Faults = Faults(record: set<string>, refresh: set<string>)

  /** The migration one entry reports, if any. */
  function MoveOf(db: Db, r: Report, from: Option<string>): seq<FollowReport> {
    if from.None? then [] else [FollowedTo(NormMac(r), from.value, r.ip, r.ip in db.devices)]
  }

  /** The migrations of a pass, in order. */
  ghost function Followed(db: Db, reports: seq<Report>, froms: seq<Option<string>>, env: Env, k: nat): seq<FollowReport>
    requires k <= |reports| == |froms| && ValidRun(db, reports, froms, env, k)
  {
    if k == 0 then []
    else Followed(db, reports, froms, env, k - 1) + MoveOf(After(db, reports, froms, env, k - 1), reports[k - 1], froms[k - 1])
  }

  /** How many of the first `k` entries moved a device. */
  function Moves(froms: seq<Option<string>>, k: nat): nat
    requires k <= |froms|
  {
    if k == 0 then 0 else Moves(froms, k - 1) + if froms[k - 1].Some? then 1 else 0
  }

  /** Each entry that moved a device is reported with its MAC and both addresses, in its place, and nothing else is. */
  lemma {:induction false} FollowedAre(db: Db, reports: seq<Report>, froms: seq<Option<string>>, env: Env, k: nat, i: nat)
    requires i < k <= |reports| == |froms| && ValidRun(db, reports, froms, env, k)
    ensures |Followed(db, reports, froms, env, k)| == Moves(froms, k) >= Moves(froms, i)
    ensures froms[i].Some? ==>
      && Moves(froms, i) < Moves(froms, k)
      && IsMove(Followed(db, reports, froms, env, k)[Moves(froms, i)], NormMac(reports[i]), froms[i].value, reports[i].ip)
    ensures ValidRun(db, reports, froms, env, i)
    ensures froms[i].Some? ==>
      (Followed(db, reports, froms, env, k)[Moves(froms, i)].mergedBlankNew <==> reports[i].ip in After(db, reports, froms, env, i).devices)
  {
    hide After, NormMac;
    var init, one := Followed(db, reports, froms, env, k - 1), MoveOf(After(db, reports, froms, env, k - 1), reports[k - 1], froms[k - 1]);
    assert Followed(db, reports, froms, env, k) == init + one;
    if i < k - 1 {
      FollowedAre(db, reports, froms, env, k - 1, i);
    } else if k - 1 > 0 {
      FollowedAre(db, reports, froms, env, k - 1, 0);
    }
  }

  predicate IsMove(f: FollowReport, mac: string, oldIp: string, newIp: string) {
    f.FollowedTo? && f.mac == mac && f.oldIp == oldIp && f.newIp == newIp
  }

  lemma {:induction false} FollowedExtends(db: Db, reports: seq<Report>, froms: seq<Option<string>>, env: Env, k: nat,
          r: Report, f: Option<string>)
    requires k <= |reports| == |froms| && ValidRun(db, reports, froms, env, k)
    ensures ValidRun(db, reports + [r], froms + [f], env, k)
    ensures Followed(db, reports + [r], froms + [f], env, k) == Followed(db, reports, froms, env, k)
  {
    hide MoveOf, Step;
    RunExtends(db, reports, froms, env, k, r, f);
    if k > 0 {
      RunExtends(db, reports, froms, env, k - 1, r, f);
      FollowedExtends(db, reports, froms, env, k - 1, r, f);
      assert (reports + [r])[k - 1] == reports[k - 1] && (froms + [f])[k - 1] == froms[k - 1];
    }
  }

  class Reconciler {
    const store: Store
    const client: AppConfig

    constructor (store: Store, client: AppConfig)
      ensures this.store == store && this.client == client
    {
      this.store, this.client := store, client;
    }

    /** Handles the snapshot entries in order.  A raising follow skips its entry; a raising record of the MAC or
        of the vendor ends the pass. */
    method ReconcileDeviceMacs(reports: seq<Report>, env: Env, faults: Faults)
      returns (migrations: seq<FollowReport>, raised: bool, ghost froms: seq<Option<string>>)
      requires forall r :: r in reports ==> r.ip != ""
      modifies store
      ensures |froms| <= |reports| && ValidRun(old(store.State()), reports[..|froms|], froms, env, |froms|)
      ensures !raised ==>
        |froms| == |reports| && reports[..|froms|] == reports && store.State() == After(old(store.State()), reports, froms, env, |froms|)
      ensures raised ==>
        && |froms| < |reports| && reports[|froms|].ip in faults.record + faults.refresh
        && StoppedAt(After(old(store.State()), reports[..|froms|], froms, env, |froms|), reports[|froms|], env, store.State())
      ensures !raised ==> migrations == Followed(old(store.State()), reports, froms, env, |froms|)
    {
      hide Step, ValidChoice, MoveOf, StoppedAt;
      migrations, froms, raised := [], [], false;
      ghost var db := store.State();
      for i := 0 to |reports|
        invariant |froms| == i && ValidRun(db, reports[..i], froms, env, i)
        invariant store.State() == After(db, reports[..i], froms, env, i)
        invariant migrations == Followed(db, reports[..i], froms, env, i)
      {
        ghost var mid := store.State();
        var moved, stopped;
        ghost var from;
        moved, stopped, from := HandleEntry(reports[i], env, faults);
        if stopped { return migrations, true, froms; }
        migrations := migrations + moved;
        assert reports[..i + 1] == reports[..i] + [reports[i]];
        RunExtends(db, reports[..i], froms, env, i, reports[i], from);
        FollowedExtends(db, reports[..i], froms, env, i, reports[i], from);
        froms := froms + [from];
      }
      assert reports[..|reports|] == reports;
    }

    /** One entry: follow the device or record its MAC, then refresh the vendor. */
    method HandleEntry(r: Report, env: Env, faults: Faults)
      returns (moved: seq<FollowReport>, raised: bool, ghost from: Option<string>)
      requires r.ip != ""
      modifies store
      ensures !raised ==>
        ValidChoice(old(store.State()), r, from) && store.State() == Step(old(store.State()), r, from, env)
      ensures !raised ==> moved == MoveOf(old(store.State()), r, from)
      ensures raised ==> r.ip in faults.record + faults.refresh && StoppedAt(old(store.State()), r, env, store.State())
    {
      hide Migrated, WithMac, WithFingerprint, Candidates, StoreNorm;
      moved, raised, from := [], false, None;
      if r.mac == "" || '/' in r.ip || r.fails { return; }
      var report := store.FollowDeviceToNewIp(r.mac, r.ip, env.now);
      if report.FollowedTo? {
        moved := [report];
        from := Some(report.oldIp);
      } else {
        if r.ip in faults.record { return moved, true, from; }
        store.SetDeviceMac(r.ip, r.mac, env.now);
      }
      var vendor := env.vendorOf(r.mac);
      if Truthy(vendor) && r.ip in store.devices && store.devices[r.ip].vendor != vendor {
        if r.ip in faults.refresh {
          assert ValidChoice(old(store.State()), r, from);
          assert store.State() == Step(old(store.State()), r, from, Env(env.now, NoVendors()));
          return moved, true, from;
        }
        store.SetDeviceFingerprint(r.ip, vendor, store.devices[r.ip].hint, env.now);
      }
    }

    /** The resolve loops: people first, then devices merged with their person. */
    method ResolveAll(c: Clock) returns (effective: map<string, Trace>)
      requires ValidClock(c)
      ensures effective == Effective(store.State(), c)
    {
      ghost var db := store.State();
      var schedules := GroupByTarget(store.schedules);
      var quotas := GroupByTarget(store.quotas);
      var actives := store.ActiveOverrides(c.utc);
      var overrides := GroupByTarget(actives);
      var inputs := Inputs(schedules, quotas, overrides, DayUsage(store.usage, c.date));
      assert Describes(inputs, db, c) by {
        forall t ensures Get(inputs.usage, t) == Get(UsageOf(db.usage, t), c.date) { DayUsageGet(db.usage, c.date, t); }
      }
      var people := ResolvePeople(inputs, store.people, db, c);
      effective := ResolveDevices(inputs, store.devices, people, db, c);
    }

    /** One tick.  `reports` is empty when no router is configured or its client list cannot be read.  When the
        pass over the snapshot raises, the tick ends there and nothing is pushed. */
    method Tick(c: Clock, reports: seq<Report>, env: Env, faults: Faults, readFails: bool, writeFails: bool)
      returns (report: PushReport, raised: bool, ghost froms: seq<Option<string>>)
      requires ValidClock(c) && forall r :: r in reports ==> r.ip != ""
      modifies store, client
      ensures |froms| <= |reports| && ValidRun(Purged(old(store.State()), c.utc), reports[..|froms|], froms, env, |froms|)
      ensures raised ==>
        && |froms| < |reports| && reports[|froms|].ip in faults.record + faults.refresh
        && StoppedAt(After(Purged(old(store.State()), c.utc), reports[..|froms|], froms, env, |froms|), reports[|froms|], env, store.State())
        && client.networkGroupMap == old(client.networkGroupMap)
      ensures !raised ==>
        |froms| == |reports| && reports[..|froms|] == reports && store.State() == Settled(old(store.State()), c, reports, froms, env)
      ensures
        var pushed := Pushed(old(client.networkGroupMap), Effective(store.State(), c));
        client.networkGroupMap == if raised || report.error then old(client.networkGroupMap) else pushed
      ensures client.groups == old(client.groups)
      ensures !raised && !report.error ==> RightManaged(client.networkGroupMap, Effective(store.State(), c))
      ensures !raised && !readFails && !writeFails ==> !report.error
    {
      var _ := store.PurgeExpiredOverrides(c.utc);
      var migrations;
      migrations, raised, froms := ReconcileDeviceMacs(reports, env, faults);
      if raised { return PushReport(0, true), true, froms; }
      var effective := ResolveAll(c);
      report := Apply(client, effective, readFails, writeFails);
      PushIsExact(old(client.networkGroupMap), effective, Pushed(old(client.networkGroupMap), effective));
    }
  }

  // ---- purging is invisible ---------------------------------------------------------

  lemma {:induction false} ActiveOfKept(rows: seq<Row<OverrideBody>>, p: Row<OverrideBody> -> bool, t: Target, utc: int)
    requires forall o :: p(o) <==> o.body.expiresAt > utc
    ensures Active(RowsFor(Select(rows, p), t), utc) == Active(RowsFor(rows, t), utc)
    ensures RowsFor(rows, t) == [] ==> RowsFor(Select(rows, p), t) == []
  {
    if rows != [] {
      var r, rest := rows[0], rows[1..];
      ActiveOfKept(rest, p, t, utc);
      KeptCons(r, Select(rest, p), rest, p(r), t, utc);
    }
  }

  lemma KeptCons(r: Row<OverrideBody>, kept: seq<Row<OverrideBody>>, rest: seq<Row<OverrideBody>>, keep: bool,
          t: Target, utc: int)
    requires keep <==> r.body.expiresAt > utc
    requires Active(RowsFor(kept, t), utc) == Active(RowsFor(rest, t), utc)
    ensures Active(RowsFor((if keep then [r] else []) + kept, t), utc)
      == Active((if r.target == t then [(r.id, r.body)] else []) + RowsFor(rest, t), utc)
    ensures r.target != t && RowsFor(kept, t) == [] ==> RowsFor((if keep then [r] else []) + kept, t) == []
  {
    var x := (r.id, r.body);
    RowsForCons(r, kept, t);
    ActiveCons(x, RowsFor(kept, t), utc);
    ActiveCons(x, RowsFor(rest, t), utc);
    assert [] + kept == kept && [] + RowsFor(rest, t) == RowsFor(rest, t) && [] + RowsFor(kept, t) == RowsFor(kept, t);
  }

  lemma RowsForCons<B>(r: Row<B>, rows: seq<Row<B>>, t: Target)
    ensures RowsFor([r] + rows, t) == (if r.target == t then [(r.id, r.body)] else []) + RowsFor(rows, t)
  {
  }

  lemma ActiveCons(o: (nat, OverrideBody), rows: seq<(nat, OverrideBody)>, utc: int)
    ensures Active([o] + rows, utc) == (if o.1.expiresAt > utc then [o] else []) + Active(rows, utc)
  {
  }

  lemma ActiveOfUnexpired(rows: seq<Row<OverrideBody>>, t: Target, utc: int)
    ensures Active(RowsFor(Unexpired(rows, utc), t), utc) == Active(RowsFor(rows, t), utc)
    ensures RowsFor(rows, t) == [] ==> RowsFor(Unexpired(rows, utc), t) == []
  {
    ActiveOfKept(rows, (o: Row<OverrideBody>) => o.body.expiresAt > utc, t, utc);
  }

  /** Dropping the expired rows first changes no resolution. */
  lemma UnexpiredResolvesAlike(db: Db, t: Target, base: Option<string>, c: Clock, person: Option<int>)
    requires ValidClock(c)
    ensures
      Resolve(StateOf(db, t, base, c.date).(overrides := RowsFor(Unexpired(db.overrides, c.utc), t)), c, person)
      == Resolve(StateOf(db, t, base, c.date), c, person)
  {
    ActiveOfUnexpired(db.overrides, t, c.utc);
  }

  /** The purge at the start of a tick changes nobody's trace. */
  lemma PurgeKeepsTraces(db: Db, ip: string, c: Clock)
    requires ip in db.devices && ValidClock(c)
    ensures DeviceTrace(Purged(db, c.utc), ip, c) == DeviceTrace(db, ip, c)
  {
    var d := db.devices[ip];
    UnexpiredResolvesAlike(db, DeviceTarget(ip), d.baseProfile, c, None);
    if d.personId.Some? && d.personId.value in db.people {
      UnexpiredResolvesAlike(db, PersonTarget(d.personId.value), db.people[d.personId.value], c, Some(d.personId.value));
    }
  }

  // ---- end to end --------------------------------------------------------------------

  /** A device known by its MAC at `o` that the router reports at a free address: after the tick the new
      address resolves, at the tick's clock, to what the tables gave the old one before it, and the group
      map says so; if nobody else is reported at the old address, it has no managed entry left. */
  lemma ProfileFollowsEndToEnd(db: Db, net: GroupMap, c: Clock, reports: seq<Report>, froms: seq<Option<string>>,
          env: Env, i: nat, o: string)
    requires ValidClock(c)
    requires i < |reports| == |froms| && ValidRun(Purged(db, c.utc), reports, froms, env, |reports|)
    requires OneAddressPerMac(reports) && forall r :: r in reports ==> r.ip != ""
    requires !Skipped(reports[i])
    requires Surplus(db, reports[i]) == {o} && TargetFree(db, o, reports[i].ip)
    requires forall j :: 0 <= j < i ==> Skipped(reports[j]) || reports[j].ip != o
    ensures
      var db', n := Settled(db, c, reports, froms, env), reports[i].ip;
      var net' := Pushed(net, Effective(db', c));
      var wanted := DesiredGroup(DeviceTrace(db, o, c));
      && n in db'.devices && DeviceTrace(db', n, c) == DeviceTrace(db, o, c)
      && (wanted.Some? ==> Lookup(net', n) == wanted)
      && (wanted.None? ==> Lookup(net', n).None? || !Managed(net'[n]))
      && ((forall j :: 0 <= j < |reports| ==> Skipped(reports[j]) || reports[j].ip != o) ==>
            Lookup(net', o).None? || !Managed(net'[o]))
  {
    hide DeviceTrace, Resolve, After, DesiredGroup;
    var start, n := Purged(db, c.utc), reports[i].ip;
    var db' := Settled(db, c, reports, froms, env);
    ActiveOfUnexpired(db.overrides, DeviceTarget(n), c.utc);
    assert Surplus(start, reports[i]) == Surplus(db, reports[i]);
    ProfileFollowsDevice(start, reports, froms, env, |reports|, i, o);
    SameDeviceSameTrace(db', n, start, o, c);
    PurgeKeepsTraces(db, o, c);
    LookupPushed(net, Effective(db', c), n);
    if forall j :: 0 <= j < |reports| ==> Skipped(reports[j]) || reports[j].ip != o {
      OldAddressStaysEmpty(start, reports, froms, env, |reports|, i, o);
      LookupPushed(net, Effective(db', c), o);
    }
  }

  /** Everyone the snapshot does not concern keeps trace and group. */
  lemma OthersKeepTheirTrace(db: Db, net: GroupMap, c: Clock, reports: seq<Report>, froms: seq<Option<string>>,
          env: Env, x: string)
    requires ValidClock(c)
    requires |reports| == |froms| && ValidRun(Purged(db, c.utc), reports, froms, env, |reports|)
    requires OneAddressPerMac(reports) && forall r :: r in reports ==> r.ip != ""
    requires x in db.devices && Unconcerned(db, reports, x)
    ensures
      var db' := Settled(db, c, reports, froms, env);
      && x in db'.devices && DeviceTrace(db', x, c) == DeviceTrace(db, x, c)
      && var net', wanted := Pushed(net, Effective(db', c)), DesiredGroup(DeviceTrace(db, x, c));
      && (wanted.Some? ==> Lookup(net', x) == wanted)
      && (wanted.None? ==> Lookup(net', x).None? || !Managed(net'[x]))
  {
    var start := Purged(db, c.utc);
    var db' := Settled(db, c, reports, froms, env);
    assert forall r :: Surplus(start, r) == Surplus(db, r);
    OthersKeepTheirs(start, reports, froms, env, |reports|, x);
    SnapshotConserves(start, reports, froms, env, |reports|);
    SameDeviceSameTrace(db', x, start, x, c);
    PurgeKeepsTraces(db, x, c);
    LookupPushed(net, Effective(db', c), x);
  }

  lemma {:induction false} OldAddressStaysEmpty(db: Db, reports: seq<Report>, froms: seq<Option<string>>, env: Env,
          k: nat, i: nat, o: string)
    requires i < k <= |reports| == |froms|
    requires ValidRun(db, reports, froms, env, k)
    requires OneAddressPerMac(reports) && forall r :: r in reports ==> r.ip != ""
    requires !Skipped(reports[i]) && Surplus(db, reports[i]) == {o}
    requires forall j :: 0 <= j < |reports| ==> Skipped(reports[j]) || reports[j].ip != o
    ensures o !in After(db, reports, froms, env, k).devices
    decreases k
  {
    var mid, r := After(db, reports, froms, env, k - 1), reports[k - 1];
    if k > i + 1 {
      OldAddressStaysEmpty(db, reports, froms, env, k - 1, i, o);
      if !Skipped(r) { StepRows(mid, r, froms[k - 1], env); }
    } else {
      StillThere(db, reports, froms, env, i, i, o);
      CandidatesOnlyShrink(db, reports, froms, env, i, reports[i]);
      StepRows(mid, r, froms[i], env);
    }
  }

  /** Until its own entry is handled, the device's row is where it was. */
  lemma {:induction false} StillThere(db: Db, reports: seq<Report>, froms: seq<Option<string>>, env: Env, k: nat,
          i: nat, o: string)
    requires k <= i < |reports| == |froms|
    requires ValidRun(db, reports, froms, env, k)
    requires OneAddressPerMac(reports)
    requires !Skipped(reports[i]) && o in Surplus(db, reports[i])
    requires forall j :: 0 <= j < |reports| ==> Skipped(reports[j]) || reports[j].ip != o
    ensures o in Surplus(After(db, reports, froms, env, k), reports[i])
  {
    if k > 0 {
      StillThere(db, reports, froms, env, k - 1, i, o);
      if !Skipped(reports[k - 1]) {
        StepRows(After(db, reports, froms, env, k - 1), reports[k - 1], froms[k - 1], env);
      }
    }
  }
}
