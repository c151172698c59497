/** One pass over the router's address-to-MAC snapshot, and what any such pass guarantees. */
module MacAnchoring {
  import opened Records
  import opened Tables
  import opened StoreSpec
  import opened Resolution
  import opened Migration

  /** One snapshot entry; `fails` says that following the device raises, which skips the entry. */
  datatype Report = Report(ip: string, mac: string, fails: bool)

  /** The time the rows are stamped with, and the OUI table. */
  datatype Env = Env(now: int, vendorOf: string -> Option<string>)

  predicate Skipped(r: Report) {
    r.mac == "" || '/' in r.ip || r.fails
  }

  function NormMac(r: Report): string {
    StoreNorm(r.mac)
  }

  /** `from` is a row the store may pick for this entry: some row with the MAC elsewhere, or none if there is none. */
  predicate ValidChoice(db: Db, r: Report, from: Option<string>) {
    if Skipped(r) || r.ip == "" || Candidates(db, r.mac, r.ip) == {} then from == None
    else from.Some? && from.value in Candidates(db, r.mac, r.ip)
  }

  function Refreshed(db: Db, ip: string, vendor: Option<string>, now: int): Db {
    if Truthy(vendor) && ip in db.devices && db.devices[ip].vendor != vendor
    then WithFingerprint(db, ip, vendor, db.devices[ip].hint, now) else db
  }

  /** The database after one entry has been handled. */
  function Step(db: Db, r: Report, from: Option<string>, env: Env): Db
    requires ValidChoice(db, r, from)
  {
    if Skipped(r) then db
    else
      var mid := if from.Some? then Migrated(db, from.value, r.ip, NormMac(r), env.now)
                 else WithMac(db, r.ip, r.mac, env.now);
      Refreshed(mid, r.ip, env.vendorOf(r.mac), env.now)
  }

  /** The first `k` entries can be handled with these choices. */
  ghost predicate ValidRun(db: Db, reports: seq<Report>, froms: seq<Option<string>>, env: Env, k: nat)
    requires k <= |reports| == |froms|
    decreases k, 0
  {
    k == 0 || (ValidRun(db, reports, froms, env, k - 1)
               && ValidChoice(After(db, reports, froms, env, k - 1), reports[k - 1], froms[k - 1]))
  }

  /** The database after the first `k` entries. */
  ghost function After(db: Db, reports: seq<Report>, froms: seq<Option<string>>, env: Env, k: nat): Db
    requires k <= |reports| == |froms|
    requires ValidRun(db, reports, froms, env, k)
    decreases k, 1
  {
    if k == 0 then db
    else Step(After(db, reports, froms, env, k - 1), reports[k - 1], froms[k - 1], env)
  }

  /** A run only depends on the entries it has handled. */
  lemma {:induction false} RunExtends(db: Db, reports: seq<Report>, froms: seq<Option<string>>, env: Env, k: nat,
          r: Report, f: Option<string>)
    requires k <= |reports| == |froms|
    requires ValidRun(db, reports, froms, env, k)
    ensures ValidRun(db, reports + [r], froms + [f], env, k)
    ensures After(db, reports + [r], froms + [f], env, k) == After(db, reports, froms, env, k)
  {
    if k > 0 {
      RunExtends(db, reports, froms, env, k - 1, r, f);
      assert (reports + [r])[k - 1] == reports[k - 1] && (froms + [f])[k - 1] == froms[k - 1];
    }
  }

  /** The dictionary has one entry per address, and no MAC is at two addresses. */
  predicate OneAddressPerMac(reports: seq<Report>) {
    forall i, j :: 0 <= i < j < |reports| ==>
      reports[i].ip != reports[j].ip
      && (!Skipped(reports[i]) && !Skipped(reports[j]) ==> NormMac(reports[i]) != NormMac(reports[j]))
  }

  // ---- one entry -------------------------------------------------------------

  /** Rows and MACs after one entry: the reported row carries the reported MAC, the row it came from is gone,
      and every other row is as it was. */
  lemma StepRows(db: Db, r: Report, from: Option<string>, env: Env)
    requires ValidChoice(db, r, from) && !Skipped(r)
    ensures
      var db' := Step(db, r, from, env);
      && r.ip in db'.devices && db'.devices[r.ip].mac == Some(NormMac(r))
      && (from.Some? ==> from.value in db.devices && from.value != r.ip && from.value !in db'.devices
                         && db.devices[from.value].mac == Some(NormMac(r)))
      && (forall x :: x in db'.devices <==> x == r.ip || (x in db.devices && from != Some(x)))
      && (forall x :: x in db.devices && x != r.ip && from != Some(x) ==> db'.devices[x] == db.devices[x])
  {
  }

  /** A vendor refresh touches vendor, hint and time of one row. */
  lemma RefreshedKeeps(db: Db, ip: string, vendor: Option<string>, now: int)
    ensures
      var db' := Refreshed(db, ip, vendor, now);
      && db' == db.(devices := db'.devices) && db'.devices.Keys == db.devices.Keys
      && (forall x :: x in db.devices ==>
            db'.devices[x].baseProfile == db.devices[x].baseProfile && db'.devices[x].personId == db.devices[x].personId
            && CarriesOver(db.devices[x], db'.devices[x]))
  {
  }

  /** Keyed rows, usage and people after one entry: moved if a device moved, else untouched. */
  lemma StepKeyed(db: Db, r: Report, from: Option<string>, env: Env)
    requires ValidChoice(db, r, from)
    ensures
      var db' := Step(db, r, from, env);
      var moved := if from.Some? then Migrated(db, from.value, r.ip, NormMac(r), env.now) else db;
      && db'.overrides == moved.overrides && db'.schedules == moved.schedules && db'.quotas == moved.quotas
      && db'.usage == moved.usage && db'.appUsage == moved.appUsage
      && db'.people == moved.people && db'.nextOverride == moved.nextOverride
      && (from.Some? ==>
            r.ip in db'.devices && r.ip in moved.devices
            && db'.devices[r.ip].baseProfile == moved.devices[r.ip].baseProfile
            && db'.devices[r.ip].personId == moved.devices[r.ip].personId
            && CarriesOver(moved.devices[r.ip], db'.devices[r.ip]))
  {
    hide Refreshed, MergedDevice, StoreNorm;
    if !Skipped(r) {
      var mid := if from.Some? then Migrated(db, from.value, r.ip, NormMac(r), env.now) else WithMac(db, r.ip, r.mac, env.now);
      RefreshedKeeps(mid, r.ip, env.vendorOf(r.mac), env.now);
    }
  }

  /** The OUI table's vendor, where it has one, is on the row afterwards, with the time if that is news; without one the
      entry leaves the vendor it found.  Either way the row is seen now. */
  lemma StepSetsVendor(db: Db, r: Report, from: Option<string>, env: Env)
    requires ValidChoice(db, r, from) && r.mac != "" && '/' !in r.ip && !r.fails
    ensures
      var vendor, row := env.vendorOf(r.mac), Step(db, r, from, env).devices[r.ip];
      var found := (if from.Some? then Migrated(db, from.value, r.ip, NormMac(r), env.now) else WithMac(db, r.ip, r.mac, env.now)).devices[r.ip];
      && row.lastSeen == Some(env.now)
      && (vendor.Some? && vendor.value != "" ==> row.vendor == vendor)
      && (vendor == None || vendor == Some("") || vendor == found.vendor ==> row == found)
      && (vendor.Some? && vendor.value != "" && vendor != found.vendor ==> row == found.(vendor := vendor, inferredAt := Some(env.now)))
  {
    hide StoreNorm;
  }

  lemma StepConserves(db: Db, r: Report, from: Option<string>, env: Env)
    requires ValidChoice(db, r, from)
    ensures Conserves(db, Step(db, r, from, env))
  {
    StepKeyed(db, r, from, env);
    if from.Some? {
      MigrationConserves(db, from.value, r.ip, NormMac(r), env.now);
      var moved := Migrated(db, from.value, r.ip, NormMac(r), env.now);
      assert forall t: Target :: KeyedAgree(Step(db, r, from, env), t, moved, t);
    }
  }

  /** Every snapshot pass, with any failures, conserves minutes and keyed rows. */
  lemma {:induction false} SnapshotConserves(db: Db, reports: seq<Report>, froms: seq<Option<string>>, env: Env, k: nat)
    requires k <= |reports| == |froms|
    requires ValidRun(db, reports, froms, env, k)
    ensures Conserves(db, After(db, reports, froms, env, k))
  {
    if k > 0 {
      SnapshotConserves(db, reports, froms, env, k - 1);
      var mid := After(db, reports, froms, env, k - 1);
      StepConserves(mid, reports[k - 1], froms[k - 1], env);
      ConservesTransitive(db, mid, After(db, reports, froms, env, k));
    }
  }

  function NoVendors(): string -> Option<string> {
    _ => None
  }

  /** What is left when recording the MAC or the vendor of an entry raises, which ends the pass: the entry has
      not been handled, or all of it has but the vendor. */
  ghost predicate StoppedAt(db: Db, r: Report, env: Env, state: Db) {
    state == db || exists from :: ValidChoice(db, r, from) && state == Step(db, r, from, Env(env.now, NoVendors()))
  }

  /** A pass that ends early conserves as well. */
  lemma StoppedPassConserves(db: Db, reports: seq<Report>, froms: seq<Option<string>>, env: Env, k: nat, r: Report,
          state: Db)
    requires k <= |reports| == |froms| && ValidRun(db, reports, froms, env, k)
    requires StoppedAt(After(db, reports, froms, env, k), r, env, state)
    ensures Conserves(db, state)
  {
    hide After, Step, Conserves, ValidChoice;
    var mid := After(db, reports, froms, env, k);
    SnapshotConserves(db, reports, froms, env, k);
    if state != mid {
      var from :| ValidChoice(mid, r, from) && state == Step(mid, r, from, Env(env.now, NoVendors()));
      StepConserves(mid, r, from, Env(env.now, NoVendors()));
      ConservesTransitive(db, mid, state);
    }
  }

  // ---- anchoring -------------------------------------------------------------

  /** After the pass every handled address has a row carrying its MAC. */
  lemma {:induction false} SnapshotAnchors(db: Db, reports: seq<Report>, froms: seq<Option<string>>, env: Env, k: nat)
    requires k <= |reports| == |froms|
    requires ValidRun(db, reports, froms, env, k)
    requires OneAddressPerMac(reports)
    ensures
      var db' := After(db, reports, froms, env, k);
      forall j :: 0 <= j < k && !Skipped(reports[j]) ==>
        reports[j].ip in db'.devices && db'.devices[reports[j].ip].mac == Some(NormMac(reports[j]))
  {
    if k > 0 {
      SnapshotAnchors(db, reports, froms, env, k - 1);
      if !Skipped(reports[k - 1]) {
        StepRows(After(db, reports, froms, env, k - 1), reports[k - 1], froms[k - 1], env);
      }
    }
  }

  ghost predicate UniqueMacs(db: Db) {
    forall x, y :: x in db.devices && y in db.devices && x != y && db.devices[x].mac.Some? ==>
      db.devices[x].mac != db.devices[y].mac
  }

  lemma StepKeepsMacsUnique(db: Db, r: Report, from: Option<string>, env: Env)
    requires ValidChoice(db, r, from) && UniqueMacs(db) && r.ip != ""
    ensures UniqueMacs(Step(db, r, from, env))
  {
    if !Skipped(r) {
      StepRows(db, r, from, env);
      var db' := Step(db, r, from, env);
      forall x | x in db'.devices && x != r.ip ensures db'.devices[x].mac != Some(NormMac(r)) {
        assert db'.devices[x] == db.devices[x];
        assert db.devices[x].mac == Some(NormMac(r)) ==> x in Candidates(db, r.mac, r.ip);
      }
    }
  }

  lemma {:induction false} SnapshotKeepsMacsUnique(db: Db, reports: seq<Report>, froms: seq<Option<string>>, env: Env,
          k: nat)
    requires k <= |reports| == |froms|
    requires ValidRun(db, reports, froms, env, k)
    requires UniqueMacs(db) && forall r :: r in reports ==> r.ip != ""
    ensures UniqueMacs(After(db, reports, froms, env, k))
  {
    if k > 0 {
      SnapshotKeepsMacsUnique(db, reports, froms, env, k - 1);
      StepKeepsMacsUnique(After(db, reports, froms, env, k - 1), reports[k - 1], froms[k - 1], env);
    }
  }

  /** Rows carrying the MAC of entry `i` anywhere but at its reported address. */
  function Surplus(db: Db, r: Report): set<string> {
    Candidates(db, r.mac, r.ip)
  }

  /** No entry adds to another MAC's surplus; a MAC's own entry takes exactly one row out of its surplus, if there is one. */
  lemma StepSurplus(db: Db, r: Report, from: Option<string>, env: Env, q: Report)
    requires ValidChoice(db, r, from)
    requires r.ip != ""
    requires q == r || Skipped(r) || (q.ip != r.ip && NormMac(q) != NormMac(r))
    ensures Surplus(Step(db, r, from, env), q) <= Surplus(db, q)
    ensures q == r && !Skipped(r) ==>
      Surplus(Step(db, r, from, env), r) == if from.Some? then Surplus(db, r) - {from.value} else {}
  {
    if !Skipped(r) {
      StepRows(db, r, from, env);
    }
  }

  /** A pass that reports a MAC strictly shrinks that MAC's surplus until none is left, and never grows any. */
  lemma {:induction false} SnapshotShrinksSurplus(db: Db, reports: seq<Report>, froms: seq<Option<string>>, env: Env,
          k: nat, i: nat)
    requires k <= |reports| == |froms| && i < |reports|
    requires ValidRun(db, reports, froms, env, k)
    requires OneAddressPerMac(reports) && forall r :: r in reports ==> r.ip != ""
    requires !Skipped(reports[i])
    ensures
      var left := Surplus(After(db, reports, froms, env, k), reports[i]);
      left <= Surplus(db, reports[i]) && (i < k && Surplus(db, reports[i]) != {} ==> left < Surplus(db, reports[i]))
  {
    if k > 0 {
      SnapshotShrinksSurplus(db, reports, froms, env, k - 1, i);
      var mid := After(db, reports, froms, env, k - 1);
      StepSurplus(mid, reports[k - 1], froms[k - 1], env, reports[i]);
    }
  }

  /** One pass: what the router reports, which rows the store picks, and the tables' surroundings. */
  datatype Pass = Pass(reports: seq<Report>, froms: seq<Option<string>>, env: Env)

  /** The pass can run on these tables, and handles the MAC of `r` at its address. */
  ghost predicate Handles(db: Db, p: Pass, r: Report) {
    && |p.reports| == |p.froms| && ValidRun(db, p.reports, p.froms, p.env, |p.reports|)
    && OneAddressPerMac(p.reports) && (forall q :: q in p.reports ==> q.ip != "")
    && exists i :: 0 <= i < |p.reports| && SameReport(p.reports[i], r)
  }

  /** Handled, and the same MAC at the same address. */
  predicate SameReport(q: Report, r: Report) {
    !Skipped(q) && q.ip == r.ip && NormMac(q) == NormMac(r) && q.mac != "" && r.mac != ""
  }

  ghost predicate CanPass(db: Db, passes: seq<Pass>, r: Report)
    decreases |passes|
  {
    passes == [] || (Handles(db, passes[0], r) && CanPass(AfterPass(db, passes[0], r), passes[1..], r))
  }

  ghost function AfterPass(db: Db, p: Pass, r: Report): Db
    requires Handles(db, p, r)
  {
    After(db, p.reports, p.froms, p.env, |p.reports|)
  }

  ghost function AfterPasses(db: Db, passes: seq<Pass>, r: Report): Db
    requires CanPass(db, passes, r)
    decreases |passes|
  {
    if passes == [] then db else AfterPasses(AfterPass(db, passes[0], r), passes[1..], r)
  }

  lemma {:induction false} SubsetIsSmaller(a: set<string>, b: set<string>)
    requires a <= b
    ensures |a| <= |b| && (a < b ==> |a| < |b|)
  {
    if a != {} {
      var x :| x in a;
      SubsetIsSmaller(a - {x}, b - {x});
    }
  }

  /** The row at the reported address carries the MAC. */
  predicate Recorded(db: Db, r: Report) {
    r.ip in db.devices && db.devices[r.ip].mac == Some(NormMac(r))
  }

  lemma PassShrinksSurplus(db: Db, p: Pass, r: Report)
    requires Handles(db, p, r)
    ensures
      var db', before := AfterPass(db, p, r), |Surplus(db, r)|;
      && |Surplus(db', r)| <= (if before == 0 then 0 else before - 1)
      && Recorded(db', r)
  {
    hide After, ValidRun, Skipped;
    var i :| 0 <= i < |p.reports| && SameReport(p.reports[i], r);
    var db' := AfterPass(db, p, r);
    SnapshotShrinksSurplus(db, p.reports, p.froms, p.env, |p.reports|, i);
    SnapshotAnchors(db, p.reports, p.froms, p.env, |p.reports|);
    assert Surplus(db, p.reports[i]) == Surplus(db, r) && Surplus(db', p.reports[i]) == Surplus(db', r);
    SubsetIsSmaller(Surplus(db', r), Surplus(db, r));
  }

  lemma {:induction false} PassesShrinkSurplus(db: Db, passes: seq<Pass>, r: Report)
    requires CanPass(db, passes, r)
    ensures |Surplus(AfterPasses(db, passes, r), r)| <= (if |Surplus(db, r)| <= |passes| then 0 else |Surplus(db, r)| - |passes|)
    ensures passes != [] ==> Recorded(AfterPasses(db, passes, r), r)
    decreases |passes|
  {
    if passes != [] {
      hide AfterPass, Handles, Surplus, Recorded;
      PassShrinksSurplus(db, passes[0], r);
      PassesShrinkSurplus(AfterPass(db, passes[0], r), passes[1..], r);
      assert passes[1..] == [] ==> AfterPasses(db, passes, r) == AfterPass(db, passes[0], r);
    }
  }

  /** Pass after pass that reports the MAC at one address removes at least one stray row, so after as many passes
      as there were stray rows the MAC is on the reported row alone. */
  lemma PassesClearSurplus(db: Db, passes: seq<Pass>, r: Report)
    requires CanPass(db, passes, r) && passes != [] && |Surplus(db, r)| <= |passes| && r.mac != ""
    ensures
      var db' := AfterPasses(db, passes, r);
      forall x :: x in db'.devices ==> (db'.devices[x].mac == Some(NormMac(r)) <==> x == r.ip)
  {
    hide AfterPasses, CanPass;
    PassesShrinkSurplus(db, passes, r);
    var db' := AfterPasses(db, passes, r);
    forall x | x in db'.devices && db'.devices[x].mac == Some(NormMac(r)) ensures x == r.ip {
      assert x != r.ip ==> x in Surplus(db', r);
    }
  }

  // ---- the profile follows -----------------------------------------------------

  /** The entry disturbs neither the device at `o` carrying `mac` nor the address `n`. */
  predicate LeavesAlone(r: Report, mac: string, o: string, n: string) {
    Skipped(r) || (r.ip != o && r.ip != n && NormMac(r) != mac)
  }

  /** An entry for another MAC at another address leaves the device at `o` and everything keyed to it alone. */
  lemma StepLeavesDevice(db: Db, r: Report, from: Option<string>, env: Env, o: string)
    requires ValidChoice(db, r, from)
    requires o in db.devices && (Skipped(r) || (r.ip != o && db.devices[o].mac != Some(NormMac(r))))
    ensures var db' := Step(db, r, from, env);
      o in db'.devices && db'.devices[o] == db.devices[o] && SameDevice(db', o, db, o)
  {
    StepKeyed(db, r, from, env);
    if !Skipped(r) {
      StepRows(db, r, from, env);
      if from.Some? {
        OtherTargetUntouched(db, from.value, r.ip, NormMac(r), env.now, DeviceTarget(o));
      }
    }
  }

  /** An address nobody reports stays free for the device at `o`. */
  lemma StepLeavesFree(db: Db, r: Report, from: Option<string>, env: Env, o: string, n: string)
    requires ValidChoice(db, r, from)
    requires o in db.devices && o != n && TargetFree(db, o, n)
    requires Skipped(r) || (r.ip != o && r.ip != n && db.devices[o].mac != Some(NormMac(r)))
    ensures var db' := Step(db, r, from, env); o in db'.devices && TargetFree(db', o, n)
  {
    StepKeyed(db, r, from, env);
    StepLeavesDevice(db, r, from, env, o);
    if !Skipped(r) {
      StepRows(db, r, from, env);
      if from.Some? {
        StepLeavesTables(db, r, from.value, env, o, n);
      }
    }
  }

  lemma StepLeavesTables(db: Db, r: Report, f: string, env: Env, o: string, n: string)
    requires f in db.devices && f != r.ip && f != o && r.ip != o && r.ip != n && o != n
    requires o in db.devices && TargetFree(db, o, n)
    ensures
      var moved := Migrated(db, f, r.ip, NormMac(r), env.now);
      var t := DeviceTarget(n);
      && RowsFor(moved.overrides, t) == [] && RowsFor(moved.schedules, t) == [] && RowsFor(moved.quotas, t) == []
      && AddsNothing(moved.usage, DeviceTarget(o), t) && AddsNothing(moved.appUsage, DeviceTarget(o), t)
  {
    var a, b, t := DeviceTarget(f), DeviceTarget(r.ip), DeviceTarget(n);
    RowsForRetargeted(db.overrides, a, b, t);
    RowsForRetargeted(db.schedules, a, b, t);
    RowsForRetargeted(db.quotas, a, b, t);
    StillAddsNothing(db.usage, a, b, DeviceTarget(o), t);
    StillAddsNothing(db.appUsage, a, b, DeviceTarget(o), t);
  }

  lemma StillAddsNothing<B>(m: Usage<B>, a: Target, b: Target, o: Target, t: Target)
    requires a != b && a != o && b != o && b != t && AddsNothing(m, o, t)
    ensures AddsNothing(MovedUsage(m, a, b), o, t)
  {
  }

  /** Before the device's own entry: it is untouched at its old address and its new address is still free. */
  lemma {:induction false} BeforeItMoves(db: Db, reports: seq<Report>, froms: seq<Option<string>>, env: Env, k: nat,
          o: string, n: string)
    requires k <= |reports| == |froms|
    requires ValidRun(db, reports, froms, env, k)
    requires o in db.devices && o != n && db.devices[o].mac.Some? && TargetFree(db, o, n)
    requires forall j :: 0 <= j < k ==> LeavesAlone(reports[j], db.devices[o].mac.value, o, n)
    ensures var db' := After(db, reports, froms, env, k);
      SameDevice(db', o, db, o) && db'.devices[o] == db.devices[o] && TargetFree(db', o, n)
  {
    if k > 0 {
      BeforeItMoves(db, reports, froms, env, k - 1, o, n);
      var mid := After(db, reports, froms, env, k - 1);
      StepLeavesDevice(mid, reports[k - 1], froms[k - 1], env, o);
      StepLeavesFree(mid, reports[k - 1], froms[k - 1], env, o, n);
    }
  }

  /** The rows anchored to a MAC, wherever they are, if entries of other MACs are handled elsewhere. */
  lemma {:induction false} CandidatesOnlyShrink(db: Db, reports: seq<Report>, froms: seq<Option<string>>, env: Env,
          k: nat, q: Report)
    requires k <= |reports| == |froms|
    requires ValidRun(db, reports, froms, env, k)
    requires forall j :: 0 <= j < k ==> reports[j].ip != "" && (Skipped(reports[j]) || (reports[j].ip != q.ip && NormMac(reports[j]) != NormMac(q)))
    ensures Surplus(After(db, reports, froms, env, k), q) <= Surplus(db, q)
  {
    if k > 0 {
      CandidatesOnlyShrink(db, reports, froms, env, k - 1, q);
      StepSurplus(After(db, reports, froms, env, k - 1), reports[k - 1], froms[k - 1], env, q);
    }
  }

  /** A device known by its MAC at `o` and reported at a free address `n` by entry `i` is, after the pass,
      configured at `n` exactly as it was at `o`, with its name, notes and star, whatever the other entries say:
      provided no entry handled before it takes over its old address.  People and "all" rows are untouched. */
  lemma {:induction false} ProfileFollowsDevice(db: Db, reports: seq<Report>, froms: seq<Option<string>>, env: Env,
          k: nat, i: nat, o: string)
    requires i < k <= |reports| == |froms|
    requires ValidRun(db, reports, froms, env, k)
    requires OneAddressPerMac(reports) && forall r :: r in reports ==> r.ip != ""
    requires !Skipped(reports[i])
    requires Surplus(db, reports[i]) == {o} && TargetFree(db, o, reports[i].ip)
    requires forall j :: 0 <= j < i ==> Skipped(reports[j]) || reports[j].ip != o
    ensures var db' := After(db, reports, froms, env, k);
      && SharedAgree(db', db)
      && SameDevice(db', reports[i].ip, db, o)
      && CarriesOver(db.devices[o], db'.devices[reports[i].ip])
      && db'.devices[reports[i].ip].mac == Some(NormMac(reports[i]))
    decreases k
  {
    var n := reports[i].ip;
    SnapshotConserves(db, reports, froms, env, k);
    SnapshotAnchors(db, reports, froms, env, k);
    var mid := After(db, reports, froms, env, k - 1);
    if k > i + 1 {
      ProfileFollowsDevice(db, reports, froms, env, k - 1, i, o);
      StepLeavesDevice(mid, reports[k - 1], froms[k - 1], env, n);
    } else {
      BeforeItMoves(db, reports, froms, env, i, o, n);
      CandidatesOnlyShrink(db, reports, froms, env, i, reports[i]);
      assert o in Surplus(mid, reports[i]);
      assert froms[i] == Some(o);
      StepKeyed(mid, reports[i], froms[i], env);
      DeviceIsPreservedIffTargetFree(mid, o, n, NormMac(reports[i]), env.now);
      MigrationCarriesOver(mid, o, n, NormMac(reports[i]), env.now);
    }
  }

  /** Nothing in the snapshot concerns the device at `x`: its MAC is not reported elsewhere, and if its own
      address is reported, no row elsewhere carries the MAC reported there. */
  predicate Unconcerned(db: Db, reports: seq<Report>, x: string)
    requires x in db.devices
  {
    forall j :: 0 <= j < |reports| && !Skipped(reports[j]) ==>
      if reports[j].ip == x then Surplus(db, reports[j]) == {} else db.devices[x].mac != Some(NormMac(reports[j]))
  }

  /** Recording a MAC where the device already is changes neither its settings nor anything keyed to it. */
  lemma RecordedInPlace(db: Db, r: Report, env: Env)
    requires !Skipped(r) && ValidChoice(db, r, None) && r.ip in db.devices
    ensures SameDevice(Step(db, r, None, env), r.ip, db, r.ip)
  {
    hide StoreNorm, RowsFor, UsageOf;
    StepKeyed(db, r, None, env);
  }

  /** A device nobody reports elsewhere keeps its row's settings and everything keyed to it. */
  lemma {:induction false} OthersKeepTheirs(db: Db, reports: seq<Report>, froms: seq<Option<string>>, env: Env,
          k: nat, x: string)
    requires k <= |reports| == |froms|
    requires ValidRun(db, reports, froms, env, k)
    requires OneAddressPerMac(reports) && forall r :: r in reports ==> r.ip != ""
    requires x in db.devices && Unconcerned(db, reports, x)
    ensures var db' := After(db, reports, froms, env, k);
      && SameDevice(db', x, db, x)
      && (db'.devices[x].mac == db.devices[x].mac
          || exists j :: 0 <= j < k && !Skipped(reports[j]) && reports[j].ip == x && db'.devices[x].mac == Some(NormMac(reports[j])))
  {
    if k > 0 {
      hide Step, SameDevice, NormMac;
      OthersKeepTheirs(db, reports, froms, env, k - 1, x);
      var mid, r := After(db, reports, froms, env, k - 1), reports[k - 1];
      if Skipped(r) {
        assert After(db, reports, froms, env, k) == mid by { SkippedStep(mid, r, froms[k - 1], env); }
      } else {
        if r.ip == x {
          CandidatesOnlyShrink(db, reports, froms, env, k - 1, r);
          RecordedInPlace(mid, r, env);
          StepRows(mid, r, froms[k - 1], env);
        } else {
          assert mid.devices[x].mac != Some(NormMac(r));
          StepLeavesDevice(mid, r, froms[k - 1], env, x);
        }
      }
    }
  }

  /** An entry without a MAC, about a network, or whose following raises, changes nothing. */
  lemma SkippedStep(db: Db, r: Report, from: Option<string>, env: Env)
    requires ValidChoice(db, r, from) && (r.mac == "" || '/' in r.ip || r.fails)
    ensures Step(db, r, from, env) == db
  {
  }

  // ---- when the profile does not follow ------------------------------------------

  /** No settings and nothing keyed to the address. */
  predicate Unconfigured(db: Db, ip: string) {
    NothingKeyed(db, ip) && (ip in db.devices ==> db.devices[ip].baseProfile == None && db.devices[ip].personId == None)
  }

  lemma StepLeavesUnconfigured(db: Db, r: Report, from: Option<string>, env: Env, n: string)
    requires ValidChoice(db, r, from) && Unconfigured(db, n)
    requires Skipped(r) || r.ip != n || from == None
    ensures Unconfigured(Step(db, r, from, env), n)
  {
    StepKeyed(db, r, from, env);
    if !Skipped(r) {
      StepRows(db, r, from, env);
      if from.Some? {
        if from.value == n {
          OldAddressIsEmpty(db, n, r.ip, NormMac(r), env.now);
        } else {
          OtherTargetUntouched(db, from.value, r.ip, NormMac(r), env.now, DeviceTarget(n));
        }
      }
    }
  }

  /** If an entry handled earlier takes over the old address, the old row is relabelled with the newcomer's
      MAC, the device is no longer known when its own entry comes up, and it starts afresh. */
  lemma {:induction false} LeaseReuseLosesProfile(db: Db, reports: seq<Report>, froms: seq<Option<string>>, env: Env,
          k: nat, j: nat, i: nat, o: string)
    requires j < i < |reports| == |froms| && k <= |reports|
    requires ValidRun(db, reports, froms, env, k)
    requires OneAddressPerMac(reports) && forall r :: r in reports ==> r.ip != ""
    requires !Skipped(reports[j]) && !Skipped(reports[i]) && reports[j].ip == o
    requires Surplus(db, reports[i]) == {o} && Unconfigured(db, reports[i].ip)
    ensures var db' := After(db, reports, froms, env, k);
      && Unconfigured(db', reports[i].ip)
      && Surplus(db', reports[i]) <= {o}
      && (k > j ==> Surplus(db', reports[i]) == {})
  {
    if k > 0 {
      LeaseReuseLosesProfile(db, reports, froms, env, k - 1, j, i, o);
      var mid, r := After(db, reports, froms, env, k - 1), reports[k - 1];
      StepSurplus(mid, r, froms[k - 1], env, reports[i]);
      StepLeavesUnconfigured(mid, r, froms[k - 1], env, reports[i].ip);
      if k - 1 == j {
        StepRows(mid, r, froms[j], env);
      }
    }
  }

  /** For a configured device moving to an unconfigured address, the profile follows exactly when no entry
      handled before its own takes over its old address. */
  lemma ProfileFollowsIff(db: Db, reports: seq<Report>, froms: seq<Option<string>>, env: Env, i: nat, o: string)
    requires i < |reports| == |froms|
    requires ValidRun(db, reports, froms, env, |reports|)
    requires OneAddressPerMac(reports) && forall r :: r in reports ==> r.ip != ""
    requires !Skipped(reports[i])
    requires Surplus(db, reports[i]) == {o} && !Unconfigured(db, o) && Unconfigured(db, reports[i].ip)
    ensures SameDevice(After(db, reports, froms, env, |reports|), reports[i].ip, db, o) <==>
      forall j :: 0 <= j < i ==> Skipped(reports[j]) || reports[j].ip != o
  {
    if j :| 0 <= j < i && !Skipped(reports[j]) && reports[j].ip == o {
      LeaseReuseLosesProfile(db, reports, froms, env, |reports|, j, i, o);
    } else {
      UnconfiguredIsFree(db, o, reports[i].ip);
      ProfileFollowsDevice(db, reports, froms, env, |reports|, i, o);
    }
  }

  lemma UnconfiguredIsFree(db: Db, o: string, n: string)
    requires o in db.devices && Unconfigured(db, n)
    ensures TargetFree(db, o, n)
  {
    NoCountersAddNothing(db.usage, DeviceTarget(o), DeviceTarget(n));
    NoCountersAddNothing(db.appUsage, DeviceTarget(o), DeviceTarget(n));
  }

  lemma NoCountersAddNothing<B>(m: Usage<B>, a: Target, b: Target)
    requires UsageOf(m, b) == map[]
    ensures AddsNothing(m, a, b)
  {
    forall k | k in m ensures k.0 != b {
      UsageOfKey(m, b, k.1);
      assert k == (k.0, k.1);
    }
  }

  /** Two devices that swap addresses in one snapshot end on one configured row: the first merges into the
      address it is reported at, and the second finds its row gone and starts afresh. */
  lemma SwapLosesARow(db: Db, first: Report, second: Report, froms: seq<Option<string>>, env: Env)
    requires |froms| == 2 && ValidRun(db, [first, second], froms, env, 2)
    requires !Skipped(first) && !Skipped(second) && first.ip != "" && second.ip != ""
    requires first.ip != second.ip && NormMac(first) != NormMac(second)
    requires Surplus(db, first) == {second.ip} && Surplus(db, second) == {first.ip}
    ensures var db' := After(db, [first, second], froms, env, 2);
      && second.ip in db'.devices && Unconfigured(db', second.ip)
      && (forall x :: x in db'.devices && db'.devices[x].mac == Some(NormMac(second)) ==> x == second.ip)
  {
    var mid := After(db, [first, second], froms, env, 1);
    assert After(db, [first, second], froms, env, 0) == db;
    StepRows(db, first, froms[0], env);
    StepKeyed(db, first, froms[0], env);
    OldAddressIsEmpty(db, second.ip, first.ip, NormMac(first), env.now);
    StepSurplus(db, first, froms[0], env, second);
    assert Surplus(mid, second) == {};
    StepLeavesUnconfigured(mid, second, froms[1], env, second.ip);
    StepRows(mid, second, froms[1], env);
  }
}
