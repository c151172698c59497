/** What start-up does before the first tick: the managed groups exist, and live groups become base profiles. */
module Startup {
  import opened Records
  import opened Selections
  import opened Resolution
  import opened Push
  import opened DeviceStore

  // ---- the managed groups --------------------------------------------------------------------------

  /** The groups shipped with the profiles: one for each, none twice. */
  predicate Bundle(bundled: seq<Group>) {
    && (forall g :: g in bundled ==> Managed(g.name))
    && (forall p :: p in PROFILES ==> exists i :: 0 <= i < |bundled| && bundled[i].name == p)
    && (forall i, j :: 0 <= i < j < |bundled| ==> bundled[i].name != bundled[j].name)
  }

  function IsUsers(): Group -> bool {
    (g: Group) => !Managed(g.name)
  }

  function Unmanaged(groups: seq<Group>): seq<Group> {
    Select(groups, IsUsers())
  }

  function WithManaged(groups: seq<Group>, bundled: seq<Group>): seq<Group> {
    Unmanaged(groups) + bundled
  }

  /** Replaces the managed groups, keeps the others in order, and puts absent catch-all entries back. */
  method EnsureManagedGroups(client: AppConfig, bundled: seq<Group>)
    modifies client
    ensures client.groups == WithManaged(old(client.groups), bundled)
    ensures client.networkGroupMap == WithCatchAlls(old(client.networkGroupMap))
    ensures client.writes == old(client.writes) + 1
  {
    var groups := client.groups;
    var kept: seq<Group> := [];
    for i := 0 to |groups|
      invariant kept == Unmanaged(groups[..i])
      modifies {}
    {
      SelectSnoc(groups, i, IsUsers());
      if Managed(groups[i].name) {
        continue;
      }
      kept := kept + [groups[i]];
    }
    assert groups[..|groups|] == groups;
    var m := client.networkGroupMap;
    if CATCH_ALL !in m { m := m[CATCH_ALL := "default"]; }
    if CATCH_ALL_V6 !in m { m := m[CATCH_ALL_V6 := "default"]; }
    client.SetConfig(kept + bundled, m);
  }

  function NameIs(name: string): Group -> bool {
    (g: Group) => g.name == name
  }

  function Named(groups: seq<Group>, name: string): nat {
    |Select(groups, NameIs(name))|
  }

  lemma NamedOnce(groups: seq<Group>, i: nat)
    requires i < |groups| && forall j :: 0 <= j < |groups| && j != i ==> groups[j].name != groups[i].name
    ensures Named(groups, groups[i].name) == 1
  {
    var p := NameIs(groups[i].name);
    assert groups == groups[..i] + ([groups[i]] + groups[i + 1..]);
    SelectConcat(groups[..i], [groups[i]] + groups[i + 1..], p);
    SelectCons(groups[i], groups[i + 1..], p);
    SelectNone(groups[..i], p);
    SelectNone(groups[i + 1..], p);
  }

  /** After start-up every managed name a push can write belongs to exactly one group, the shipped one; groups of
      the user are as many under each name as before. */
  lemma EveryManagedGroupExistsOnce(groups: seq<Group>, bundled: seq<Group>, name: string)
    requires Bundle(bundled)
    ensures Named(WithManaged(groups, bundled), name) == if Managed(name) then 1 else Named(groups, name)
  {
    var p, own := NameIs(name), Unmanaged(groups);
    SelectConcat(own, bundled, p);
    if Managed(name) {
      SelectNone(own, p);
      var i :| 0 <= i < |bundled| && bundled[i].name == name;
      NamedOnce(bundled, i);
    } else {
      SelectNone(bundled, p);
      SelectAgain(groups, IsUsers(), p, p);
    }
  }

  /** The user's groups keep their settings and order, and starting again changes nothing. */
  lemma StartingAgainChangesNothing(groups: seq<Group>, bundled: seq<Group>)
    requires Bundle(bundled)
    ensures Unmanaged(WithManaged(groups, bundled)) == Unmanaged(groups)
    ensures WithManaged(WithManaged(groups, bundled), bundled) == WithManaged(groups, bundled)
  {
    SelectConcat(Unmanaged(groups), bundled, IsUsers());
    SelectAll(Unmanaged(groups), IsUsers());
    SelectNone(bundled, IsUsers());
  }

  // ---- the backfill ----------------------------------------------------------------------------------

  /** The row gets a base profile: it has none, is no network, and its address is in a managed group. */
  predicate Promoted(m: GroupMap, ip: string, d: Device) {
    !Truthy(d.baseProfile) && '/' !in ip && ip in m && Managed(m[ip])
  }

  function BackfilledRow(m: GroupMap, ip: string, d: Device, now: int): Device {
    if Promoted(m, ip, d) then d.(baseProfile := Some(m[ip]), lastSeen := Some(now)) else d
  }

  function Backfilled(db: Db, m: GroupMap, now: int): Db {
    db.(devices := map ip | ip in db.devices :: BackfilledRow(m, ip, db.devices[ip], now))
  }

  /** Looks at one row, and promotes it if it should be. */
  method BackfillOne(store: Store, m: GroupMap, ip: string, now: int) returns (promoted: bool)
    requires ip in store.devices
    modifies store
    ensures store.State() == old(store.State()).(devices := old(store.devices)[ip := BackfilledRow(m, ip, old(store.devices[ip]), now)])
    ensures promoted == Promoted(m, ip, old(store.devices[ip]))
  {
    var row := store.devices[ip];
    promoted := !Truthy(row.baseProfile) && '/' !in ip && ip in m && Managed(m[ip]);
    if promoted {
      store.SetDeviceBaseProfile(ip, Some(m[ip]), now);
    } else {
      assert store.devices == store.devices[ip := row];
    }
  }

  /** The rows to promote among those already looked at. */
  function PromotedOf(m: GroupMap, rows: map<string, Device>, todo: set<string>): set<string> {
    set ip | ip in rows && ip !in todo && Promoted(m, ip, rows[ip])
  }

  lemma OneMorePromoted(m: GroupMap, rows: map<string, Device>, todo: set<string>, ip: string)
    requires ip in todo && ip in rows
    ensures |PromotedOf(m, rows, todo - {ip})| == |PromotedOf(m, rows, todo)| + if Promoted(m, ip, rows[ip]) then 1 else 0
  {
    assert PromotedOf(m, rows, todo - {ip}) == PromotedOf(m, rows, todo) + if Promoted(m, ip, rows[ip]) then {ip} else {};
  }

  method BackfillBaseProfiles(store: Store, m: GroupMap, now: int) returns (updated: nat)
    modifies store
    ensures store.State() == Backfilled(old(store.State()), m, now)
    ensures updated == |PromotedOf(m, old(store.devices), {})|
  {
    ghost var db := store.State();
    var rows := store.devices;
    var todo := rows.Keys;
    updated := 0;
    assert PromotedOf(m, rows, todo) == {};
    hide Promoted, BackfilledRow, PromotedOf;
    while todo != {}
      invariant todo <= rows.Keys
      invariant store.State() == db.(devices := store.devices) && store.devices.Keys == rows.Keys
      invariant forall ip :: ip in rows ==> store.devices[ip] == if ip in todo then rows[ip] else BackfilledRow(m, ip, rows[ip], now)
      invariant updated == |PromotedOf(m, rows, todo)|
      decreases todo
    {
      var ip :| ip in todo;
      var promoted := BackfillOne(store, m, ip, now);
      OneMorePromoted(m, rows, todo, ip);
      todo := todo - {ip};
      if promoted {
        updated := updated + 1;
      }
    }
    assert store.devices == Backfilled(db, m, now).devices;
  }

  /** What the backfill does to a row: an address, not a network, that has no base profile and that the live map has in a
      managed group gets that group's profile, and is seen now; every other row stays as it is. */
  lemma BackfillIs(db: Db, m: GroupMap, now: int, ip: string)
    requires ip in db.devices
    ensures
      var was, row := db.devices[ip], Backfilled(db, m, now).devices[ip];
      if (was.baseProfile == None || was.baseProfile == Some("")) && (forall i :: 0 <= i < |ip| ==> ip[i] != '/') && ip in m && m[ip] in PROFILES
      then row == was.(baseProfile := Some(m[ip]), lastSeen := Some(now))
      else row == was
    ensures Backfilled(db, m, now) == db.(devices := Backfilled(db, m, now).devices) && Backfilled(db, m, now).devices.Keys == db.devices.Keys
  {
  }

  /** No override, schedule or quota of the device speaks, and it belongs to nobody. */
  predicate Quiet(db: Db, ip: string, c: Clock)
    requires ip in db.devices && ValidClock(c)
  {
    var s := StateOf(db, DeviceTarget(ip), db.devices[ip].baseProfile, c.date);
    && !AnyLive(s, c) && !AnyFiring(s, c) && !AnySpent(s, c)
    && OwnerTrace(db, db.devices[ip].personId, c).None?
  }

  lemma QuietTrace(db: Db, ip: string, c: Clock)
    requires ip in db.devices && ValidClock(c) && Quiet(db, ip, c)
    ensures DeviceTrace(db, ip, c).profile == db.devices[ip].baseProfile
  {
  }

  lemma QuietStays(db: Db, m: GroupMap, now: int, ip: string, c: Clock)
    requires ip in db.devices && ValidClock(c) && Quiet(db, ip, c)
    ensures Quiet(Backfilled(db, m, now), ip, c)
  {
  }

  /** What the backfill is for: the first push keeps a device that only the live map had put in a managed group
      exactly where it was; without the backfill the push would have taken it out. */
  lemma BackfillKeepsLiveGroups(db: Db, m: GroupMap, now: int, ip: string, c: Clock)
    requires ValidClock(c) && ip in db.devices && Quiet(db, ip, c) && Promoted(m, ip, db.devices[ip])
    ensures Lookup(Pushed(m, Effective(Backfilled(db, m, now), c)), ip) == Lookup(m, ip)
    ensures Lookup(Pushed(m, Effective(db, c)), ip) == None
  {
    hide Quiet, DeviceTrace, Pushed;
    var db' := Backfilled(db, m, now);
    LookupPushed(m, Effective(db', c), ip);
    LookupPushed(m, Effective(db, c), ip);
    QuietTrace(db, ip, c);
    QuietStays(db, m, now, ip, c);
    QuietTrace(db', ip, c);
  }

  /** Everybody who has a base profile resolves as before, and a second backfill finds nothing to do. */
  lemma BackfillTouchesNobodyElse(db: Db, m: GroupMap, now: int, later: int, ip: string, c: Clock)
    requires ValidClock(c) && ip in db.devices
    ensures !Promoted(m, ip, db.devices[ip]) ==> DeviceTrace(Backfilled(db, m, now), ip, c) == DeviceTrace(db, ip, c)
    ensures Backfilled(Backfilled(db, m, now), m, later) == Backfilled(db, m, now)
  {
  }
}
