/** What each store operation does to the tables, as functions of the database. */
module StoreSpec {
  import opened Records
  import opened Tables
  import opened Text
  import opened Selections

  /** The form MACs are stored in: lower case, colons for dashes. */
  function StoreNorm(mac: string): string {
    DashesToColons(Lower(mac))
  }

  /** The two characters are the same letter, or both separate the pairs of a MAC, or are simply equal. */
  predicate SameInMac(a: char, b: char) {
    || a == b
    || ({a, b} == {'-', ':'})
    || ('A' <= a <= 'Z' && b as int == a as int + 32)
    || ('A' <= b <= 'Z' && a as int == b as int + 32)
  }

  /** Two texts are stored as one MAC if and only if they differ in case and in dashes for colons alone. */
  lemma StoredAlikeIff(a: string, b: string)
    ensures StoreNorm(a) == StoreNorm(b) <==> |a| == |b| && forall i :: 0 <= i < |a| ==> SameInMac(a[i], b[i])
    ensures forall i :: 0 <= i < |StoreNorm(a)| ==> StoreNorm(a)[i] != '-' && !('A' <= StoreNorm(a)[i] <= 'Z')
  {
    var x, y := StoreNorm(a), StoreNorm(b);
    assert |x| == |a| && |y| == |b|;
    forall i | 0 <= i < |a| && i < |b| ensures x[i] == y[i] <==> SameInMac(a[i], b[i]) {
      SameCharIff(a[i], b[i]);
    }
  }

  function NormChar(c: char): char {
    if LowerChar(c) == '-' then ':' else LowerChar(c)
  }

  lemma SameCharIff(a: char, b: char)
    ensures NormChar(a) == NormChar(b) <==> SameInMac(a, b)
  {
    assert {a, b} == {'-', ':'} <==> (a == '-' && b == ':') || (a == ':' && b == '-') by {
      assert '-' in {'-', ':'} && ':' in {'-', ':'};
    }
  }

  // ---- device rows -------------------------------------------------------

  /** Rows anchored to the MAC at some other address. */
  function Candidates(db: Db, mac: string, newIp: string): set<string> {
    set ip | ip in db.devices && db.devices[ip].mac == Some(StoreNorm(mac)) && ip != newIp
  }

  predicate BlankText(t: Option<string>) {
    t == None || t.value == ""
  }

  predicate BlankNumber(n: Option<int>) {
    n == None || n.value == 0
  }

  /** The old row's text, unless it is blank and the other row has one. */
  function PickText(old_: Option<string>, other: Option<string>): Option<string> {
    if BlankText(old_) && !BlankText(other) then other else old_
  }

  function PickNumber(old_: Option<int>, other: Option<int>): Option<int> {
    if BlankNumber(old_) && !BlankNumber(other) then other else old_
  }

  /** The row stored at the new address when a device moves there, given the row already there, if any. */
  function MergedDevice(d: Device, existing: Option<Device>, mac: string, now: int): Device {
    var e := if existing.Some? then existing.value
             else BlankDevice(now).(firstSeen := Some(now));
    Device(
      PickText(d.name, e.name), PickText(d.notes, e.notes),
      d.favourite || e.favourite, if d.favOrder != 0 then d.favOrder else e.favOrder,
      PickText(d.baseProfile, e.baseProfile), PickNumber(d.personId, e.personId), Some(mac),
      PickText(d.vendor, e.vendor), PickText(d.hint, e.hint), PickNumber(d.inferredAt, e.inferredAt),
      if BlankNumber(d.firstSeen) then e.firstSeen else d.firstSeen, Some(now))
  }

  function RowAt(db: Db, ip: string): Option<Device> {
    if ip in db.devices then Some(db.devices[ip]) else None
  }

  function MigratedDevices(db: Db, oldIp: string, newIp: string, mac: string, now: int): map<string, Device>
    requires oldIp in db.devices
  {
    (db.devices - {newIp} - {oldIp})[newIp := MergedDevice(db.devices[oldIp], RowAt(db, newIp), mac, now)]
  }

  /** The database after the device at `oldIp` has followed its MAC to `newIp`. */
  function Migrated(db: Db, oldIp: string, newIp: string, mac: string, now: int): Db
    requires oldIp in db.devices
  {
    var a, b := DeviceTarget(oldIp), DeviceTarget(newIp);
    db.(devices := MigratedDevices(db, oldIp, newIp, mac, now),
        overrides := Retargeted(db.overrides, a, b),
        schedules := Retargeted(db.schedules, a, b),
        quotas := Retargeted(db.quotas, a, b),
        usage := MovedUsage(db.usage, a, b),
        appUsage := MovedUsage(db.appUsage, a, b))
  }

  /** An upsert's starting row: the stored one with a new last-seen time, or a blank one. */
  function Touched(db: Db, ip: string, now: int): Device {
    if ip in db.devices then db.devices[ip].(lastSeen := Some(now)) else BlankDevice(now)
  }

  function WithDevice(db: Db, ip: string, d: Device): Db {
    db.(devices := db.devices[ip := d])
  }

  function WithMac(db: Db, ip: string, mac: string, now: int): Db {
    WithDevice(db, ip, Touched(db, ip, now).(mac := if mac == "" then None else Some(StoreNorm(mac))))
  }

  function WithFingerprint(db: Db, ip: string, vendor: Option<string>, hint: Option<string>, now: int): Db {
    WithDevice(db, ip, Touched(db, ip, now).(vendor := vendor, hint := hint, inferredAt := Some(now)))
  }

  function WithBaseProfile(db: Db, ip: string, profile: Option<string>, now: int): Db {
    WithDevice(db, ip, Touched(db, ip, now).(baseProfile := profile))
  }

  /** Each setter of a device changes its own columns and the time the row was last seen, in the row as it was or in a
      blank one; no other row and no other table. */
  lemma SettersTouchTheirColumns(db: Db, ip: string, mac: string, text: Option<string>, hint: Option<string>, now: int)
    ensures
      var seen := if ip in db.devices then db.devices[ip].(lastSeen := Some(now))
                  else Device(None, None, false, 0, None, None, None, None, None, None, Some(now), Some(now));
      && WithMac(db, ip, "", now) == db.(devices := db.devices[ip := seen.(mac := None)])
      && (mac != "" ==> WithMac(db, ip, mac, now) == db.(devices := db.devices[ip := seen.(mac := Some(StoreNorm(mac)))]))
      && WithFingerprint(db, ip, text, hint, now)
         == db.(devices := db.devices[ip := seen.(vendor := text, hint := hint, inferredAt := Some(now))])
      && WithBaseProfile(db, ip, text, now) == db.(devices := db.devices[ip := seen.(baseProfile := text)])
  {
  }

  // ---- favourites ----------------------------------------------------------

  function FavOrders(db: Db): set<int> {
    set ip | ip in db.devices && db.devices[ip].favourite :: db.devices[ip].favOrder
  }

  predicate IsLargest(s: set<int>, m: int) {
    m in s && forall x :: x in s ==> x <= m
  }

  /** The largest number of the set, zero for the empty set. */
  function MaxOrZero(s: set<int>): (m: int)
    ensures if s == {} then m == 0 else IsLargest(s, m)
  {
    if s == {} then 0
    else
      LargestExists(s);
      var m :| IsLargest(s, m);
      m
  }

  lemma {:induction false} LargestExists(s: set<int>)
    requires s != {}
    ensures exists m :: IsLargest(s, m)
    decreases |s|
  {
    NonEmptyInts(s);
    var x :| x in s;
    var rest := s - {x};
    if rest == {} {
      assert s == {x};
      assert IsLargest(s, x);
    } else {
      LargestExists(rest);
      var m :| IsLargest(rest, m);
      var top := if x > m then x else m;
      forall y | y in s ensures y <= top {
        if y != x { assert y in rest; }
      }
      assert IsLargest(s, top);
    }
  }

  lemma NonEmptyInts(s: set<int>)
    requires s != {}
    ensures exists x :: x in s
  {
    assert (forall x :: x !in s) ==> s == {};
  }

  function WithFavourite(db: Db, ip: string, favourite: bool, now: int): Db {
    var order := if favourite then MaxOrZero(FavOrders(db)) + 1 else 0;
    WithDevice(db, ip, Touched(db, ip, now).(favourite := favourite, favOrder := order))
  }

  // ---- overrides -----------------------------------------------------------

  function WithoutSources(rows: seq<Row<OverrideBody>>, t: Target, sources: set<string>): seq<Row<OverrideBody>> {
    Select(rows, (o: Row<OverrideBody>) => !(o.target == t && o.body.source in sources))
  }

  /** One override per source: the new row replaces the target's rows of the same source. */
  function WithOverride(db: Db, t: Target, body: OverrideBody): Db {
    db.(overrides := WithoutSources(db.overrides, t, {body.source}) + [Row(db.nextOverride, t, body)],
        nextOverride := db.nextOverride + 1)
  }

  /** The new row comes last, under the next id; of the old ones exactly the target's of the same source go. */
  lemma AddOverrideIs(db: Db, t: Target, body: OverrideBody)
    ensures
      var after, added := WithOverride(db, t, body), Row(db.nextOverride, t, body);
      && after == db.(overrides := after.overrides, nextOverride := db.nextOverride + 1)
      && after.overrides != [] && after.overrides[|after.overrides| - 1] == added
      && forall o :: o in after.overrides[..|after.overrides| - 1] <==> o in db.overrides && !(o.target == t && o.body.source == body.source)
  {
    var kept := WithoutSources(db.overrides, t, {body.source});
    assert (kept + [Row(db.nextOverride, t, body)])[..|kept|] == kept;
  }

  /** Deleting by target and source keeps exactly the other rows. */
  lemma WithoutSourcesKeeps(rows: seq<Row<OverrideBody>>, t: Target, sources: set<string>, p: Row<OverrideBody> -> bool)
    requires forall o :: p(o) <==> !(o.target == t && o.body.source in sources)
    ensures WithoutSources(rows, t, sources) == Select(rows, p)
  {
  }

  function Unexpired(rows: seq<Row<OverrideBody>>, utc: int): seq<Row<OverrideBody>> {
    Select(rows, (o: Row<OverrideBody>) => o.body.expiresAt > utc)
  }

  function Purged(db: Db, utc: int): Db {
    db.(overrides := Unexpired(db.overrides, utc))
  }

  /** A purge drops exactly the rows that have run out, and nothing else. */
  lemma PurgeDropsTheExpired(db: Db, utc: int)
    ensures forall o :: o in Purged(db, utc).overrides <==> o in db.overrides && o.body.expiresAt > utc
    ensures (forall o :: o in db.overrides ==> o.body.expiresAt > utc) ==> Purged(db, utc) == db
    ensures Purged(db, utc) == db.(overrides := Purged(db, utc).overrides)
  {
    if forall o :: o in db.overrides ==> o.body.expiresAt > utc {
      SelectAll(db.overrides, (o: Row<OverrideBody>) => o.body.expiresAt > utc);
    }
  }

  // ---- usage -----------------------------------------------------------------

  /** The minutes added to the counter, which starts at zero. */
  function Credited<B(==)>(m: Usage<B>, t: Target, bucket: B, minutes: int): Usage<B> {
    m[(t, bucket) := Get(m, (t, bucket)) + minutes]
  }

  /** Ids ascend, and the next one is above them all. */
  predicate IdsAscend(db: Db) {
    && (forall i, j :: 0 <= i < j < |db.overrides| ==> db.overrides[i].id < db.overrides[j].id)
    && (forall i :: 0 <= i < |db.overrides| ==> db.overrides[i].id < db.nextOverride)
  }
}
