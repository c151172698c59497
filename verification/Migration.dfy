/** What a device keeps, and what everyone else keeps, when it follows its MAC to a new address. */
module Migration {
  import opened Records
  import opened Tables
  import opened StoreSpec
  import opened Resolution

  /** Nothing at `n` would blend into the device arriving from `o`: no keyed row, no counter that adds a
      minute or a day, and no profile or owner that the arriving row lacks. */
  predicate TargetFree(db: Db, o: string, n: string)
    requires o in db.devices
  {
    var t := DeviceTarget(n);
    && RowsFor(db.overrides, t) == [] && RowsFor(db.schedules, t) == [] && RowsFor(db.quotas, t) == []
    && AddsNothing(db.usage, DeviceTarget(o), t)
    && AddsNothing(db.appUsage, DeviceTarget(o), t)
    && (n in db.devices ==>
          && (BlankText(db.devices[o].baseProfile) ==>
                BlankText(db.devices[n].baseProfile) || db.devices[n].baseProfile == db.devices[o].baseProfile)
          && (BlankNumber(db.devices[o].personId) ==>
                BlankNumber(db.devices[n].personId) || db.devices[n].personId == db.devices[o].personId))
  }

  predicate AddsNothing<B(==)>(m: Usage<B>, a: Target, b: Target) {
    forall k :: k in m && k.0 == b ==> m[k] == 0 && (a, k.1) in m
  }

  lemma {:induction false} RetargetedCounts<B>(rows: seq<Row<B>>, a: Target, b: Target)
    requires a != b
    ensures |RowsFor(Retargeted(rows, a, b), b)| == |RowsFor(rows, a)| + |RowsFor(rows, b)|
  {
    if rows != [] {
      RetargetedCounts(rows[1..], a, b);
    }
  }

  /** Renaming `a` to `b` leaves `b` exactly the rows of `a` if and only if `b` had none. */
  lemma RowsFollowIff<B>(rows: seq<Row<B>>, a: Target, b: Target)
    requires a != b
    ensures RowsFor(Retargeted(rows, a, b), b) == RowsFor(rows, a) <==> RowsFor(rows, b) == []
  {
    RowsForRetargeted(rows, a, b, b);
    RetargetedCounts(rows, a, b);
  }

  lemma UsageFollowsIff<B>(m: Usage<B>, a: Target, b: Target)
    requires a != b
    ensures UsageOf(MovedUsage(m, a, b), b) == UsageOf(m, a) <==> AddsNothing(m, a, b)
  {
    var u, v := UsageOf(MovedUsage(m, a, b), b), UsageOf(m, a);
    forall d
      ensures d in v <==> (a, d) in m
      ensures d in u <==> (a, d) in m || (b, d) in m
      ensures d in v ==> v[d] == m[(a, d)]
      ensures d in u ==> u[d] == Get(m, (a, d)) + Get(m, (b, d))
    {
      MovedUsageAt(m, a, b, b, d);
      UsageOfKey(MovedUsage(m, a, b), b, d);
      UsageOfKey(m, a, d);
    }
    if u == v {
      forall k | k in m && k.0 == b ensures m[k] == 0 && (a, k.1) in m {
        assert k == (b, k.1);
        assert k.1 in u;
      }
    } else if AddsNothing(m, a, b) {
      assert forall d :: (b, d) in m ==> (a, d) in m && m[(b, d)] == 0;
    }
  }

  /** The device at its new address is configured exactly as it was at the old one if and only if the new
      address was free for it; then its trace is the same at every clock. */
  lemma DeviceIsPreservedIffTargetFree(db: Db, o: string, n: string, mac: string, now: int)
    requires o in db.devices && o != n
    ensures SameDevice(Migrated(db, o, n, mac, now), n, db, o) <==> TargetFree(db, o, n)
  {
    var a, b := DeviceTarget(o), DeviceTarget(n);
    RowsFollowIff(db.overrides, a, b);
    RowsFollowIff(db.schedules, a, b);
    RowsFollowIff(db.quotas, a, b);
    UsageFollowsIff(db.usage, a, b);
    UsageFollowsIff(db.appUsage, a, b);
  }

  /** The target has at most one override row of each source, as adding overrides makes sure of. */
  predicate OnePerSource(rows: seq<Row<OverrideBody>>, t: Target) {
    forall i, j :: 0 <= i < j < |rows| && rows[i].target == t && rows[j].target == t ==> rows[i].body.source != rows[j].body.source
  }

  /** Moving `a` onto `b` leaves one row per source if and only if the two had no source in common. */
  lemma OnePerSourceIff(rows: seq<Row<OverrideBody>>, a: Target, b: Target)
    requires a != b && OnePerSource(rows, a) && OnePerSource(rows, b)
    ensures OnePerSource(Retargeted(rows, a, b), b) <==>
      forall i, j :: 0 <= i < |rows| && 0 <= j < |rows| && rows[i].target == a && rows[j].target == b ==>
        rows[i].body.source != rows[j].body.source
  {
    RetargetedAt(rows, a, b);
    var moved := Retargeted(rows, a, b);
    if OnePerSource(moved, b) {
      forall i, j | 0 <= i < |rows| && 0 <= j < |rows| && rows[i].target == a && rows[j].target == b
        ensures rows[i].body.source != rows[j].body.source
      {
        assert moved[i].target == b && moved[j].target == b;
        if i < j {
          assert moved[i].body.source != moved[j].body.source;
        } else {
          assert moved[j].body.source != moved[i].body.source;
        }
      }
    }
  }

  /** `got` is the old row's text where that says something, else the new row's where that does. */
  predicate OldThenNew(got: Option<string>, was: Option<string>, there: Option<string>) {
    && (was.Some? && was.value != "" ==> got == was)
    && (!(was.Some? && was.value != "") && there.Some? && there.value != "" ==> got == there)
    && (!(was.Some? && was.value != "") && !(there.Some? && there.value != "") ==> got == was)
  }

  /** The same for numbers, of which zero says nothing. */
  predicate OldThenNewNumber(got: Option<int>, was: Option<int>, there: Option<int>) {
    && (was.Some? && was.value != 0 ==> got == was)
    && (!(was.Some? && was.value != 0) && there.Some? && there.value != 0 ==> got == there)
    && (!(was.Some? && was.value != 0) && !(there.Some? && there.value != 0) ==> got == was)
  }

  /** The row at the new address, column by column, when there was one there before. */
  lemma MergedRowIs(db: Db, o: string, n: string, mac: string, now: int)
    requires o in db.devices && n in db.devices
    ensures
      var was, there, got := db.devices[o], db.devices[n], Migrated(db, o, n, mac, now).devices[n];
      && OldThenNew(got.name, was.name, there.name) && OldThenNew(got.notes, was.notes, there.notes)
      && OldThenNew(got.baseProfile, was.baseProfile, there.baseProfile) && OldThenNewNumber(got.personId, was.personId, there.personId)
      && OldThenNew(got.vendor, was.vendor, there.vendor) && OldThenNew(got.hint, was.hint, there.hint)
      && OldThenNewNumber(got.inferredAt, was.inferredAt, there.inferredAt)
      && (got.favourite <==> was.favourite || there.favourite)
      && got.favOrder == (if was.favOrder != 0 then was.favOrder else there.favOrder)
      && (was.firstSeen.Some? && was.firstSeen.value != 0 ==> got.firstSeen == was.firstSeen)
      && (!(was.firstSeen.Some? && was.firstSeen.value != 0) ==> got.firstSeen == there.firstSeen)
      && got.mac == Some(mac) && got.lastSeen == Some(now)
  {
  }

  /** And when there was none: the old row, seen now, with a first time if it had none. */
  lemma MovedRowIs(db: Db, o: string, n: string, mac: string, now: int)
    requires o in db.devices && n !in db.devices
    ensures
      var was := db.devices[o];
      Migrated(db, o, n, mac, now).devices[n] ==
        was.(mac := Some(mac), lastSeen := Some(now),
             firstSeen := if was.firstSeen.Some? && was.firstSeen.value != 0 then was.firstSeen else Some(now))
  {
  }

  /** What a device's row holds beyond its settings: whatever it says, the other row says too. */
  predicate CarriesOver(was: Device, got: Device) {
    && (was.name.Some? && was.name.value != "" ==> got.name == was.name)
    && (was.notes.Some? && was.notes.value != "" ==> got.notes == was.notes)
    && (was.hint.Some? && was.hint.value != "" ==> got.hint == was.hint)
    && (was.favourite ==> got.favourite)
    && (was.favOrder != 0 ==> got.favOrder == was.favOrder)
    && (was.firstSeen.Some? && was.firstSeen.value != 0 ==> got.firstSeen == was.firstSeen)
  }

  lemma MigrationCarriesOver(db: Db, o: string, n: string, mac: string, now: int)
    requires o in db.devices && o != n
    ensures CarriesOver(db.devices[o], Migrated(db, o, n, mac, now).devices[n])
  {
    if n in db.devices { MergedRowIs(db, o, n, mac, now); } else { MovedRowIs(db, o, n, mac, now); }
  }

  /** A migration touches no person row, no "all" row and no other address. */
  lemma OthersAreUntouched(db: Db, o: string, n: string, mac: string, now: int)
    requires o in db.devices && o != n
    ensures
      var db' := Migrated(db, o, n, mac, now);
      && SharedAgree(db', db)
      && (forall x :: x != o && x != n ==> KeyedAgree(db', DeviceTarget(x), db, DeviceTarget(x)))
      && (forall x :: x in db.devices && x != o && x != n ==> SameDevice(db', x, db, x))
  {
    var db' := Migrated(db, o, n, mac, now);
    forall t: Target | t != DeviceTarget(o) && t != DeviceTarget(n) ensures KeyedAgree(db', t, db, t) {
      OtherTargetUntouched(db, o, n, mac, now, t);
    }
  }

  lemma OtherTargetUntouched(db: Db, o: string, n: string, mac: string, now: int, t: Target)
    requires o in db.devices && o != n && t != DeviceTarget(o) && t != DeviceTarget(n)
    ensures KeyedAgree(Migrated(db, o, n, mac, now), t, db, t)
  {
    var a, b := DeviceTarget(o), DeviceTarget(n);
    RowsForRetargeted(db.overrides, a, b, t);
    RowsForRetargeted(db.schedules, a, b, t);
    RowsForRetargeted(db.quotas, a, b, t);
    UsageOfMoved(db.usage, a, b, t);
    UsageOfMoved(db.appUsage, a, b, t);
  }

  /** The old address is left without a row and without anything keyed to it. */
  lemma OldAddressIsEmpty(db: Db, o: string, n: string, mac: string, now: int)
    requires o in db.devices && o != n
    ensures var db' := Migrated(db, o, n, mac, now);
      o !in db'.devices && NothingKeyed(db', o)
  {
    var a, b := DeviceTarget(o), DeviceTarget(n);
    RowsForRetargeted(db.overrides, a, b, a);
    RowsForRetargeted(db.schedules, a, b, a);
    RowsForRetargeted(db.quotas, a, b, a);
    UsageOfMoved(db.usage, a, b, a);
    UsageOfMoved(db.appUsage, a, b, a);
  }

  // ---- conservation --------------------------------------------------------

  /** Row for row the same ids and contents; only device addresses may differ. */
  predicate SameUpToAddress<B(==)>(a: seq<Row<B>>, b: seq<Row<B>>) {
    |a| == |b| && forall i :: 0 <= i < |a| ==>
      a[i].id == b[i].id && a[i].body == b[i].body
      && (a[i].target == b[i].target || (a[i].target.DeviceTarget? && b[i].target.DeviceTarget?))
  }

  /** Total device minutes per day and per day and app, and every keyed row up to its address. */
  ghost predicate Conserves(db: Db, db': Db) {
    && (forall d :: Total(BucketMinutes(db'.usage, d)) == Total(BucketMinutes(db.usage, d)))
    && (forall d :: Total(BucketMinutes(db'.appUsage, d)) == Total(BucketMinutes(db.appUsage, d)))
    && SameUpToAddress(db.overrides, db'.overrides)
    && SameUpToAddress(db.schedules, db'.schedules)
    && SameUpToAddress(db.quotas, db'.quotas)
    && SharedAgree(db', db)
    && db'.nextOverride == db.nextOverride
  }

  lemma MigrationConserves(db: Db, o: string, n: string, mac: string, now: int)
    requires o in db.devices && o != n
    ensures Conserves(db, Migrated(db, o, n, mac, now))
  {
    var db' := Migrated(db, o, n, mac, now);
    var a, b := DeviceTarget(o), DeviceTarget(n);
    forall d ensures Total(BucketMinutes(db'.usage, d)) == Total(BucketMinutes(db.usage, d)) {
      MovedUsageConserves(db.usage, o, n, d);
    }
    forall d ensures Total(BucketMinutes(db'.appUsage, d)) == Total(BucketMinutes(db.appUsage, d)) {
      MovedUsageConserves(db.appUsage, o, n, d);
    }
    RetargetedAt(db.overrides, a, b);
    RetargetedAt(db.schedules, a, b);
    RetargetedAt(db.quotas, a, b);
    OthersAreUntouched(db, o, n, mac, now);
  }

  lemma ConservesTransitive(a: Db, b: Db, c: Db)
    requires Conserves(a, b) && Conserves(b, c)
    ensures Conserves(a, c)
  {
  }
}
