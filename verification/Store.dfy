/** The SQLite store: every method changes the tables exactly as its specification function says. */
module DeviceStore {
  import opened Records
  import opened Tables
  import opened StoreSpec
  import opened Selections

  datatype FollowReport = NotMigrated | FollowedTo(mac: string, oldIp: string, newIp: string, mergedBlankNew: bool)

  class Store {
    var devices: map<string, Device>
    var people: map<int, Option<string>>
    var overrides: seq<Row<OverrideBody>>
    var schedules: seq<Row<ScheduleBody>>
    var quotas: seq<Row<QuotaBody>>
    var usage: Usage<string>
    var appUsage: Usage<(string, string)>
    var nextOverride: nat

    /** The tables as one value. */
    ghost function State(): Db
      reads this
    {
      Db(devices, people, overrides, schedules, quotas, usage, appUsage, nextOverride)
    }

    constructor ()
      ensures State() == Db(map[], map[], [], [], [], map[], map[], 0)
    {
      devices, people, overrides, schedules, quotas := map[], map[], [], [], [];
      usage, appUsage, nextOverride := map[], map[], 0;
    }

    /** Some row anchored to `mac` at an address other than `newIp` moves to `newIp` with everything keyed to
        it; with no such row nothing changes.  Which row a SELECT without an order picks is left open. */
    method FollowDeviceToNewIp(mac: string, newIp: string, now: int) returns (report: FollowReport)
      modifies this
      ensures report.NotMigrated? <==> mac == "" || newIp == "" || Candidates(old(State()), mac, newIp) == {}
      ensures report.NotMigrated? ==> State() == old(State())
      ensures report.FollowedTo? ==>
        && report.oldIp in Candidates(old(State()), mac, newIp)
        && report.mac == StoreNorm(mac) && report.newIp == newIp
        && report.mergedBlankNew == (newIp in old(devices))
        && State() == Migrated(old(State()), report.oldIp, newIp, StoreNorm(mac), now)
    {
      hide MergedDevice, Retargeted, MovedUsage;
      if mac == "" || newIp == "" {
        return NotMigrated;
      }
      var normMac := StoreNorm(mac);
      var rows := set ip | ip in devices && devices[ip].mac == Some(normMac) && ip != newIp;
      if rows == {} {
        return NotMigrated;
      }
      var oldIp :| oldIp in rows;
      var merged := newIp in devices;
      ReplaceRow(oldIp, newIp, normMac, now);
      overrides := Rename(overrides, DeviceTarget(oldIp), DeviceTarget(newIp));
      schedules := Rename(schedules, DeviceTarget(oldIp), DeviceTarget(newIp));
      quotas := Rename(quotas, DeviceTarget(oldIp), DeviceTarget(newIp));
      usage := MergeUsage(usage, DeviceTarget(oldIp), DeviceTarget(newIp));
      appUsage := MergeUsage(appUsage, DeviceTarget(oldIp), DeviceTarget(newIp));
      report := FollowedTo(normMac, oldIp, newIp, merged);
    }

    /** Drops both rows and inserts the merged one at the new address. */
    method ReplaceRow(oldIp: string, newIp: string, mac: string, now: int)
      requires oldIp in devices
      modifies this`devices
      ensures devices == MigratedDevices(old(State()), oldIp, newIp, mac, now)
    {
      var row := devices[oldIp];
      var existingNew := if newIp in devices then Some(devices[newIp]) else None;
      devices := devices - {newIp};
      devices := devices - {oldIp};
      devices := devices[newIp := MergedDevice(row, existingNew, mac, now)];
    }

    method SetDeviceMac(ip: string, mac: string, now: int)
      modifies this`devices
      ensures State() == WithMac(old(State()), ip, mac, now)
    {
      var normalised := if mac == "" then None else Some(StoreNorm(mac));
      if ip in devices {
        devices := devices[ip := devices[ip].(mac := normalised, lastSeen := Some(now))];
      } else {
        devices := devices[ip := BlankDevice(now).(mac := normalised)];
      }
    }

    method SetDeviceBaseProfile(ip: string, profile: Option<string>, now: int)
      modifies this`devices
      ensures State() == WithBaseProfile(old(State()), ip, profile, now)
    {
      var row := if ip in devices then devices[ip].(lastSeen := Some(now)) else BlankDevice(now);
      devices := devices[ip := row.(baseProfile := profile)];
    }

    method SetDeviceFingerprint(ip: string, vendor: Option<string>, hint: Option<string>, now: int)
      modifies this`devices
      ensures State() == WithFingerprint(old(State()), ip, vendor, hint, now)
    {
      var d := if ip in devices then devices[ip].(lastSeen := Some(now)) else BlankDevice(now);
      devices := devices[ip := d.(vendor := vendor, hint := hint, inferredAt := Some(now))];
    }

    method SetFavourite(ip: string, favourite: bool, now: int)
      modifies this`devices
      ensures State() == WithFavourite(old(State()), ip, favourite, now)
    {
      var order := 0;
      if favourite {
        var orders := set x | x in devices && devices[x].favourite :: devices[x].favOrder;
        var top := LargestOrZero(orders);
        order := top + 1;
      }
      var d := if ip in devices then devices[ip].(lastSeen := Some(now)) else BlankDevice(now);
      devices := devices[ip := d.(favourite := favourite, favOrder := order)];
    }

    method AddOverride(t: Target, body: OverrideBody) returns (id: nat)
      modifies this`overrides, this`nextOverride
      ensures id == old(nextOverride)
      ensures State() == WithOverride(old(State()), t, body)
    {
      var _ := ClearOverrides(t, {body.source});
      id := nextOverride;
      overrides := overrides + [Row(id, t, body)];
      nextOverride := nextOverride + 1;
    }

    /** Deletes the target's rows of the given sources and counts them. */
    method ClearOverrides(t: Target, sources: set<string>) returns (cleared: nat)
      modifies this`overrides
      ensures State() == old(State()).(overrides := WithoutSources(old(overrides), t, sources))
      ensures cleared == |old(overrides)| - |overrides|
    {
      var kept := DeleteRows(overrides, t, sources);
      cleared := |overrides| - |kept|;
      overrides := kept;
    }

    method ActiveOverrides(utc: int) returns (rows: seq<Row<OverrideBody>>)
      ensures rows == Unexpired(overrides, utc)
    {
      rows := Select(overrides, (o: Row<OverrideBody>) => o.body.expiresAt > utc);
    }

    method PurgeExpiredOverrides(utc: int) returns (purged: int)
      modifies this`overrides
      ensures State() == Purged(old(State()), utc)
      ensures purged == |old(overrides)| - |overrides|
    {
      var kept := ActiveOverrides(utc);
      purged := |overrides| - |kept|;
      overrides := kept;
    }

    method AddActiveMinutes(t: Target, date: string, minutes: int)
      modifies this`usage
      ensures State() == old(State()).(usage := Credited(old(usage), t, date, minutes))
    {
      usage := usage[(t, date) := (if (t, date) in usage then usage[(t, date)] else 0) + minutes];
    }
  }

  /** Deletes the target's rows of the given sources. */
  method DeleteRows(rows: seq<Row<OverrideBody>>, t: Target, sources: set<string>)
    returns (kept: seq<Row<OverrideBody>>)
    ensures kept == WithoutSources(rows, t, sources) && |kept| <= |rows|
  {
    kept := [];
    ghost var p := (o: Row<OverrideBody>) => !(o.target == t && o.body.source in sources);
    for i := 0 to |rows|
      invariant kept == Select(rows[..i], p) && |kept| <= i
    {
      SelectSnoc(rows, i, p);
      if !(rows[i].target == t && rows[i].body.source in sources) {
        kept := kept + [rows[i]];
      }
    }
    assert rows[..|rows|] == rows;
  }

  /** Renames the target `a` to `b` in every row. */
  method Rename<B>(rows: seq<Row<B>>, a: Target, b: Target) returns (r: seq<Row<B>>)
    ensures r == Retargeted(rows, a, b)
  {
    r := [];
    for i := 0 to |rows|
      invariant |r| == i
      invariant forall j :: 0 <= j < i ==> r[j] == if rows[j].target == a then rows[j].(target := b) else rows[j]
    {
      var row := if rows[i].target == a then rows[i].(target := b) else rows[i];
      r := r + [row];
    }
    RetargetedAt(rows, a, b);
  }

  /** Adds every counter of `a` to the same counter of `b`, then deletes the counters of `a`. */
  method MergeUsage<B(==)>(usage: Usage<B>, a: Target, b: Target) returns (m: Usage<B>)
    requires a != b
    ensures m == MovedUsage(usage, a, b)
  {
    var todo := set k | k in usage && k.0 == a;
    ghost var done: set<(Target, B)> := {};
    m := usage;
    while todo != {}
      invariant todo !! done && todo + done == set k | k in usage && k.0 == a
      invariant forall k :: k in m <==> k in usage || (k.0 == b && (a, k.1) in done)
      invariant forall k :: k in m ==> m[k] == Get(usage, k) + if k.0 == b && (a, k.1) in done then Get(usage, (a, k.1)) else 0
      decreases todo
    {
      var k :| k in todo;
      m := m[(b, k.1) := (if (b, k.1) in m then m[(b, k.1)] else 0) + usage[k]];
      todo := todo - {k};
      done := done + {k};
    }
    MergedIsMoved(usage, a, b, m);
    m := m - set k | k in m && k.0 == a;
  }

  /** Every counter of `a` added to `b`: what remains is to delete the counters of `a`. */
  lemma MergedIsMoved<B>(usage: Usage<B>, a: Target, b: Target, m: Usage<B>)
    requires a != b
    requires forall k :: k in m <==> k in usage || (k.0 == b && (a, k.1) in usage)
    requires forall k :: k in m ==> m[k] == Get(usage, k) + if k.0 == b then Get(usage, (a, k.1)) else 0
    ensures m - (set k | k in m && k.0 == a) == MovedUsage(usage, a, b)
  {
    var rest := m - set k | k in m && k.0 == a;
    forall k
      ensures k in rest <==> k in MovedUsage(usage, a, b)
      ensures k in rest ==> rest[k] == MovedUsage(usage, a, b)[k]
    {
      MovedUsageAt(usage, a, b, k.0, k.1);
      assert (k.0, k.1) == k;
    }
  }

  method LargestOrZero(s: set<int>) returns (m: int)
    ensures m == MaxOrZero(s)
  {
    m := 0;
    var rest := s;
    ghost var seen: set<int> := {};
    while rest != {}
      invariant seen + rest == s && seen !! rest
      invariant if seen == {} then m == 0 else IsLargest(seen, m)
      decreases rest
    {
      NonEmptyInts(rest);
      var x :| x in rest;
      if rest == s || x > m {
        m := x;
      }
      rest, seen := rest - {x}, seen + {x};
    }
  }
}
