/** Pausing and resuming the whole family: one transient override per device row. */
module FamilyPause {
  import opened Records
  import opened Tables
  import opened StoreSpec
  import opened Selections
  import opened DeviceStore

  const FAMILY_PAUSE := "family-pause"

  /** Who a pause is for.  `valid` is the address check; `order` below is whatever order the rows come in. */
  datatype Pause = Pause(
    profile: Option<string>, now: int, minutes: int, createdBy: Option<string>, note: Option<string>,
    excludeIps: set<string>, excludePersons: set<int>, includeUnassigned: bool, valid: string -> bool)

  predicate Affects(p: Pause, ip: string, d: Device) {
    && p.valid(ip)
    && ip !in p.excludeIps
    && !(d.personId.Some? && d.personId.value in p.excludePersons)
    && (d.personId == None ==> p.includeUnassigned)
  }

  /** Left alone only because nobody owns it. */
  predicate SkippedUnassigned(p: Pause, ip: string, d: Device) {
    p.valid(ip) && ip !in p.excludeIps && d.personId == None && !p.includeUnassigned
  }

  function PauseBody(p: Pause): OverrideBody {
    OverrideBody(p.profile, FAMILY_PAUSE, p.now, p.now + p.minutes * 60, p.createdBy,
      if p.note.Some? && p.note.value != "" then p.note else Some("family pause"))
  }

  /** `order` lists every device row once. */
  ghost predicate Lists(db: Db, order: seq<string>) {
    (forall ip :: ip in order <==> ip in db.devices) && Distinct(order)
  }

  ghost predicate Distinct(s: seq<string>) {
    forall i, j :: 0 <= i < j < |s| ==> s[i] != s[j]
  }

  lemma DistinctAppend(s: seq<string>, x: string)
    requires Distinct(s) && x !in s
    ensures Distinct(s + [x])
  {
  }

  function Paused(db: Db, p: Pause, order: seq<string>): Db
    requires forall ip :: ip in order ==> ip in db.devices
    ensures Paused(db, p, order).devices == db.devices
  {
    if order == [] then db
    else
      var ip := order[|order| - 1];
      var done := Paused(db, p, order[..|order| - 1]);
      if Affects(p, ip, db.devices[ip]) then WithOverride(done, DeviceTarget(ip), PauseBody(p)) else done
  }

  function Resumed(db: Db, order: seq<string>): Db
    ensures Resumed(db, order).devices == db.devices
  {
    if order == [] then db
    else
      var done := Resumed(db, order[..|order| - 1]);
      done.(overrides := WithoutSources(done.overrides, DeviceTarget(order[|order| - 1]), {FAMILY_PAUSE}))
  }

  predicate IsFamilyPause(o: Row<OverrideBody>) {
    o.target.DeviceTarget? && o.body.source == FAMILY_PAUSE
  }

  /** Every device-targeted family-pause row points at a device row. */
  predicate PausesPointAtDevices(db: Db) {
    forall o :: o in db.overrides && IsFamilyPause(o) ==> o.target.ip in db.devices
  }

  // ---- what the loops amount to ----------------------------------------------------

  /** Resuming drops the family-pause rows of the listed devices and keeps all others in order. */
  lemma {:induction false} ResumedRows(db: Db, order: seq<string>)
    ensures Resumed(db, order).overrides ==
      Select(db.overrides, (o: Row<OverrideBody>) => !(IsFamilyPause(o) && o.target.ip in order))
    ensures Resumed(db, order) == db.(overrides := Resumed(db, order).overrides)
  {
    var whole := (o: Row<OverrideBody>) => !(IsFamilyPause(o) && o.target.ip in order);
    if order == [] {
      SelectAll(db.overrides, whole);
    } else {
      var init, last := order[..|order| - 1], order[|order| - 1];
      ResumedRows(db, init);
      assert order == init + [last];
      var here := (o: Row<OverrideBody>) => !(o.target == DeviceTarget(last) && o.body.source in {FAMILY_PAUSE});
      WithoutSourcesKeeps(Resumed(db, init).overrides, DeviceTarget(last), {FAMILY_PAUSE}, here);
      SelectAgain(db.overrides, (o: Row<OverrideBody>) => !(IsFamilyPause(o) && o.target.ip in init), here, whole);
    }
  }

  /** Pausing adds only family-pause rows, and takes away only family-pause rows of the same devices. */
  lemma {:induction false} PausedRows(db: Db, p: Pause, order: seq<string>)
    requires forall ip :: ip in order ==> ip in db.devices
    ensures forall o :: o in Paused(db, p, order).overrides && o !in db.overrides ==> IsFamilyPause(o) && o.target.ip in order
    ensures Select(Paused(db, p, order).overrides, (o: Row<OverrideBody>) => !IsFamilyPause(o)) ==
      Select(db.overrides, (o: Row<OverrideBody>) => !IsFamilyPause(o))
    ensures Paused(db, p, order) == db.(overrides := Paused(db, p, order).overrides, nextOverride := Paused(db, p, order).nextOverride)
  {
    if order != [] {
      var init, last := order[..|order| - 1], order[|order| - 1];
      assert order == init + [last];
      PausedRows(db, p, init);
      var done := Paused(db, p, init);
      if Affects(p, last, db.devices[last]) {
        var rest := (o: Row<OverrideBody>) => !IsFamilyPause(o);
        var others := (o: Row<OverrideBody>) => !(o.target == DeviceTarget(last) && o.body.source in {FAMILY_PAUSE});
        var row := Row(done.nextOverride, DeviceTarget(last), PauseBody(p));
        WithoutSourcesKeeps(done.overrides, DeviceTarget(last), {FAMILY_PAUSE}, others);
        assert Paused(db, p, order).overrides == Select(done.overrides, others) + [row];
        SelectConcat(Select(done.overrides, others), [row], rest);
        SelectAgain(done.overrides, others, rest, rest);
        assert Select([row], rest) == [];
      }
    }
  }

  // ---- the promises ----------------------------------------------------------------

  /** Resume leaves no family-pause row behind and keeps every other row, in order. */
  lemma ResumeIsComplete(db: Db, order: seq<string>)
    requires PausesPointAtDevices(db) && Lists(db, order)
    ensures Resumed(db, order).overrides == Select(db.overrides, (o: Row<OverrideBody>) => !IsFamilyPause(o))
    ensures forall o :: o in Resumed(db, order).overrides <==> o in db.overrides && !IsFamilyPause(o)
  {
    ResumedRows(db, order);
    SelectAlike(db.overrides, (o: Row<OverrideBody>) => !(IsFamilyPause(o) && o.target.ip in order),
      (o: Row<OverrideBody>) => !IsFamilyPause(o));
  }

  /** Pausing keeps the invariant resume relies on. */
  lemma PauseKeepsPointing(db: Db, p: Pause, order: seq<string>)
    requires PausesPointAtDevices(db) && Lists(db, order)
    ensures PausesPointAtDevices(Paused(db, p, order))
  {
    PausedRows(db, p, order);
  }

  /** The rows of other sources. */
  function OtherSources(list: seq<(nat, OverrideBody)>, source: string): (r: seq<(nat, OverrideBody)>)
    ensures forall x :: x in r <==> x in list && x.1.source != source
  {
    if list == [] then []
    else
      assert list == [list[0]] + list[1..];
      (if list[0].1.source != source then [list[0]] else []) + OtherSources(list[1..], source)
  }

  lemma {:induction false} RowsWithoutSource(rows: seq<Row<OverrideBody>>, t: Target, source: string, u: Target)
    ensures RowsFor(WithoutSources(rows, t, {source}), u) ==
      if u == t then OtherSources(RowsFor(rows, u), source) else RowsFor(rows, u)
  {
    var p := (o: Row<OverrideBody>) => !(o.target == t && o.body.source in {source});
    WithoutSourcesKeeps(rows, t, {source}, p);
    if rows != [] {
      RowsWithoutSource(rows[1..], t, source, u);
      WithoutSourcesKeeps(rows[1..], t, {source}, p);
      assert Select(rows, p) == (if p(rows[0]) then [rows[0]] else []) + Select(rows[1..], p);
      OneMoreRow(rows[0], Select(rows[1..], p), u);
      assert [] + Select(rows[1..], p) == Select(rows[1..], p);
      assert [] + RowsFor(rows[1..], u) == RowsFor(rows[1..], u);
      if rows[0].target == u {
        var list := [(rows[0].id, rows[0].body)] + RowsFor(rows[1..], u);
        assert list[1..] == RowsFor(rows[1..], u);
        assert [] + OtherSources(RowsFor(rows[1..], u), source) == OtherSources(RowsFor(rows[1..], u), source);
      }
    }
  }

  lemma OneMoreRow(r: Row<OverrideBody>, rows: seq<Row<OverrideBody>>, u: Target)
    ensures RowsFor([r] + rows, u) == (if r.target == u then [(r.id, r.body)] else []) + RowsFor(rows, u)
  {
    assert ([r] + rows)[1..] == rows;
  }

  /** What each target's overrides are after a pause. */
  lemma {:induction false} PausedRowsFor(db: Db, p: Pause, order: seq<string>, u: Target)
    requires (forall ip :: ip in order ==> ip in db.devices) && Distinct(order)
    ensures
      var rows := RowsFor(Paused(db, p, order).overrides, u);
      if u.DeviceTarget? && u.ip in order && Affects(p, u.ip, db.devices[u.ip]) then
        exists id: nat :: rows == OtherSources(RowsFor(db.overrides, u), FAMILY_PAUSE) + [(id, PauseBody(p))]
      else rows == RowsFor(db.overrides, u)
  {
    if order != [] {
      hide Affects, PauseBody, RowsFor, WithoutSources, OtherSources;
      var init, last := order[..|order| - 1], order[|order| - 1];
      assert order == init + [last];
      PausedRowsFor(db, p, init, u);
      var done := Paused(db, p, init);
      RowsWithoutSource(done.overrides, DeviceTarget(last), FAMILY_PAUSE, u);
      RowsForAppend(WithoutSources(done.overrides, DeviceTarget(last), {FAMILY_PAUSE}), Row(done.nextOverride, DeviceTarget(last), PauseBody(p)), u);
      SourceOfPause(p);
    }
  }

  lemma SourceOfPause(p: Pause)
    ensures PauseBody(p).source == FAMILY_PAUSE
  {
  }

  /** The device has a valid address that is not excluded, by itself or by its owner, and is owned or to be included. */
  predicate IsMeant(db: Db, p: Pause, ip: string)
    requires ip in db.devices
  {
    && p.valid(ip) && ip !in p.excludeIps
    && if db.devices[ip].personId.Some? then db.devices[ip].personId.value !in p.excludePersons else p.includeUnassigned
  }

  /** A pause puts one row on every device it is meant for: the pause's profile, from now for 60 seconds a minute,
      replacing any earlier pause.  The device's other rows stay, and so do all rows of everybody else. */
  lemma PauseReaches(db: Db, p: Pause, order: seq<string>, u: Target)
    requires Lists(db, order)
    ensures
      var before, rows := RowsFor(db.overrides, u), RowsFor(Paused(db, p, order).overrides, u);
      if u.DeviceTarget? && u.ip in db.devices && IsMeant(db, p, u.ip) then
        && (exists x :: x in rows && IsPauseRow(p, x.1))
        && (forall x, y :: x in rows && y in rows && x.1.source == "family-pause" == y.1.source ==> x == y)
        && (forall x: (nat, OverrideBody) :: x.1.source != "family-pause" ==> (x in rows <==> x in before))
      else rows == before
  {
    hide RowsFor, Paused, OtherSources, PauseBody, IsPauseRow, Distinct;
    PausedRowsFor(db, p, order, u);
    PauseBodyIs(p);
    var before, rows := RowsFor(db.overrides, u), RowsFor(Paused(db, p, order).overrides, u);
    if u.DeviceTarget? && u.ip in order && Affects(p, u.ip, db.devices[u.ip]) {
      var id: nat :| rows == OtherSources(before, FAMILY_PAUSE) + [(id, PauseBody(p))];
      assert rows[|rows| - 1] == (id, PauseBody(p));
      assert (id, PauseBody(p)) in rows;
    }
  }

  lemma PauseBodyIs(p: Pause)
    ensures IsPauseRow(p, PauseBody(p)) && PauseBody(p).source == "family-pause"
  {
  }

  /** The row says what the request said. */
  predicate IsPauseRow(p: Pause, o: OverrideBody) {
    && o.profile == p.profile && o.source == "family-pause" && o.startsAt == p.now && o.expiresAt == p.now + 60 * p.minutes
    && o.createdBy == p.createdBy
    && (p.note.Some? && p.note.value != "" ==> o.note == p.note)
    && (p.note == None || p.note == Some("") ==> o.note == Some("family pause"))
  }

  /** Pausing and then resuming gives back exactly the override rows, when no family pause was running. */
  lemma PauseThenResume(db: Db, p: Pause, order: seq<string>, later: seq<string>)
    requires Lists(db, order) && Lists(db, later)
    requires forall o :: o in db.overrides ==> !IsFamilyPause(o)
    ensures Resumed(Paused(db, p, order), later) == db.(nextOverride := Paused(db, p, order).nextOverride)
  {
    PausedRows(db, p, order);
    ResumeIsComplete(Paused(db, p, order), later);
    ResumedRows(Paused(db, p, order), later);
    SelectAll(db.overrides, (o: Row<OverrideBody>) => !IsFamilyPause(o));
  }

  // ---- the request handlers ----------------------------------------------------------

  /** Stamps the override on one device, unless it is excluded or unassigned. */
  method PauseOne(store: Store, p: Pause, ip: string) returns (stamped: bool, skippedUnassigned: bool)
    requires ip in store.devices
    modifies store`overrides, store`nextOverride
    ensures stamped == Affects(p, ip, store.devices[ip])
    ensures store.State() == if stamped then WithOverride(old(store.State()), DeviceTarget(ip), PauseBody(p)) else old(store.State())
    ensures skippedUnassigned == SkippedUnassigned(p, ip, store.devices[ip])
  {
    stamped, skippedUnassigned := false, false;
    var d := store.devices[ip];
    if !p.valid(ip) || ip in p.excludeIps {
      return;
    }
    if d.personId.Some? && d.personId.value in p.excludePersons {
      return;
    }
    if d.personId == None && !p.includeUnassigned {
      skippedUnassigned := true;
      return;
    }
    var _ := store.AddOverride(DeviceTarget(ip), PauseBody(p));
    stamped := true;
  }

  /** How many of the listed devices a pause stamps, and how many it leaves alone as unassigned. */
  function Counts(db: Db, p: Pause, order: seq<string>): (nat, nat)
    requires forall ip :: ip in order ==> ip in db.devices
  {
    if order == [] then (0, 0)
    else
      var ip := order[|order| - 1];
      var c := Counts(db, p, order[..|order| - 1]);
      (c.0 + (if Affects(p, ip, db.devices[ip]) then 1 else 0), c.1 + (if SkippedUnassigned(p, ip, db.devices[ip]) then 1 else 0))
  }

  function Meant(db: Db, p: Pause, order: seq<string>): set<string>
    requires forall ip :: ip in order ==> ip in db.devices
  {
    set ip | ip in order && IsMeant(db, p, ip)
  }

  /** Kept out by nothing but having no owner. */
  predicate Unowned(db: Db, p: Pause, ip: string)
    requires ip in db.devices
  {
    p.valid(ip) && ip !in p.excludeIps && db.devices[ip].personId == None && !p.includeUnassigned
  }

  function UnownedOf(db: Db, p: Pause, order: seq<string>): set<string>
    requires forall ip :: ip in order ==> ip in db.devices
  {
    set ip | ip in order && Unowned(db, p, ip)
  }

  lemma MeantIsAffected(db: Db, p: Pause, ip: string)
    requires ip in db.devices
    ensures IsMeant(db, p, ip) <==> Affects(p, ip, db.devices[ip])
    ensures Unowned(db, p, ip) <==> SkippedUnassigned(p, ip, db.devices[ip])
  {
  }

  lemma OneMoreMeant(db: Db, p: Pause, init: seq<string>, last: string)
    requires (forall ip :: ip in init + [last] ==> ip in db.devices) && last !in init
    ensures |Meant(db, p, init + [last])| == |Meant(db, p, init)| + if IsMeant(db, p, last) then 1 else 0
  {
    hide IsMeant;
    assert Meant(db, p, init + [last]) == Meant(db, p, init) + if IsMeant(db, p, last) then {last} else {};
  }

  lemma OneMoreUnowned(db: Db, p: Pause, init: seq<string>, last: string)
    requires (forall ip :: ip in init + [last] ==> ip in db.devices) && last !in init
    ensures |UnownedOf(db, p, init + [last])| == |UnownedOf(db, p, init)| + if Unowned(db, p, last) then 1 else 0
  {
    hide Unowned;
    assert UnownedOf(db, p, init + [last]) == UnownedOf(db, p, init) + if Unowned(db, p, last) then {last} else {};
  }

  /** Each device counts once: as stamped, or as skipped for want of an owner. */
  lemma {:induction false} CountsAre(db: Db, p: Pause, order: seq<string>)
    requires (forall ip :: ip in order ==> ip in db.devices) && Distinct(order)
    ensures Counts(db, p, order) == (|Meant(db, p, order)|, |UnownedOf(db, p, order)|)
  {
    if order != [] {
      hide Affects, SkippedUnassigned, IsMeant, Unowned, Meant, UnownedOf;
      var init, last := order[..|order| - 1], order[|order| - 1];
      assert order == init + [last];
      CountsAre(db, p, init);
      OneMoreMeant(db, p, init, last);
      OneMoreUnowned(db, p, init, last);
      MeantIsAffected(db, p, last);
    } else {
      assert Meant(db, p, []) == {} && UnownedOf(db, p, []) == {};
    }
  }

  lemma PausedAppend(db: Db, p: Pause, order: seq<string>, i: nat)
    requires i < |order| && forall x :: x in order ==> x in db.devices
    ensures
      var done, ip := Paused(db, p, order[..i]), order[i];
      Paused(db, p, order[..i + 1]) == if Affects(p, ip, db.devices[ip]) then WithOverride(done, DeviceTarget(ip), PauseBody(p)) else done
    ensures
      var c, ip := Counts(db, p, order[..i]), order[i];
      Counts(db, p, order[..i + 1]) ==
        (c.0 + (if Affects(p, ip, db.devices[ip]) then 1 else 0), c.1 + (if SkippedUnassigned(p, ip, db.devices[ip]) then 1 else 0))
  {
    assert order[..i + 1][..i] == order[..i];
  }

  /** The device rows in some order. */
  method AllDevices(store: Store) returns (order: seq<string>)
    ensures Lists(store.State(), order)
  {
    order := [];
    var todo := store.devices.Keys;
    while todo != {}
      invariant todo <= store.devices.Keys
      invariant forall ip :: ip in order <==> ip in store.devices.Keys - todo
      invariant Distinct(order)
      decreases todo
    {
      var ip :| ip in todo;
      DistinctAppend(order, ip);
      order := order + [ip];
      todo := todo - {ip};
    }
  }

  method PauseFamily(store: Store, p: Pause) returns (affected: nat, skippedUnassigned: nat, order: seq<string>)
    modifies store
    ensures Lists(old(store.State()), order)
    ensures store.State() == Paused(old(store.State()), p, order)
    ensures (affected, skippedUnassigned) == Counts(old(store.State()), p, order)
      == (|Meant(old(store.State()), p, order)|, |UnownedOf(old(store.State()), p, order)|)
  {
    ghost var db := store.State();
    affected, skippedUnassigned := 0, 0;
    order := AllDevices(store);
    CountsAre(db, p, order);
    for i := 0 to |order|
      invariant store.State() == Paused(db, p, order[..i])
      invariant (affected, skippedUnassigned) == Counts(db, p, order[..i])
    {
      PausedAppend(db, p, order, i);
      var stamped, unassigned := PauseOne(store, p, order[i]);
      if stamped { affected := affected + 1; }
      if unassigned { skippedUnassigned := skippedUnassigned + 1; }
    }
    assert order[..|order|] == order;
  }

  method ResumeFamily(store: Store) returns (cleared: nat, order: seq<string>)
    modifies store
    ensures Lists(old(store.State()), order)
    ensures store.State() == Resumed(old(store.State()), order)
    ensures cleared == |old(store.overrides)| - |store.overrides|
  {
    ghost var db := store.State();
    cleared := 0;
    order := AllDevices(store);
    for i := 0 to |order|
      invariant store.State() == Resumed(db, order[..i])
      invariant cleared == |db.overrides| - |store.overrides|
    {
      assert order[..i + 1][..i] == order[..i];
      var n := store.ClearOverrides(DeviceTarget(order[i]), {FAMILY_PAUSE});
      cleared := cleared + n;
    }
    assert order[..|order|] == order;
  }
}
