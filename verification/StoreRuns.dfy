/** Any sequence of store operations, and what every such run keeps. */
module StoreRuns {
  import opened Records
  import opened Tables
  import opened StoreSpec
  import opened Selections
  import opened Resolution
  import opened FamilyPause
  import opened Sampling

  /** One operation.  `Edit` stands for every upsert that leaves the star alone: touching, naming, setting a
      profile, an owner, a MAC or a fingerprint.  Nothing deletes a device row except a migration. */
  datatype Op =
    | Follow(mac: string, oldIp: string, newIp: string, now: int)
    | Edit(ip: string, row: Device)
    | Star(ip: string, on: bool, now: int)
    | Override(target: Target, body: OverrideBody)
    | Clear(target: Target, sources: set<string>)
    | Purge(utc: int)
    | PauseAll(pause: Pause, order: seq<string>)
    | ResumeAll(order: seq<string>)
    | Sample(active: seq<string>, date: string)

  predicate KeepsStar(db: Db, ip: string, row: Device) {
    if ip in db.devices then row.favourite == db.devices[ip].favourite && row.favOrder == db.devices[ip].favOrder
    else !row.favourite && row.favOrder == 0
  }

  ghost predicate Can(db: Db, op: Op) {
    match op
    case Follow(mac, oldIp, newIp, now) => oldIp in Candidates(db, mac, newIp)
    case Edit(ip, row) => KeepsStar(db, ip, row)
    case Override(target, body) => body.source != FAMILY_PAUSE
    case PauseAll(pause, order) => Lists(db, order)
    case ResumeAll(order) => Lists(db, order)
    case _ => true
  }

  ghost function Do(db: Db, op: Op): Db
    requires Can(db, op)
  {
    match op
    case Follow(mac, oldIp, newIp, now) => Migrated(db, oldIp, newIp, StoreNorm(mac), now)
    case Edit(ip, row) => WithDevice(db, ip, row)
    case Star(ip, on, now) => WithFavourite(db, ip, on, now)
    case Override(target, body) => WithOverride(db, target, body)
    case Clear(target, sources) => db.(overrides := WithoutSources(db.overrides, target, sources))
    case Purge(utc) => Purged(db, utc)
    case PauseAll(pause, order) => Paused(db, pause, order)
    case ResumeAll(order) => Resumed(db, order)
    case Sample(active, date) => Sampled(db, active, date)
  }

  ghost predicate CanRun(db: Db, ops: seq<Op>)
    decreases |ops|
  {
    ops == [] || (Can(db, ops[0]) && CanRun(Do(db, ops[0]), ops[1..]))
  }

  ghost function Run(db: Db, ops: seq<Op>): Db
    requires CanRun(db, ops)
    decreases |ops|
  {
    if ops == [] then db else Run(Do(db, ops[0]), ops[1..])
  }

  // ---- favourites --------------------------------------------------------------------

  /** Favourites have distinct orders of at least one; everyone else has order zero. */
  ghost predicate FavouritesOrdered(db: Db) {
    && (forall ip :: ip in db.devices ==> if db.devices[ip].favourite then db.devices[ip].favOrder >= 1 else db.devices[ip].favOrder == 0)
    && (forall x, y :: x in db.devices && y in db.devices && x != y && db.devices[x].favourite && db.devices[y].favourite ==>
          db.devices[x].favOrder != db.devices[y].favOrder)
  }

  lemma TopBoundsFavourites(db: Db)
    requires FavouritesOrdered(db)
    ensures MaxOrZero(FavOrders(db)) >= 0
    ensures forall x :: x in db.devices && db.devices[x].favourite ==> db.devices[x].favOrder <= MaxOrZero(FavOrders(db))
  {
    var orders := FavOrders(db);
    forall x | x in db.devices && db.devices[x].favourite ensures db.devices[x].favOrder <= MaxOrZero(orders) {
      assert db.devices[x].favOrder in orders;
    }
    if orders != {} {
      var x :| x in db.devices && db.devices[x].favourite && db.devices[x].favOrder == MaxOrZero(orders);
    }
  }

  /** Starring puts the device after every favourite. */
  lemma StarKeepsOrder(db: Db, ip: string, on: bool, now: int)
    requires FavouritesOrdered(db)
    ensures
      var db' := WithFavourite(db, ip, on, now);
      && FavouritesOrdered(db')
      && db'.devices[ip].favourite == on
      && (on ==> forall x :: x in db.devices && x != ip && db.devices[x].favourite ==>
            db'.devices[x].favOrder == db.devices[x].favOrder < db'.devices[ip].favOrder)
  {
    hide MaxOrZero, FavOrders, FavouritesOrdered, Touched;
    TopBoundsFavourites(db);
    var order := if on then MaxOrZero(FavOrders(db)) + 1 else 0;
    RowInPlace(db, ip, Touched(db, ip, now).(favourite := on, favOrder := order));
  }

  /** A row put in as a favourite after all others, or as none. */
  lemma RowInPlace(db: Db, ip: string, row: Device)
    requires FavouritesOrdered(db)
    requires if row.favourite then row.favOrder >= 1 else row.favOrder == 0
    requires row.favourite ==> forall x :: x in db.devices && db.devices[x].favourite ==> db.devices[x].favOrder < row.favOrder
    ensures FavouritesOrdered(WithDevice(db, ip, row))
  {
  }

  lemma StepKeepsFavourites(db: Db, op: Op)
    requires Can(db, op) && FavouritesOrdered(db)
    ensures FavouritesOrdered(Do(db, op))
  {
    if op.Star? {
      StarKeepsOrder(db, op.ip, op.on, op.now);
    }
  }

  // ---- family pauses ------------------------------------------------------------------

  lemma StepKeepsPointing(db: Db, op: Op)
    requires Can(db, op) && PausesPointAtDevices(db)
    ensures PausesPointAtDevices(Do(db, op))
  {
    match op
    case Follow(mac, oldIp, newIp, now) =>
      RetargetedAt(db.overrides, DeviceTarget(oldIp), DeviceTarget(newIp));
    case PauseAll(pause, order) => PauseKeepsPointing(db, pause, order);
    case ResumeAll(order) => ResumedRows(db, order);
    case _ =>
  }

  // ---- override ids -------------------------------------------------------------------

  lemma {:induction false} SelectKeepsIds<B(!new)>(rows: seq<Row<B>>, p: Row<B> -> bool, bound: nat)
    requires forall i, j :: 0 <= i < j < |rows| ==> rows[i].id < rows[j].id
    requires forall i :: 0 <= i < |rows| ==> rows[i].id < bound
    ensures forall i, j :: 0 <= i < j < |Select(rows, p)| ==> Select(rows, p)[i].id < Select(rows, p)[j].id
    ensures forall i :: 0 <= i < |Select(rows, p)| ==> Select(rows, p)[i].id < bound
  {
    if rows != [] {
      SelectKeepsIds(rows[1..], p, bound);
      var rest := Select(rows[1..], p);
      forall i | 0 <= i < |rest| ensures rows[0].id < rest[i].id {
        assert rest[i] in rows[1..];
      }
    }
  }

  lemma AddKeepsIds(db: Db, t: Target, body: OverrideBody)
    requires IdsAscend(db)
    ensures IdsAscend(WithOverride(db, t, body))
  {
    var others := (o: Row<OverrideBody>) => !(o.target == t && o.body.source in {body.source});
    WithoutSourcesKeeps(db.overrides, t, {body.source}, others);
    SelectKeepsIds(db.overrides, others, db.nextOverride);
  }

  lemma {:induction false} PauseKeepsIds(db: Db, p: Pause, order: seq<string>)
    requires IdsAscend(db) && forall ip :: ip in order ==> ip in db.devices
    ensures IdsAscend(Paused(db, p, order))
  {
    if order != [] {
      var init, last := order[..|order| - 1], order[|order| - 1];
      PauseKeepsIds(db, p, init);
      AddKeepsIds(Paused(db, p, init), DeviceTarget(last), PauseBody(p));
    }
  }

  lemma StepKeepsIds(db: Db, op: Op)
    requires Can(db, op) && IdsAscend(db)
    ensures IdsAscend(Do(db, op))
  {
    match op
    case Follow(mac, oldIp, newIp, now) => RetargetedAt(db.overrides, DeviceTarget(oldIp), DeviceTarget(newIp));
    case Override(t, body) => AddKeepsIds(db, t, body);
    case Clear(t, sources) =>
      SelectKeepsIds(db.overrides, (o: Row<OverrideBody>) => !(o.target == t && o.body.source in sources), db.nextOverride);
    case Purge(utc) => SelectKeepsIds(db.overrides, (o: Row<OverrideBody>) => o.body.expiresAt > utc, db.nextOverride);
    case PauseAll(pause, order) => PauseKeepsIds(db, pause, order);
    case ResumeAll(order) =>
      ResumedRows(db, order);
      SelectKeepsIds(db.overrides, (o: Row<OverrideBody>) => !(IsFamilyPause(o) && o.target.ip in order), db.nextOverride);
    case _ =>
  }

  /** A manual pause takes effect at once, whatever else is stored: the target resolves to it until it expires. */
  lemma ManualPauseTakesEffect(db: Db, t: Target, body: OverrideBody, base: Option<string>, c: Clock,
          person: Option<int>)
    requires ValidClock(c) && body.source == "manual" && body.expiresAt > c.utc
    ensures
      var trace := Resolve(StateOf(WithOverride(db, t, body), t, base, c.date), c, person);
      && (body.profile.Some? && body.profile.value != "" ==> trace.profile == body.profile)
      && (body.profile == None || body.profile == Some("") ==> trace.profile == Some("internet-off"))
      && TellsOverride(trace, body) && trace.personId == person
  {
    var rows := WithOverride(db, t, body).overrides;
    var state := StateOf(WithOverride(db, t, body), t, base, c.date);
    var mine := (db.nextOverride, body);
    assert rows[|rows| - 1] == Row(mine.0, t, mine.1);
    RowsForMembers(rows, t, mine);
    var active := Active(state.overrides, c.utc);
    assert mine in active;
    var top := TopOverride(active);
    RowsForMembers(rows, t, top);
    assert top.1.source == "manual";
    assert Row(top.0, t, top.1) !in WithoutSources(db.overrides, t, {"manual"});
  }

  /** The paused device's own rules resolve to the pause until it is over, unless a manual override of its own is
      live. */
  lemma FamilyPauseTakesEffect(db: Db, p: Pause, order: seq<string>, ip: string, base: Option<string>, c: Clock,
          person: Option<int>)
    requires Lists(db, order) && ip in db.devices && ValidClock(c) && c.utc < p.now + 60 * p.minutes
    requires IsMeant(db, p, ip)
    requires forall x :: x in RowsFor(db.overrides, DeviceTarget(ip)) && x.1.source == "manual" ==> x.1.expiresAt <= c.utc
    ensures
      var trace := Resolve(StateOf(Paused(db, p, order), DeviceTarget(ip), base, c.date), c, person);
      && trace.source == "family-pause" && trace.expiresAt == Some(p.now + 60 * p.minutes)
      && (p.profile.Some? && p.profile.value != "" ==> trace.profile == p.profile)
      && (p.profile == None || p.profile == Some("") ==> trace.profile == Some("internet-off"))
  {
    hide Paused, RowsFor, Distinct, Resolve;
    PauseReaches(db, p, order, DeviceTarget(ip));
    var s := StateOf(Paused(db, p, order), DeviceTarget(ip), base, c.date);
    var x :| x in s.overrides && IsPauseRow(p, x.1);
    PauseShows(s, c, person, x);
  }

  /** A target's one live family pause shows unless a manual override is live. */
  lemma PauseShows(s: TargetState, c: Clock, person: Option<int>, x: (nat, OverrideBody))
    requires ValidClock(c) && x in s.overrides && x.1.source == "family-pause" && x.1.expiresAt > c.utc
    requires forall y :: y in s.overrides && y.1.source == "family-pause" ==> y == x
    requires forall y :: y in s.overrides && y.1.expiresAt > c.utc ==> y.1.source != "manual"
    ensures TellsOverride(Resolve(s, c, person), x.1)
  {
    var active := Active(s.overrides, c.utc);
    assert x in active;
    var top := TopOverride(active);
    assert !Outranks(x, top);
  }

  // ---- minutes ------------------------------------------------------------------------

  predicate NoNegativeMinutes(db: Db) {
    forall k :: k in db.usage ==> db.usage[k] >= 0
  }

  /** The minutes a target has on a day. */
  function Minutes(db: Db, t: Target, date: string): int {
    Get(db.usage, (t, date))
  }

  /** How often an address is in the list. */
  function Times(active: seq<string>, ip: string): nat {
    if active == [] then 0 else Times(active[..|active| - 1], ip) + if active[|active| - 1] == ip then 1 else 0
  }

  lemma {:induction false} DeviceCreditsGet(usage: Usage<string>, active: seq<string>, date: string, t: Target,
          d: string)
    ensures Get(DeviceCredits(usage, active, date), (t, d)) == Get(usage, (t, d)) +
      if t.DeviceTarget? && d == date then SAMPLE_INTERVAL_MINUTES * Times(active, t.ip) else 0
  {
    if active != [] {
      DeviceCreditsGet(usage, active[..|active| - 1], date, t, d);
    }
  }

  /** What one sampling pass gives a target. */
  function Gain(db: Db, active: seq<string>, t: Target): int {
    if t.DeviceTarget? then SAMPLE_INTERVAL_MINUTES * Times(active, t.ip)
    else if t.PersonTarget? && t.pid in ActivePeople(db, active) then SAMPLE_INTERVAL_MINUTES
    else 0
  }

  /** One sampling pass adds five minutes per listing of an address, and five to each owner of a listed one. */
  lemma SampledMinutes(db: Db, active: seq<string>, date: string, t: Target, d: string)
    ensures Minutes(Sampled(db, active, date), t, d) == Minutes(db, t, d) +
      if d != date then 0 else Gain(db, active, t)
  {
    DeviceCreditsGet(db.usage, active, date, t, d);
  }

  /** How many of the listed clients have this address and at least one hit. */
  function Hits(top: seq<(string, int)>, ip: string): nat {
    if top == [] then 0 else Hits(top[..|top| - 1], ip) + if top[|top| - 1].0 == ip && top[|top| - 1].1 > 0 then 1 else 0
  }

  lemma TimesOneMore(active: seq<string>, x: string, ip: string)
    ensures Times(active + [x], ip) == Times(active, ip) + if x == ip then 1 else 0
  {
    assert (active + [x])[..|active|] == active;
  }

  lemma {:induction false} TimesAreHits(top: seq<(string, int)>, ip: string)
    ensures Times(ActiveIps(top), ip) == if ip == "" then 0 else Hits(top, ip)
  {
    if top != [] {
      hide Times, ActiveIps, Hits;
      var init, last := top[..|top| - 1], top[|top| - 1];
      TimesAreHits(init, ip);
      OneMoreClient(top, ip);
      TimesOneMore(ActiveIps(init), last.0, ip);
    } else {
      assert Times([], ip) == 0;
    }
  }

  lemma OneMoreClient(top: seq<(string, int)>, ip: string)
    requires top != []
    ensures
      var init, last := top[..|top| - 1], top[|top| - 1];
      && ActiveIps(top) == (if last.0 != "" && last.1 > 0 then ActiveIps(init) + [last.0] else ActiveIps(init))
      && Hits(top, ip) == Hits(init, ip) + if last.0 == ip && last.1 > 0 then 1 else 0
  {
    var init := ActiveIps(top[..|top| - 1]);
    assert init + [] == init;
  }

  lemma {:induction false} ActiveAreSeen(top: seq<(string, int)>, ip: string)
    ensures ip in ActiveIps(top) <==> ip != "" && exists c :: c in top && c.0 == ip && c.1 > 0
  {
    if top != [] {
      var init, last := top[..|top| - 1], top[|top| - 1];
      ActiveAreSeen(init, ip);
      assert top == init + [last];
      assert (exists c :: c in init && c.0 == ip && c.1 > 0) ==> exists c :: c in top && c.0 == ip && c.1 > 0;
    }
  }

  /** What a pass over the listed clients adds to the day's minutes: five for every listing with a hit, and five once
      for everybody who owns such an address. */
  lemma PassAdds(db: Db, top: seq<(string, int)>, date: string, t: Target, d: string)
    ensures
      var gained := Minutes(Sampled(db, ActiveIps(top), date), t, d) - Minutes(db, t, d);
      if d != date || t.AllTarget? then gained == 0
      else if t.DeviceTarget? then gained == if t.ip == "" then 0 else 5 * Hits(top, t.ip)
      else gained == if t.pid != 0 && exists c :: c in top && IsSeen(db, c, t.pid) then 5 else 0
  {
    hide Sampled, ActiveIps, Times, Hits;
    SampledMinutes(db, ActiveIps(top), date, t, d);
    if t.DeviceTarget? {
      TimesAreHits(top, t.ip);
    } else if t.PersonTarget? {
      OwnersAreSeen(db, top, t.pid);
    }
  }

  lemma OwnersAreSeen(db: Db, top: seq<(string, int)>, pid: int)
    ensures pid in ActivePeople(db, ActiveIps(top)) <==> pid != 0 && exists c :: c in top && IsSeen(db, c, pid)
  {
    hide ActiveIps;
    if pid in ActivePeople(db, ActiveIps(top)) {
      var ip :| ip in ActiveIps(top) && ip in db.devices && db.devices[ip].personId.Some? && db.devices[ip].personId.value == pid;
      ActiveAreSeen(top, ip);
      var c :| c in top && c.0 == ip && c.1 > 0;
      assert IsSeen(db, c, pid);
    }
    if c :| c in top && IsSeen(db, c, pid) {
      ActiveAreSeen(top, c.0);
    }
  }

  /** The client is an address of the person's, with at least one hit. */
  predicate IsSeen(db: Db, client: (string, int), pid: int) {
    client.0 != "" && client.1 > 0 && client.0 in db.devices && db.devices[client.0].personId == Some(pid)
  }

  lemma {:induction false} CreditsStayNonNegative(usage: Usage<string>, active: seq<string>, date: string)
    requires forall k :: k in usage ==> usage[k] >= 0
    ensures forall k :: k in DeviceCredits(usage, active, date) ==> DeviceCredits(usage, active, date)[k] >= 0
  {
    if active != [] {
      CreditsStayNonNegative(usage, active[..|active| - 1], date);
    }
  }

  lemma StepKeepsNonNegative(db: Db, op: Op)
    requires Can(db, op) && NoNegativeMinutes(db)
    ensures NoNegativeMinutes(Do(db, op))
  {
    if op.Sample? {
      CreditsStayNonNegative(db.usage, op.active, op.date);
    } else if op.PauseAll? {
      PausedRows(db, op.pause, op.order);
    } else if op.ResumeAll? {
      ResumedRows(db, op.order);
    }
  }

  /** Minutes after one operation: a migration adds the old address's minutes to the new one's, a sample adds
      its credits, nothing else touches them. */
  lemma StepMinutes(db: Db, op: Op, t: Target, d: string)
    requires Can(db, op)
    ensures op.Follow? ==>
      Minutes(Do(db, op), t, d) ==
        if t == DeviceTarget(op.oldIp) then 0
        else Minutes(db, t, d) + if t == DeviceTarget(op.newIp) then Minutes(db, DeviceTarget(op.oldIp), d) else 0
    ensures !op.Follow? && !op.Sample? ==> Minutes(Do(db, op), t, d) == Minutes(db, t, d)
  {
    match op
    case Follow(mac, oldIp, newIp, now) => MovedUsageAt(db.usage, DeviceTarget(oldIp), DeviceTarget(newIp), t, d);
    case PauseAll(pause, order) => PausedRows(db, pause, order);
    case ResumeAll(order) => ResumedRows(db, order);
    case _ =>
  }

  // ---- quotas -------------------------------------------------------------------------

  /** Some quota of the target is spent on that day. */
  predicate OverQuota(db: Db, t: Target, date: string, weekday: nat) {
    QuotaExceeded(RowsFor(db.quotas, t), Minutes(db, t, date), weekday).Some?
  }

  /** Where a target's things are after an operation. */
  function Carried(t: Target, op: Op): Target {
    if op.Follow? && t == DeviceTarget(op.oldIp) then DeviceTarget(op.newIp) else t
  }

  function CarriedAll(t: Target, ops: seq<Op>): Target
    decreases |ops|
  {
    if ops == [] then t else CarriedAll(Carried(t, ops[0]), ops[1..])
  }

  lemma QuotaRowsCarried(db: Db, op: Op, t: Target, q: (nat, QuotaBody))
    requires Can(db, op) && q in RowsFor(db.quotas, t)
    ensures q in RowsFor(Do(db, op).quotas, Carried(t, op))
  {
    match op
    case Follow(mac, oldIp, newIp, now) =>
      var a, b := DeviceTarget(oldIp), DeviceTarget(newIp);
      RowsForMembers(db.quotas, t, q);
      RowsForMembers(Retargeted(db.quotas, a, b), Carried(t, op), q);
      RetargetedAt(db.quotas, a, b);
      var i :| 0 <= i < |db.quotas| && db.quotas[i] == Row(q.0, t, q.1);
      assert Retargeted(db.quotas, a, b)[i] == Row(q.0, Carried(t, op), q.1);
    case PauseAll(pause, order) => PausedRows(db, pause, order);
    case ResumeAll(order) => ResumedRows(db, order);
    case _ =>
  }

  lemma StepCannotShedQuota(db: Db, op: Op, t: Target, date: string, weekday: nat)
    requires Can(db, op) && NoNegativeMinutes(db) && OverQuota(db, t, date, weekday)
    ensures OverQuota(Do(db, op), Carried(t, op), date, weekday)
  {
    var q := QuotaExceeded(RowsFor(db.quotas, t), Minutes(db, t, date), weekday).value;
    QuotaRowsCarried(db, op, t, q);
    StepMinutes(db, op, Carried(t, op), date);
    if op.Sample? {
      SampledMinutes(db, op.active, op.date, t, date);
    }
    assert Minutes(db, t, date) <= Minutes(Do(db, op), Carried(t, op), date);
  }

  // ---- whole runs ----------------------------------------------------------------------

  ghost predicate Sound(db: Db) {
    FavouritesOrdered(db) && PausesPointAtDevices(db) && IdsAscend(db) && NoNegativeMinutes(db)
  }

  /** Every run keeps the favourites in order, the family pauses anchored, the override ids ascending and the
      minutes non-negative. */
  lemma {:induction false} RunKeepsInvariants(db: Db, ops: seq<Op>)
    requires CanRun(db, ops) && Sound(db)
    ensures Sound(Run(db, ops))
    decreases |ops|
  {
    if ops != [] {
      StepKeepsFavourites(db, ops[0]);
      StepKeepsPointing(db, ops[0]);
      StepKeepsIds(db, ops[0]);
      StepKeepsNonNegative(db, ops[0]);
      RunKeepsInvariants(Do(db, ops[0]), ops[1..]);
    }
  }

  /** After any run, migrations included, one resume leaves no family-pause row and keeps every other row. */
  lemma ResumeIsCompleteAfterAnyRun(db: Db, ops: seq<Op>, order: seq<string>)
    requires CanRun(db, ops) && Sound(db)
    requires Lists(Run(db, ops), order)
    ensures forall o :: o in Resumed(Run(db, ops), order).overrides <==> o in Run(db, ops).overrides && !IsFamilyPause(o)
  {
    RunKeepsInvariants(db, ops);
    ResumeIsComplete(Run(db, ops), order);
  }

  /** A spent quota cannot be shed by moving: within the day, after any run, the target or the address it
      has moved to still has a spent quota. */
  lemma {:induction false} QuotaCannotBeShed(db: Db, ops: seq<Op>, t: Target, date: string, weekday: nat)
    requires CanRun(db, ops) && NoNegativeMinutes(db) && OverQuota(db, t, date, weekday)
    ensures OverQuota(Run(db, ops), CarriedAll(t, ops), date, weekday)
    decreases |ops|
  {
    if ops != [] {
      StepCannotShedQuota(db, ops[0], t, date, weekday);
      StepKeepsNonNegative(db, ops[0]);
      QuotaCannotBeShed(Do(db, ops[0]), ops[1..], Carried(t, ops[0]), date, weekday);
    }
  }

  /** Sampling passes of the day in which some device of the person was active. */
  ghost function ActivePasses(db: Db, ops: seq<Op>, pid: int, date: string): nat
    requires CanRun(db, ops)
    decreases |ops|
  {
    if ops == [] then 0
    else
      (if ops[0].Sample? && ops[0].date == date && pid in ActivePeople(db, ops[0].active) then 1 else 0)
      + ActivePasses(Do(db, ops[0]), ops[1..], pid, date)
  }

  /** A person's minutes grow by five per pass with an active device, however many devices that was, and
      whatever migrations and edits happen in between. */
  lemma {:induction false} PersonMinutesCountPasses(db: Db, ops: seq<Op>, pid: int, date: string)
    requires CanRun(db, ops)
    ensures Minutes(Run(db, ops), PersonTarget(pid), date) ==
      Minutes(db, PersonTarget(pid), date) + SAMPLE_INTERVAL_MINUTES * ActivePasses(db, ops, pid, date)
    decreases |ops|
  {
    if ops != [] {
      PersonMinutesCountPasses(Do(db, ops[0]), ops[1..], pid, date);
      StepMinutes(db, ops[0], PersonTarget(pid), date);
      if ops[0].Sample? {
        SampledMinutes(db, ops[0].active, ops[0].date, PersonTarget(pid), date);
      }
    }
  }

  /** Device listings of the day, over a whole run. */
  function Listings(ops: seq<Op>, date: string): nat
    decreases |ops|
  {
    if ops == [] then 0
    else (if ops[0].Sample? && ops[0].date == date then |ops[0].active| else 0) + Listings(ops[1..], date)
  }

  lemma {:induction false} CreditsTotal(usage: Usage<string>, active: seq<string>, date: string, d: string)
    ensures Total(BucketMinutes(DeviceCredits(usage, active, date), d)) ==
      Total(BucketMinutes(usage, d)) + if d == date then SAMPLE_INTERVAL_MINUTES * |active| else 0
  {
    if active != [] {
      var init, ip := active[..|active| - 1], active[|active| - 1];
      CreditsTotal(usage, init, date, d);
      OneCreditTotal(DeviceCredits(usage, init, date), ip, date, d);
    }
  }

  lemma OneCreditTotal(usage: Usage<string>, ip: string, date: string, d: string)
    ensures Total(BucketMinutes(Credited(usage, DeviceTarget(ip), date, SAMPLE_INTERVAL_MINUTES), d)) ==
      Total(BucketMinutes(usage, d)) + if d == date then SAMPLE_INTERVAL_MINUTES else 0
  {
    var credited := Credited(usage, DeviceTarget(ip), date, SAMPLE_INTERVAL_MINUTES);
    var before, after := BucketMinutes(usage, d), BucketMinutes(credited, d);
    forall x
      ensures x in after <==> x in before || (x == ip && d == date)
      ensures x in after ==> after[x] == Get(before, x) + if x == ip && d == date then SAMPLE_INTERVAL_MINUTES else 0
    {
    }
    if d == date {
      assert after == before[ip := Get(before, ip) + SAMPLE_INTERVAL_MINUTES];
      TotalUpdate(before, ip, Get(before, ip) + SAMPLE_INTERVAL_MINUTES);
    } else {
      assert after == before;
    }
  }

  lemma PersonCreditsTotal(usage: Usage<string>, people: set<int>, date: string, d: string)
    ensures BucketMinutes(PersonCredits(usage, people, date), d) == BucketMinutes(usage, d)
  {
  }

  lemma StepTotal(db: Db, op: Op, date: string)
    requires Can(db, op)
    ensures Total(BucketMinutes(Do(db, op).usage, date)) ==
      Total(BucketMinutes(db.usage, date)) + SAMPLE_INTERVAL_MINUTES * Listings([op], date)
  {
    hide BucketMinutes, Total, MergedDevice;
    assert Listings([op][1..], date) == 0;
    match op
    case Follow(mac, oldIp, newIp, now) => MovedUsageConserves(db.usage, oldIp, newIp, date);
    case Sample(active, d) =>
      CreditsTotal(db.usage, active, d, date);
      PersonCreditsTotal(DeviceCredits(db.usage, active, d), ActivePeople(db, active), d, date);
    case PauseAll(pause, order) => PausedRows(db, pause, order);
    case ResumeAll(order) => ResumedRows(db, order);
    case _ =>
  }

  /** Device minutes are conserved over whole runs: a day's total grows by five per listing sampled that day
      and by nothing else, wherever the devices move. */
  lemma {:induction false} DeviceMinutesConserved(db: Db, ops: seq<Op>, date: string)
    requires CanRun(db, ops)
    ensures Total(BucketMinutes(Run(db, ops).usage, date)) ==
      Total(BucketMinutes(db.usage, date)) + SAMPLE_INTERVAL_MINUTES * Listings(ops, date)
    decreases |ops|
  {
    if ops != [] {
      hide Do, Can, Total, BucketMinutes;
      StepTotal(db, ops[0], date);
      DeviceMinutesConserved(Do(db, ops[0]), ops[1..], date);
    }
  }
}
