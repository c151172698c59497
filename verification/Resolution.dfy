/** The override-resolution engine: from what is stored about a target to the profile it should be on. */
module Resolution {
  import opened Records
  import opened Tables
  import Schedules

  const INTERNET_OFF := "internet-off"

  datatype Detail = NoDetail | Text(text: string) | ScheduleTag(id: nat) | QuotaTag(id: nat)

  datatype Trace = Trace(profile: Option<string>, source: string, detail: Detail, expiresAt: Option<int>, personId: Option<int>)

  /** Everything that decides one target's profile. */
  datatype TargetState = TargetState(
    base: Option<string>,
    schedules: seq<(nat, ScheduleBody)>,
    quotas: seq<(nat, QuotaBody)>,
    overrides: seq<(nat, OverrideBody)>,
    minutes: int)

  function SourcePriority(source: string): int {
    if source == "manual" then 100
    else if source == "family-pause" then 80
    else if source == "quota" then 60
    else if source == "schedule" then 40
    else 0
  }

  /** Python truthiness of an optional text. */
  predicate Truthy(t: Option<string>) {
    t.Some? && t.value != ""
  }

  function OrOff(p: Option<string>): Option<string> {
    if Truthy(p) then p else Some(INTERNET_OFF)
  }

  function TextOr(t: Option<string>, other: Detail): Detail {
    if Truthy(t) then Text(t.value) else other
  }

  // ---- overrides -------------------------------------------------------

  function Active(rows: seq<(nat, OverrideBody)>, utc: int): (r: seq<(nat, OverrideBody)>)
    ensures forall x :: x in r <==> x in rows && x.1.expiresAt > utc
  {
    if rows == [] then []
    else (if rows[0].1.expiresAt > utc then [rows[0]] else []) + Active(rows[1..], utc)
  }

  /** `a` sorts strictly before `b` in the engine's order: priority first, then the newer id. */
  predicate Outranks(a: (nat, OverrideBody), b: (nat, OverrideBody)) {
    SourcePriority(a.1.source) > SourcePriority(b.1.source)
    || (SourcePriority(a.1.source) == SourcePriority(b.1.source) && a.0 > b.0)
  }

  /** The first row of the sorted list. */
  function TopOverride(rows: seq<(nat, OverrideBody)>): (top: (nat, OverrideBody))
    requires rows != []
    ensures top in rows
    ensures forall o :: o in rows ==> !Outranks(o, top)
  {
    if |rows| == 1 then rows[0]
    else
      var best := TopOverride(rows[1..]);
      assert rows == [rows[0]] + rows[1..];
      if Outranks(best, rows[0]) then best else rows[0]
  }

  // ---- schedules -------------------------------------------------------

  predicate Fires(s: ScheduleBody, c: Clock)
    requires ValidClock(c)
  {
    s.enabled && Schedules.WindowActive(c.weekday, c.minute, s.weekdayMask, s.startMin, s.endMin)
  }

  /** Highest-id firing schedule. */
  function PickSchedule(rows: seq<(nat, ScheduleBody)>, c: Clock): (pick: Option<(nat, ScheduleBody)>)
    requires ValidClock(c)
    ensures pick.None? <==> forall s :: s in rows ==> !Fires(s.1, c)
    ensures pick.Some? ==> pick.value in rows && Fires(pick.value.1, c)
    ensures pick.Some? ==> forall s :: s in rows && Fires(s.1, c) ==> s.0 <= pick.value.0
  {
    if rows == [] then None
    else
      var rest := PickSchedule(rows[1..], c);
      assert rows == [rows[0]] + rows[1..];
      if !Fires(rows[0].1, c) then rest
      else if rest.Some? && rest.value.0 > rows[0].0 then rest
      else Some(rows[0])
  }

  // ---- quotas ----------------------------------------------------------

  predicate Spent(q: QuotaBody, minutes: int, weekday: nat) {
    q.enabled && Schedules.WeekdayActive(q.weekdayMask, weekday) && minutes >= q.minutesMax
  }

  /** First spent quota in table order. */
  function QuotaExceeded(rows: seq<(nat, QuotaBody)>, minutes: int, weekday: nat): (pick: Option<(nat, QuotaBody)>)
    ensures pick.None? <==> forall q :: q in rows ==> !Spent(q.1, minutes, weekday)
    ensures pick.Some? ==>
      exists i :: 0 <= i < |rows| && rows[i] == pick.value && Spent(rows[i].1, minutes, weekday)
                  && forall j :: 0 <= j < i ==> !Spent(rows[j].1, minutes, weekday)
  {
    if rows == [] then None
    else if Spent(rows[0].1, minutes, weekday) then Some(rows[0])
    else
      var pick := QuotaExceeded(rows[1..], minutes, weekday);
      assert rows == [rows[0]] + rows[1..];
      assert pick.Some? ==>
        exists i :: 0 <= i < |rows| && rows[i] == pick.value && Spent(rows[i].1, minutes, weekday)
                    && forall j :: 0 <= j < i ==> !Spent(rows[j].1, minutes, weekday) by {
        if pick.Some? {
          var i :| 0 <= i < |rows| - 1 && rows[1..][i] == pick.value && Spent(rows[1..][i].1, minutes, weekday)
            && forall j :: 0 <= j < i ==> !Spent(rows[1..][j].1, minutes, weekday);
          assert rows[i + 1] == pick.value;
          forall j | 0 <= j < i + 1 ensures !Spent(rows[j].1, minutes, weekday) {
            if j > 0 { assert rows[j] == rows[1..][j - 1]; }
          }
        }
      }
      pick
  }

  // ---- one target ------------------------------------------------------

  /** What a winning override row turns into. */
  function TraceOf(o: OverrideBody, person: Option<int>): Trace {
    Trace(OrOff(o.profile), o.source, if o.note.Some? then Text(o.note.value) else NoDetail, Some(o.expiresAt), person)
  }

  function Resolve(s: TargetState, c: Clock, person: Option<int>): Trace
    requires ValidClock(c)
  {
    var active := Active(s.overrides, c.utc);
    if active != [] then
      var top := TopOverride(active).1;
      TraceOf(top, person)
    else
      var sched := PickSchedule(s.schedules, c);
      if sched.Some? then
        Trace(OrOff(sched.value.1.profile), "schedule", TextOr(sched.value.1.name, ScheduleTag(sched.value.0)), None, person)
      else
        var q := QuotaExceeded(s.quotas, s.minutes, c.weekday);
        if q.Some? then
          Trace(OrOff(q.value.1.profileWhenExceeded), "quota", TextOr(q.value.1.name, QuotaTag(q.value.0)), None, person)
        else
          Trace(s.base, if Truthy(s.base) then "base" else "no-profile", NoDetail, None, person)
  }

  predicate IsBase(t: Trace) {
    t.source == "base" || t.source == "no-profile"
  }

  function RestrictionRank(p: Option<string>): nat {
    if p == None then 7
    else if p.value == "internet-off" then 0
    else if p.value == "kids" then 1
    else if p.value == "no-streaming" then 2
    else if p.value == "no-gaming" then 3
    else if p.value == "no-youtube" then 4
    else if p.value == "default" then 5
    else 6  // "unrestricted", and every id outside the list
  }

  function MoreRestrictive(a: Trace, b: Trace): Trace {
    if RestrictionRank(a.profile) <= RestrictionRank(b.profile) then a else b
  }

  function MergePerson(device: Trace, person: Option<Trace>): Trace {
    if person.None? then device
    else if !IsBase(person.value) then person.value
    else MoreRestrictive(device, person.value)
  }

  // ---- the whole store ---------------------------------------------------

  /** What the engine is given about a target. */
  function StateOf(db: Db, t: Target, base: Option<string>, date: string): TargetState {
    TargetState(base,
      RowsFor(db.schedules, t) + RowsFor(db.schedules, AllTarget),
      RowsFor(db.quotas, t),
      RowsFor(db.overrides, t),
      Get(UsageOf(db.usage, t), date))
  }

  function PersonTrace(db: Db, pid: int, c: Clock): Trace
    requires pid in db.people && ValidClock(c)
  {
    Resolve(StateOf(db, PersonTarget(pid), db.people[pid], c.date), c, Some(pid))
  }

  /** The person whose rules apply to a device, if any: a null or zero id, or an unknown person, means nobody. */
  function OwnerTrace(db: Db, owner: Option<int>, c: Clock): Option<Trace>
    requires ValidClock(c)
  {
    if owner.Some? && owner.value != 0 && owner.value in db.people
    then Some(PersonTrace(db, owner.value, c)) else None
  }

  /** The effective trace of the device at `ip`. */
  function DeviceTrace(db: Db, ip: string, c: Clock): Trace
    requires ip in db.devices && ValidClock(c)
  {
    var d := db.devices[ip];
    MergePerson(Resolve(StateOf(db, DeviceTarget(ip), d.baseProfile, c.date), c, None), OwnerTrace(db, d.personId, c))
  }

  /** The effective trace of every known device. */
  function Effective(db: Db, c: Clock): map<string, Trace>
    requires ValidClock(c)
  {
    map ip | ip in db.devices :: DeviceTrace(db, ip, c)
  }

  // ---- properties ------------------------------------------------------

  predicate AnyLive(s: TargetState, c: Clock) {
    exists o :: o in s.overrides && o.1.expiresAt > c.utc
  }

  predicate AnyFiring(s: TargetState, c: Clock)
    requires ValidClock(c)
  {
    exists w :: w in s.schedules && Fires(w.1, c)
  }

  predicate AnySpent(s: TargetState, c: Clock)
    requires ValidClock(c)
  {
    exists q :: q in s.quotas && Spent(q.1, s.minutes, c.weekday)
  }

  /** Live, and outranked by no live override. */
  predicate WinsOverrides(s: TargetState, c: Clock, o: (nat, OverrideBody)) {
    o.1.expiresAt > c.utc && forall p :: p in s.overrides && p.1.expiresAt > c.utc ==> !Outranks(p, o)
  }

  /** Firing, and with no newer firing schedule. */
  predicate WinsSchedules(s: TargetState, c: Clock, w: (nat, ScheduleBody))
    requires ValidClock(c)
  {
    Fires(w.1, c) && forall v :: v in s.schedules && Fires(v.1, c) ==> v.0 <= w.0
  }

  /** What a rule that names `own` shows: that profile, and internet-off if it names none. */
  predicate ShowsOwn(shown: Option<string>, own: Option<string>) {
    && (own.Some? && own.value != "" ==> shown == own)
    && (own == None || own == Some("") ==> shown == Some("internet-off"))
  }

  /** The rule's name, or its kind and number if it has none. */
  predicate TellsName(told: Detail, name: Option<string>, tag: Detail) {
    && (name.Some? && name.value != "" ==> told == Text(name.value))
    && (name == None || name == Some("") ==> told == tag)
  }

  /** The trace says what this override row says. */
  predicate TellsOverride(t: Trace, o: OverrideBody) {
    && ShowsOwn(t.profile, o.profile) && t.source == o.source && t.expiresAt == Some(o.expiresAt)
    && (o.note.Some? ==> t.detail == Text(o.note.value)) && (o.note.None? ==> t.detail == NoDetail)
  }

  predicate TellsSchedule(t: Trace, w: (nat, ScheduleBody)) {
    ShowsOwn(t.profile, w.1.profile) && TellsName(t.detail, w.1.name, ScheduleTag(w.0))
  }

  predicate TellsQuota(t: Trace, q: (nat, QuotaBody)) {
    ShowsOwn(t.profile, q.1.profileWhenExceeded) && TellsName(t.detail, q.1.name, QuotaTag(q.0))
  }

  /** Spent, and the first such in the table. */
  predicate WinsQuotas(s: TargetState, c: Clock, q: (nat, QuotaBody))
    requires ValidClock(c)
  {
    exists i :: 0 <= i < |s.quotas| && s.quotas[i] == q && Spent(q.1, s.minutes, c.weekday)
                && forall j :: 0 <= j < i ==> !Spent(s.quotas[j].1, s.minutes, c.weekday)
  }

  /** Precedence, stated without the engine's control flow: any live override silences everything else;
      failing that a firing schedule does; failing that a spent quota; the base profile is last.  What is shown is
      what the winning row says. */
  lemma Precedence(s: TargetState, c: Clock, person: Option<int>)
    requires ValidClock(c)
    ensures Resolve(s, c, person).personId == person
    ensures var t := Resolve(s, c, person);
      (AnyLive(s, c) ==> exists o :: o in s.overrides && WinsOverrides(s, c, o) && TellsOverride(t, o.1))
    ensures var t := Resolve(s, c, person);
      (!AnyLive(s, c) && AnyFiring(s, c) ==>
        t.source == "schedule" && t.expiresAt.None? && exists w :: w in s.schedules && WinsSchedules(s, c, w) && TellsSchedule(t, w))
    ensures var t := Resolve(s, c, person);
      (!AnyLive(s, c) && !AnyFiring(s, c) && AnySpent(s, c) ==>
        t.source == "quota" && t.expiresAt.None? && exists q :: q in s.quotas && WinsQuotas(s, c, q) && TellsQuota(t, q))
    ensures var t := Resolve(s, c, person);
      (!AnyLive(s, c) && !AnyFiring(s, c) && !AnySpent(s, c) ==>
        && t.profile == s.base && t.expiresAt.None? && t.detail == NoDetail
        && t.source == if s.base.Some? && s.base.value != "" then "base" else "no-profile")
  {
    hide Spent, Fires, Outranks;
    if AnyLive(s, c) {
      var top := TopOverride(Active(s.overrides, c.utc));
      assert WinsOverrides(s, c, top) && TellsOverride(Resolve(s, c, person), top.1);
    } else if AnyFiring(s, c) {
      var w := PickSchedule(s.schedules, c).value;
      assert WinsSchedules(s, c, w) && TellsSchedule(Resolve(s, c, person), w);
    } else if AnySpent(s, c) {
      var q := QuotaExceeded(s.quotas, s.minutes, c.weekday).value;
      assert WinsQuotas(s, c, q) && TellsQuota(Resolve(s, c, person), q);
    }
  }

  /** The sources, strongest first. */
  const SOURCES := ["manual", "family-pause", "quota", "schedule"]

  /** Of two overrides the one with the earlier source sorts first, and of two with one source the newer; a source
      outside the list comes after all of them. */
  lemma SourcesRank(a: (nat, OverrideBody), b: (nat, OverrideBody), i: nat, j: nat)
    requires i < |SOURCES| && a.1.source == SOURCES[i]
    requires j < |SOURCES| ==> b.1.source == SOURCES[j]
    requires j >= |SOURCES| ==> b.1.source !in SOURCES
    ensures i < j ==> Outranks(a, b) && !Outranks(b, a)
    ensures i == j ==> (Outranks(a, b) <==> a.0 > b.0)
  {
    assert SOURCES[0] == "manual" && SOURCES[1] == "family-pause" && SOURCES[2] == "quota" && SOURCES[3] == "schedule";
    assert "manual"[0] != "family-pause"[0] && "quota"[0] != "schedule"[0] && "manual"[0] != "quota"[0] && "manual"[0] != "schedule"[0];
    assert "family-pause"[0] != "quota"[0] && "family-pause"[0] != "schedule"[0];
  }

  /** A schedule fires exactly while it is enabled and the clock shows a minute of an opening that starts on one of its
      days. */
  lemma FiresIff(s: ScheduleBody, days: set<int>, c: Clock)
    requires ValidClock(c) && 0 <= s.startMin <= 1440 && 0 <= s.endMin <= 1440 && s.weekdayMask == Schedules.MaskFrom(days, 0)
    ensures Fires(s, c) <==>
      s.enabled && exists d :: 0 <= d < 7 && d in days && Schedules.InOpening(c.weekday * 1440 + c.minute, d, s.startMin, s.endMin)
  {
    hide Schedules.InOpening, Schedules.WindowActive;
    var t := c.weekday * 1440 + c.minute;
    assert (t / 1440) % 7 == c.weekday && t % 1440 == c.minute;
    Schedules.WindowIsUnrolledTimeline(t, s.weekdayMask, s.startMin, s.endMin);
    forall d | 0 <= d < 7 ensures Schedules.WeekdayActive(s.weekdayMask, d) <==> d in days {
      Schedules.MaskIsActiveOnItsDays(days, d);
    }
  }

  /** A quota is spent exactly on its days, while enabled, once the minutes reach it. */
  lemma SpentIff(q: QuotaBody, days: set<int>, minutes: int, weekday: nat)
    requires weekday < 7 && q.weekdayMask == Schedules.MaskFrom(days, 0)
    ensures Spent(q, minutes, weekday) <==> q.enabled && weekday in days && minutes >= q.minutesMax
  {
    Schedules.MaskIsActiveOnItsDays(days, weekday);
  }

  /** What counts for a target: its own rows, the schedules about "all", and its minutes of the day. */
  lemma StateIs(db: Db, t: Target, base: Option<string>, date: string)
    ensures
      var s := StateOf(db, t, base, date);
      && s.base == base
      && (forall id: nat, body :: (id, body) in s.overrides <==> Row(id, t, body) in db.overrides)
      && (forall id: nat, body :: (id, body) in s.quotas <==> Row(id, t, body) in db.quotas)
      && (forall id: nat, body :: (id, body) in s.schedules <==> Row(id, t, body) in db.schedules || Row(id, AllTarget, body) in db.schedules)
      && s.minutes == if (t, date) in db.usage then db.usage[(t, date)] else 0
  {
    hide RowsFor;
    forall id: nat, body ensures (id, body) in RowsFor(db.overrides, t) <==> Row(id, t, body) in db.overrides {
      RowsForMembers(db.overrides, t, (id, body));
    }
    forall id: nat, body ensures (id, body) in RowsFor(db.quotas, t) <==> Row(id, t, body) in db.quotas {
      RowsForMembers(db.quotas, t, (id, body));
    }
    forall id: nat, body, u ensures (id, body) in RowsFor(db.schedules, u) <==> Row(id, u, body) in db.schedules {
      RowsForMembers(db.schedules, u, (id, body));
    }
    UsageOfKey(db.usage, t, date);
  }

  /** Whose rules are merged in: the stored person's, unless the id is missing, zero or unknown. */
  lemma OwnerIs(db: Db, owner: Option<int>, c: Clock)
    requires ValidClock(c)
    ensures OwnerTrace(db, owner, c).Some? <==> owner.Some? && owner.value != 0 && owner.value in db.people
    ensures OwnerTrace(db, owner, c).Some? ==>
      OwnerTrace(db, owner, c).value ==
        Resolve(StateOf(db, PersonTarget(owner.value), db.people[owner.value], c.date), c, owner)
  {
  }

  /** A person's rule can only tighten what the device gets: the effective rank is never weaker than the
      person's own, and a person's pause, schedule or quota is what the device gets, even over a pause of its own. */
  lemma PersonIsNeverWeakened(db: Db, ip: string, c: Clock)
    requires ip in db.devices && ValidClock(c)
    ensures
      var owner := OwnerTrace(db, db.devices[ip].personId, c);
      owner.Some? ==>
        && RestrictionRank(DeviceTrace(db, ip, c).profile) <= RestrictionRank(owner.value.profile)
        && (!IsBase(owner.value) ==> DeviceTrace(db, ip, c) == owner.value)
  {
  }

  /** What the device's own rules say, before its owner's are merged in. */
  function OwnTrace(db: Db, ip: string, c: Clock): Trace
    requires ip in db.devices && ValidClock(c)
  {
    Resolve(StateOf(db, DeviceTarget(ip), db.devices[ip].baseProfile, c.date), c, None)
  }

  /** The more restrictive of the two wins only sometimes: the device gets no less than its own rules say if and
      only if nobody owns it, the owner is on the base profile, or the owner's rule is no weaker. */
  lemma DeviceIsNotWeakenedIff(db: Db, ip: string, c: Clock)
    requires ip in db.devices && ValidClock(c)
    ensures
      var owner, own := OwnerTrace(db, db.devices[ip].personId, c), OwnTrace(db, ip, c);
      RestrictionRank(DeviceTrace(db, ip, c).profile) <= RestrictionRank(own.profile) <==>
        owner.None? || IsBase(owner.value) || RestrictionRank(owner.value.profile) <= RestrictionRank(own.profile)
  {
  }

  predicate Listed(p: string) {
    p in {"internet-off", "kids", "no-streaming", "no-gaming", "no-youtube", "default", "unrestricted"}
  }

  /** The profiles, most restrictive first. */
  const RESTRICTION_ORDER := ["internet-off", "kids", "no-streaming", "no-gaming", "no-youtube", "default", "unrestricted"]

  /** Between a device and a person on their base profiles the merge shows the earlier of the two in that order, and
      any of them before no profile at all. */
  lemma MergeShowsTheEarlier(device: Trace, person: Trace, i: nat, j: nat)
    requires person.source == "base" || person.source == "no-profile"
    requires i < 7 && device.profile == Some(RESTRICTION_ORDER[i])
    requires j < 7 ==> person.profile == Some(RESTRICTION_ORDER[j])
    requires j >= 7 ==> person.profile == None
    ensures MergePerson(device, Some(person)) == if i <= j then device else person
    ensures MergePerson(person, Some(device.(source := "base"))) == if j <= i then person else device.(source := "base")
  {
    RanksAre(i);
    if j < 7 { RanksAre(j); }
  }

  lemma RanksAre(i: nat)
    requires i < 7
    ensures RestrictionRank(Some(RESTRICTION_ORDER[i])) == i
  {
    var p := RESTRICTION_ORDER[i];
    assert |"internet-off"| == 12 == |"no-streaming"| == |"unrestricted"| && |"kids"| == 4 && |"no-gaming"| == 9;
    assert |"no-youtube"| == 10 && |"default"| == 7;
    assert "internet-off"[0] != "no-streaming"[0] && "unrestricted"[0] != "internet-off"[0] && "unrestricted"[0] != "no-streaming"[0];
  }

  /** Profiles outside the list do not rank after unrestricted but equal to it, so between the two the merge
      keeps the device's own, whichever of them that is. */
  lemma UnlistedRanksAsUnrestricted(p: string, device: Trace, person: Trace)
    requires !Listed(p)
    ensures RestrictionRank(Some(p)) == RestrictionRank(Some("unrestricted")) < RestrictionRank(None)
    ensures IsBase(person) && {device.profile, person.profile} == {Some(p), Some("unrestricted")} ==>
      MergePerson(device, Some(person)) == device
  {
    assert {device.profile, person.profile} == {Some(p), Some("unrestricted")} ==>
      device.profile in {Some(p), Some("unrestricted")} && person.profile in {Some(p), Some("unrestricted")};
  }

  /** The module's own priority list puts quotas above schedules; the code checks live schedules first.
      A spent quota shows exactly when no live override and no firing schedule is there. */
  lemma QuotaShowsExactlyWhenNothingElseFires(s: TargetState, c: Clock, person: Option<int>)
    requires ValidClock(c)
    requires forall o :: o in s.overrides ==> o.1.source != "quota"
    requires AnySpent(s, c)
    ensures Resolve(s, c, person).source == "quota" <==> !AnyLive(s, c) && !AnyFiring(s, c)
  {
  }

  /** Two stores that agree on everything keyed to people and to "all". */
  ghost predicate SharedAgree(a: Db, b: Db) {
    && a.people == b.people
    && forall t: Target :: !t.DeviceTarget? ==> KeyedAgree(a, t, b, t)
  }

  /** What `a` keeps about `s` is what `b` keeps about `t`. */
  predicate KeyedAgree(a: Db, s: Target, b: Db, t: Target) {
    && RowsFor(a.overrides, s) == RowsFor(b.overrides, t)
    && RowsFor(a.schedules, s) == RowsFor(b.schedules, t)
    && RowsFor(a.quotas, s) == RowsFor(b.quotas, t)
    && UsageOf(a.usage, s) == UsageOf(b.usage, t)
    && UsageOf(a.appUsage, s) == UsageOf(b.appUsage, t)
  }

  /** Nothing is keyed to the address. */
  predicate NothingKeyed(db: Db, ip: string) {
    var t := DeviceTarget(ip);
    && RowsFor(db.overrides, t) == [] && RowsFor(db.schedules, t) == [] && RowsFor(db.quotas, t) == []
    && UsageOf(db.usage, t) == map[] && UsageOf(db.appUsage, t) == map[]
  }

  /** The device at `p` in `a` is configured like the device at `q` in `b`. */
  predicate SameDevice(a: Db, p: string, b: Db, q: string) {
    && p in a.devices && q in b.devices
    && a.devices[p].baseProfile == b.devices[q].baseProfile
    && a.devices[p].personId == b.devices[q].personId
    && KeyedAgree(a, DeviceTarget(p), b, DeviceTarget(q))
  }

  /** Devices configured alike under the same shared rules have the same trace at every clock. */
  lemma SameDeviceSameTrace(a: Db, p: string, b: Db, q: string, c: Clock)
    requires SharedAgree(a, b) && SameDevice(a, p, b, q) && ValidClock(c)
    ensures DeviceTrace(a, p, c) == DeviceTrace(b, q, c)
  {
    assert KeyedAgree(a, AllTarget, b, AllTarget);
    var owner := a.devices[p].personId;
    if owner.Some? {
      assert KeyedAgree(a, PersonTarget(owner.value), b, PersonTarget(owner.value));
    }
  }
}
