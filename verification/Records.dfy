/** The values the dashboard stores: table rows, the whole database, and the clock a tick reads. */
module Records {

  datatype Option<+T> = None | Some(value: T)

  /** Who an override, schedule, quota or usage row is about.  The source keys these by a kind and a
      text id; a person's id text is determined by the number, so the number stands for it. */
  datatype Target = DeviceTarget(ip: string) | PersonTarget(pid: int) | AllTarget

  /** One row of device_overrides, schedules or quotas: its id, its target and everything else. */
  datatype Row<+B> = Row(id: nat, target: Target, body: B)

  datatype OverrideBody = OverrideBody(
    profile: Option<string>, source: string, startsAt: int, expiresAt: int,
    createdBy: Option<string>, note: Option<string>)

  datatype ScheduleBody = ScheduleBody(
    name: Option<string>, weekdayMask: int, startMin: int, endMin: int,
    profile: Option<string>, enabled: bool)

  datatype QuotaBody = QuotaBody(
    name: Option<string>, weekdayMask: int, minutesMax: int,
    profileWhenExceeded: Option<string>, enabled: bool)

  datatype Device = Device(
    name: Option<string>, notes: Option<string>, favourite: bool, favOrder: int,
    baseProfile: Option<string>, personId: Option<int>, mac: Option<string>,
    vendor: Option<string>, hint: Option<string>, inferredAt: Option<int>,
    firstSeen: Option<int>, lastSeen: Option<int>)

  /** A row created for an address nobody has configured yet. */
  function BlankDevice(now: int): Device {
    Device(None, None, false, 0, None, None, None, None, None, None, Some(now), Some(now))
  }

  type Usage<B(==)> = map<(Target, B), int>

  /** The tables a tick reads and writes.  People map to their base profile; override, schedule and
      quota rows are kept in id order; usage is keyed by target and day (or day and app). */
  datatype Db = Db(
    devices: map<string, Device>,
    people: map<int, Option<string>>,
    overrides: seq<Row<OverrideBody>>,
    schedules: seq<Row<ScheduleBody>>,
    quotas: seq<Row<QuotaBody>>,
    usage: Usage<string>,
    appUsage: Usage<(string, string)>,
    nextOverride: nat)

  /** What a tick reads from the wall clock: UTC seconds and the local weekday, minute and date. */
  datatype Clock = Clock(utc: int, weekday: int, minute: int, date: string)

  predicate ValidClock(c: Clock) {
    0 <= c.weekday < 7 && 0 <= c.minute < 1440
  }
}
