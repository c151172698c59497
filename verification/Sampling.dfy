/** The activity sampler: five minutes to every active device, and once to each of their owners. */
module Sampling {
  import opened Records
  import opened Tables
  import opened StoreSpec
  import opened DeviceStore

  const SAMPLE_INTERVAL_MINUTES := 5

  /** The clients the DNS server saw with at least one hit, in its order. */
  function ActiveIps(top: seq<(string, int)>): seq<string> {
    if top == [] then []
    else ActiveIps(top[..|top| - 1]) + (if top[|top| - 1].0 != "" && top[|top| - 1].1 > 0 then [top[|top| - 1].0] else [])
  }

  function DeviceCredits(usage: Usage<string>, active: seq<string>, date: string): Usage<string> {
    if active == [] then usage
    else Credited(DeviceCredits(usage, active[..|active| - 1], date), DeviceTarget(active[|active| - 1]), date, SAMPLE_INTERVAL_MINUTES)
  }

  /** The people who own an active device; a null or zero owner is nobody. */
  function ActivePeople(db: Db, active: seq<string>): set<int> {
    set ip | ip in active && ip in db.devices && db.devices[ip].personId.Some? && db.devices[ip].personId.value != 0
      :: db.devices[ip].personId.value
  }

  function PersonCredits(usage: Usage<string>, people: set<int>, date: string): Usage<string> {
    map k | k in usage.Keys + (set p | p in people :: (PersonTarget(p), date)) ::
      Get(usage, k) + if k.0.PersonTarget? && k.0.pid in people && k.1 == date then SAMPLE_INTERVAL_MINUTES else 0
  }

  /** The tables after one sampling pass. */
  function Sampled(db: Db, active: seq<string>, date: string): Db {
    db.(usage := PersonCredits(DeviceCredits(db.usage, active, date), ActivePeople(db, active), date))
  }

  datatype SampleStatus = Failed | Idle | Sampled_(active: nat, activePersons: nat)

  method Tick(store: Store, top: seq<(string, int)>, date: string, readFails: bool) returns (status: SampleStatus)
    modifies store
    ensures readFails ==> status.Failed? && store.State() == old(store.State())
    ensures !readFails ==> store.State() == Sampled(old(store.State()), ActiveIps(top), date)
    ensures !readFails && ActiveIps(top) != [] ==>
      status == Sampled_(|ActiveIps(top)|, |ActivePeople(old(store.State()), ActiveIps(top))|)
  {
    if readFails {
      return Failed;
    }
    ghost var db := store.State();
    var active := ActiveClients(top);
    if active == [] {
      return Idle;
    }
    var credits := CreditDevices(store, active, date);
    CreditPeople(store, credits, date);
    status := Sampled_(|active|, |credits.Keys|);
  }

  method ActiveClients(top: seq<(string, int)>) returns (active: seq<string>)
    ensures active == ActiveIps(top)
  {
    active := [];
    for i := 0 to |top|
      invariant active == ActiveIps(top[..i])
    {
      assert top[..i + 1][..i] == top[..i];
      if top[i].0 != "" && top[i].1 > 0 {
        active := active + [top[i].0];
      }
    }
    assert top[..|top|] == top;
  }

  /** Credits every active device and notes each owner once. */
  method CreditDevices(store: Store, active: seq<string>, date: string) returns (credits: map<int, int>)
    modifies store`usage
    ensures store.State() == old(store.State()).(usage := DeviceCredits(old(store.usage), active, date))
    ensures credits.Keys == ActivePeople(old(store.State()), active)
    ensures forall p :: p in credits ==> credits[p] == SAMPLE_INTERVAL_MINUTES
  {
    ghost var db := store.State();
    credits := map[];
    for i := 0 to |active|
      invariant store.usage == DeviceCredits(db.usage, active[..i], date)
      invariant credits.Keys == ActivePeople(db, active[..i])
      invariant forall p :: p in credits ==> credits[p] == SAMPLE_INTERVAL_MINUTES
    {
      var ip := active[i];
      assert active[..i + 1] == active[..i] + [ip];
      assert active[..i + 1][..i] == active[..i];
      store.AddActiveMinutes(DeviceTarget(ip), date, SAMPLE_INTERVAL_MINUTES);
      if ip in store.devices && store.devices[ip].personId.Some? && store.devices[ip].personId.value != 0 {
        credits := credits[store.devices[ip].personId.value := SAMPLE_INTERVAL_MINUTES];
      }
    }
    assert active[..|active|] == active;
  }

  method CreditPeople(store: Store, credits: map<int, int>, date: string)
    requires forall p :: p in credits ==> credits[p] == SAMPLE_INTERVAL_MINUTES
    modifies store
    ensures store.State() == old(store.State()).(usage := PersonCredits(old(store.usage), credits.Keys, date))
  {
    ghost var db := store.State();
    var todo := credits.Keys;
    ghost var done: set<int> := {};
    assert PersonCredits(db.usage, {}, date) == db.usage;
    while todo != {}
      invariant todo !! done && todo + done == credits.Keys
      invariant store.State() == db.(usage := PersonCredits(db.usage, done, date))
      decreases todo
    {
      NonEmptyInts(todo);
      var p :| p in todo;
      store.AddActiveMinutes(PersonTarget(p), date, credits[p]);
      OneMorePerson(db.usage, done, p, date);
      todo, done := todo - {p}, done + {p};
    }
    assert done == credits.Keys;
  }

  lemma OneMorePerson(usage: Usage<string>, people: set<int>, p: int, date: string)
    requires p !in people
    ensures PersonCredits(usage, people + {p}, date) ==
      Credited(PersonCredits(usage, people, date), PersonTarget(p), date, SAMPLE_INTERVAL_MINUTES)
  {
  }
}
