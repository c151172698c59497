/** Background ticks and ticks kicked by requests, interleaved at every await around one shared map. */
module Interleaving {
  import opened Records
  import opened Resolution
  import opened Push

  type Eff = map<string, Trace>

  /** A tick has taken its snapshot, or has also read the map, or is over. */
  datatype Tick = Resolved(eff: Eff) | Fetched(eff: Eff, network: GroupMap) | Over

  datatype World = World(server: GroupMap, ticks: map<nat, Tick>)

  /** What can happen next: a tick starts with the state it resolved, reads, writes, or fails at a call. */
  datatype Event = Start(id: nat, eff: Eff) | Read(id: nat) | Write(id: nat) | Fail(id: nat)

  function Stage(w: World, id: nat): Tick {
    if id in w.ticks then w.ticks[id] else Over
  }

  /** One event; an event that does not fit the tick's stage is no event. */
  function Next(w: World, e: Event): World {
    match e
    case Start(id, eff) =>
      if id in w.ticks then w else w.(ticks := w.ticks[id := Resolved(eff)])
    case Read(id) =>
      (match Stage(w, id)
       case Resolved(eff) =>
         if Pushed(w.server, eff) == w.server then w.(ticks := w.ticks[id := Over])  // nothing to write
         else w.(ticks := w.ticks[id := Fetched(eff, w.server)])
       case _ => w)
    case Write(id) =>
      (match Stage(w, id)
       case Fetched(eff, network) => World(Pushed(network, eff), w.ticks[id := Over])
       case _ => w)
    case Fail(id) =>
      if id in w.ticks then w.(ticks := w.ticks[id := Over]) else w
  }

  function Run(w: World, events: seq<Event>): World
    decreases |events|
  {
    if events == [] then w else Run(Next(w, events[0]), events[1..])
  }

  /** A tick by itself is one push; one that fails at either call leaves the map alone, and is over whatever is tried on
      its behalf afterwards. */
  lemma LoneTickIsAPush(w: World, id: nat, eff: Eff)
    requires id !in w.ticks
    ensures
      var started := Next(w, Start(id, eff));
      var read := Next(started, Read(id));
      && Next(read, Write(id)) == World(Pushed(w.server, eff), w.ticks[id := Over])
      && Next(started, Fail(id)) == World(w.server, w.ticks[id := Over]) == Next(read, Fail(id))
      && Next(started, Write(id)) == started
    ensures
      var over := World(w.server, w.ticks[id := Over]);
      Next(over, Start(id, eff)) == Next(over, Read(id)) == Next(over, Write(id)) == Next(over, Fail(id)) == over
  {
    hide Pushed;
    var started := Next(w, Start(id, eff));
    var read := Next(started, Read(id));
    assert started.ticks == w.ticks[id := Resolved(eff)];
    assert w.ticks[id := Resolved(eff)][id := Over] == w.ticks[id := Over];
    assert w.ticks[id := Resolved(eff)][id := Fetched(eff, w.server)] == w.ticks[id := Fetched(eff, w.server)];
    assert w.ticks[id := Fetched(eff, w.server)][id := Over] == w.ticks[id := Over];
    assert w.ticks[id := Over][id := Over] == w.ticks[id := Over];
  }

  /** Every tick still in flight, and every tick yet to start, works from `eff`. */
  ghost predicate AllFresh(w: World, events: seq<Event>, eff: Eff) {
    && (forall id :: id in w.ticks && !w.ticks[id].Over? ==> w.ticks[id].eff == eff)
    && (forall i :: 0 <= i < |events| && events[i].Start? ==> events[i].eff == eff)
  }

  /** Once every stale tick is over, a right map stays right through any interleaving of fresh ticks. */
  lemma {:induction false} FreshTicksKeepItRight(w: World, events: seq<Event>, eff: Eff)
    requires AllFresh(w, events, eff) && RightManaged(w.server, eff)
    ensures RightManaged(Run(w, events).server, eff)
    decreases |events|
  {
    if events != [] {
      FreshTicksKeepItRight(Next(w, events[0]), events[1..], eff);
    }
  }

  /** Tick `id` reads at event `i` and completes at event `j`, with anything else in between. */
  predicate Completes(events: seq<Event>, id: nat, i: int, j: int)
    requires 0 <= i < j < |events|
  {
    && events[i] == Read(id) && events[j] == Write(id)
    && (forall k :: 0 <= k < i ==> events[k].id != id)
    && (forall k :: i < k < j ==> events[k].id != id)
  }

  /** With the stale ticks over and tick `id` just past its snapshot, once `id` has read and completed the
      managed part of the map is right, and it is still right after everything else in the interleaving. */
  lemma {:induction false} FreshTickConverges(w: World, events: seq<Event>, eff: Eff, id: nat, i: nat, j: nat)
    requires AllFresh(w, events, eff)
    requires i < j < |events| && Completes(events, id, i, j)
    requires Stage(w, id) == Resolved(eff)
    ensures RightManaged(Run(w, events).server, eff)
    decreases |events|
  {
    var w' := Next(w, events[0]);
    var rest := events[1..];
    assert forall k :: 0 <= k < |rest| ==> rest[k] == events[k + 1];
    if i > 0 {
      assert events[0].id != id;
      FreshTickConverges(w', rest, eff, id, i - 1, j - 1);
    } else if Pushed(w.server, eff) == w.server {
      PushIsExact(w.server, eff, w.server);
      FreshTicksKeepItRight(w', rest, eff);
    } else {
      FetchedTickConverges(w', rest, eff, id, j - 1);
    }
  }

  lemma {:induction false} FetchedTickConverges(w: World, events: seq<Event>, eff: Eff, id: nat, j: nat)
    requires AllFresh(w, events, eff)
    requires j < |events| && events[j] == Write(id) && forall k :: 0 <= k < j ==> events[k].id != id
    requires Stage(w, id).Fetched?
    ensures RightManaged(Run(w, events).server, eff)
    decreases |events|
  {
    var w', rest := Next(w, events[0]), events[1..];
    assert forall k :: 0 <= k < |rest| ==> rest[k] == events[k + 1];
    if j == 0 {
      var network := Stage(w, id).network;
      assert Stage(w, id).eff == eff;
      PushIsExact(network, eff, Pushed(network, eff));
      FreshTicksKeepItRight(w', rest, eff);
    } else {
      assert events[0].id != id;
      FetchedTickConverges(w', rest, eff, id, j - 1);
    }
  }

  // ---- hand-made entries -------------------------------------------------------

  /** No tick, in flight or to come, sends the address anywhere. */
  ghost predicate NobodyWants(w: World, events: seq<Event>, ip: string) {
    && (forall id :: id in w.ticks && !w.ticks[id].Over? ==> Wants(w.ticks[id].eff, ip) == None)
    && (forall i :: 0 <= i < |events| && events[i].Start? ==> Wants(events[i].eff, ip) == None)
  }

  function Wants(eff: Eff, ip: string): Option<string> {
    if ip in eff then DesiredGroup(eff[ip]) else None
  }

  /** The server and every copy of the map a tick has fetched carry the entry. */
  ghost predicate EntryEverywhere(w: World, ip: string, group: string) {
    && Lookup(w.server, ip) == Some(group)
    && (forall id :: id in w.ticks && w.ticks[id].Fetched? ==> Lookup(w.ticks[id].network, ip) == Some(group))
  }

  /** Stale or fresh, no interleaving of ticks loses a hand-made entry at an address no tick wants. */
  lemma {:induction false} HandMadeEntriesSurvive(w: World, events: seq<Event>, ip: string, group: string)
    requires !Managed(group) && EntryEverywhere(w, ip, group) && NobodyWants(w, events, ip)
    ensures EntryEverywhere(Run(w, events), ip, group)
    decreases |events|
  {
    if events != [] {
      var w', e, rest := Next(w, events[0]), events[0], events[1..];
      assert forall k :: 0 <= k < |rest| ==> rest[k] == events[k + 1];
      assert e.Start? ==> Wants(e.eff, ip) == None;
      if e.Write? && Stage(w, e.id).Fetched? {
        assert e.id in w.ticks;
        LookupPushed(w.ticks[e.id].network, w.ticks[e.id].eff, ip);
      }
      forall id | id in w'.ticks && !w'.ticks[id].Over?
        ensures Wants(w'.ticks[id].eff, ip) == None
        ensures w'.ticks[id].Fetched? ==> Lookup(w'.ticks[id].network, ip) == Some(group)
      {
        assert id != e.id ==> id in w.ticks && w'.ticks[id] == w.ticks[id];
      }
      HandMadeEntriesSurvive(w', rest, ip, group);
    }
  }

  // ---- why staleness matters ------------------------------------------------------

  /** The managed group the map has for an address. */
  function ManagedEntry(m: GroupMap, ip: string): Option<string> {
    if ip in m && Managed(m[ip]) then Some(m[ip]) else None
  }

  lemma RightAsWants(m: GroupMap, eff: Eff)
    ensures RightManaged(m, eff) <==> forall ip :: ManagedEntry(m, ip) == Wants(eff, ip)
  {
    if forall ip :: ManagedEntry(m, ip) == Wants(eff, ip) {
      forall ip ensures ip in m && Managed(m[ip]) ==> Wants(eff, ip) == Some(m[ip])
        ensures Wants(eff, ip).Some? ==> Lookup(m, ip) == Wants(eff, ip)
      {
        assert ManagedEntry(m, ip) == Wants(eff, ip);
      }
    }
  }

  /** A map that is right for one state is right for another if and only if both send every address to the
      same place. */
  lemma RightForBothIff(m: GroupMap, a: Eff, b: Eff)
    requires RightManaged(m, a)
    ensures RightManaged(m, b) <==> forall ip :: Wants(a, ip) == Wants(b, ip)
  {
    hide RightManaged, Wants, ManagedEntry;
    RightAsWants(m, a);
    RightAsWants(m, b);
  }

  /** The state an event makes the map right for: the one a tick writes, or finds already there. */
  function Settles(w: World, e: Event): Option<Eff> {
    var t := Stage(w, e.id);
    if e.Write? && t.Fetched? then Some(t.eff)
    else if e.Read? && t.Resolved? && Pushed(w.server, t.eff) == w.server then Some(t.eff)
    else None
  }

  /** The state of the tick that last wrote or last confirmed the map. */
  function LastSettled(w: World, events: seq<Event>): Option<Eff>
    decreases |events|
  {
    if events == [] then None
    else
      var later := LastSettled(Next(w, events[0]), events[1..]);
      if later.Some? then later else Settles(w, events[0])
  }

  /** After any interleaving, stale ticks and failures included, the managed part of the map is the image of the
      tick that last wrote or confirmed it; with no such tick the map is untouched. */
  lemma {:induction false} MapIsLastSettled(w: World, events: seq<Event>)
    ensures
      var last := LastSettled(w, events);
      && (last.Some? ==> RightManaged(Run(w, events).server, last.value))
      && (last.None? ==> Run(w, events).server == w.server)
    decreases |events|
  {
    if events != [] {
      hide RightManaged, Pushed;
      MapIsLastSettled(Next(w, events[0]), events[1..]);
    }
  }

  /** So the map ends right for a state if and only if that tick sends every address where the state does. */
  lemma RightIffLastAgrees(w: World, events: seq<Event>, eff: Eff)
    requires LastSettled(w, events).Some?
    ensures RightManaged(Run(w, events).server, eff) <==>
      forall ip :: Wants(LastSettled(w, events).value, ip) == Wants(eff, ip)
  {
    hide RightManaged, LastSettled, Run;
    MapIsLastSettled(w, events);
    RightForBothIff(Run(w, events).server, LastSettled(w, events).value, eff);
  }

  /** The two ticks of the race: the older one reads, the newer one reads and writes, the older one writes. */
  function Race(stale: Eff, newer: Eff): seq<Event> {
    [Start(0, stale), Read(0), Start(1, newer), Read(1), Write(1), Write(0)]
  }

  lemma RaceEndsWith(server: GroupMap, stale: Eff, newer: Eff)
    ensures Run(World(server, map[]), Race(stale, newer)).server ==
      if Pushed(server, stale) == server then Pushed(server, newer) else Pushed(server, stale)
  {
    hide Pushed;
    var events := Race(stale, newer);
    var w0 := World(server, map[]);
    var w1 := Next(w0, events[0]);
    var w2 := Next(w1, events[1]);
    var w3 := Next(w2, events[2]);
    var w4 := Next(w3, events[3]);
    var w5 := Next(w4, events[4]);
    var w6 := Next(w5, events[5]);
    assert events[1..] == [Read(0), Start(1, newer), Read(1), Write(1), Write(0)];
    assert events[1..][1..] == [Start(1, newer), Read(1), Write(1), Write(0)];
    assert events[1..][1..][1..] == [Read(1), Write(1), Write(0)];
    assert Run(w6, []) == w6 && Run(w5, [Write(0)]) == w6;
    assert [Write(1), Write(0)][1..] == [Write(0)];
    assert Run(w4, [Write(1), Write(0)]) == w6;
    assert [Read(1), Write(1), Write(0)][1..] == [Write(1), Write(0)];
    assert Run(w3, events[1..][1..][1..]) == w6;
    assert Run(w2, events[1..][1..]) == w6;
    assert Run(w1, events[1..]) == w6;
  }

  /** The map is not single-writer: a tick that resolved an older state and fetched the map early can undo a
      newer push.  The race is harmless if and only if the older tick has nothing to write, or the two states
      send every address to the same place; it does not matter which of them asks for a group. */
  lemma StaleTickIsHarmlessIff(server: GroupMap, stale: Eff, newer: Eff)
    ensures RightManaged(Run(World(server, map[]), Race(stale, newer)).server, newer) <==>
      Pushed(server, stale) == server || forall ip :: Wants(stale, ip) == Wants(newer, ip)
  {
    RaceEndsWith(server, stale, newer);
    PushIsExact(server, newer, Pushed(server, newer));
    PushIsExact(server, stale, Pushed(server, stale));
    RightForBothIff(Pushed(server, stale), stale, newer);
  }
}
