/** Writing the resolved state into Technitium's networkGroupMap as a minimal diff. */
module Push {
  import opened Records
  import opened Resolution

  /** The profiles the dashboard manages.  Each one's group carries the profile's own id as its name. */
  const PROFILES := {"unrestricted", "default", "kids", "no-youtube", "no-streaming", "no-gaming", "internet-off"}

  const CATCH_ALL := "0.0.0.0/0"
  const CATCH_ALL_V6 := "[::]/0"

  predicate Managed(group: string) {
    group in PROFILES
  }

  /** The group a trace asks for; none for no profile and for an unknown one. */
  function DesiredGroup(t: Trace): Option<string> {
    if t.profile.Some? && t.profile.value in PROFILES then t.profile else None
  }

  /** Every profile the restriction order knows has a group, and there are no others. */
  lemma ListedAreManaged(p: string)
    ensures Listed(p) <==> Managed(p)
    ensures Listed(p) <==> p in RESTRICTION_ORDER
  {
    assert RESTRICTION_ORDER[0] == "internet-off" && RESTRICTION_ORDER[1] == "kids" && RESTRICTION_ORDER[2] == "no-streaming";
    assert RESTRICTION_ORDER[3] == "no-gaming" && RESTRICTION_ORDER[4] == "no-youtube" && RESTRICTION_ORDER[5] == "default";
    assert RESTRICTION_ORDER[6] == "unrestricted";
  }

  type GroupMap = map<string, string>

  function Lookup(m: GroupMap, ip: string): Option<string> {
    if ip in m then Some(m[ip]) else None
  }

  /** What the map should say about one address. */
  function PushedAt(m: GroupMap, eff: map<string, Trace>, ip: string): Option<string> {
    if ip in eff && DesiredGroup(eff[ip]).Some? then DesiredGroup(eff[ip])
    else if ip in m && !Managed(m[ip]) then Some(m[ip])
    else None
  }

  function Pushed(m: GroupMap, eff: map<string, Trace>): GroupMap {
    map ip | ip in m.Keys + eff.Keys && PushedAt(m, eff, ip).Some? :: PushedAt(m, eff, ip).value
  }

  function Differences(a: GroupMap, b: GroupMap): set<string> {
    set ip | ip in a.Keys + b.Keys && Lookup(a, ip) != Lookup(b, ip)
  }

  lemma LookupPushed(m: GroupMap, eff: map<string, Trace>, ip: string)
    ensures Lookup(Pushed(m, eff), ip) == PushedAt(m, eff, ip)
  {
  }

  /** The managed part of the map is exactly the image of the resolved state. */
  predicate RightManaged(m: GroupMap, eff: map<string, Trace>) {
    && (forall ip :: ip in m && Managed(m[ip]) ==> ip in eff && DesiredGroup(eff[ip]) == Some(m[ip]))
    && (forall ip :: ip in eff && DesiredGroup(eff[ip]).Some? ==> Lookup(m, ip) == DesiredGroup(eff[ip]))
  }

  /** A hand-made entry at an address nobody is sent to survives. */
  predicate KeepsUnmanaged(m: GroupMap, n: GroupMap, eff: map<string, Trace>) {
    forall ip :: !(ip in eff && DesiredGroup(eff[ip]).Some?) && ip in m && !Managed(m[ip]) ==> Lookup(n, ip) == Some(m[ip])
  }

  /** The pushed map is the one map with the right managed part and the hand-made entries, no more and no less. */
  lemma PushIsExact(m: GroupMap, eff: map<string, Trace>, n: GroupMap)
    ensures n == Pushed(m, eff) <==>
      && RightManaged(n, eff)
      && KeepsUnmanaged(m, n, eff)
      && (forall ip :: ip in n && !Managed(n[ip]) ==> Lookup(m, ip) == Some(n[ip]))
  {
    forall ip ensures Lookup(Pushed(m, eff), ip) == PushedAt(m, eff, ip) { LookupPushed(m, eff, ip); }
    if RightManaged(n, eff) && KeepsUnmanaged(m, n, eff) && forall ip :: ip in n && !Managed(n[ip]) ==> Lookup(m, ip) == Some(n[ip]) {
      forall ip ensures Lookup(n, ip) == PushedAt(m, eff, ip) {
        if ip in n && Managed(n[ip]) { assert ip in eff; }
      }
      LookupsDecide(n, Pushed(m, eff));
    }
  }

  lemma LookupsDecide(a: GroupMap, b: GroupMap)
    requires forall ip :: Lookup(a, ip) == Lookup(b, ip)
    ensures a == b
  {
    forall ip ensures ip in a <==> ip in b {
      assert Lookup(a, ip) == Lookup(b, ip);
    }
    forall ip | ip in a ensures a[ip] == b[ip] {
      assert Lookup(a, ip) == Lookup(b, ip);
    }
  }

  /** Pushing the same state again changes nothing; pushing another state forgets the first. */
  lemma PushForgetsEarlierPush(m: GroupMap, stale: map<string, Trace>, eff: map<string, Trace>)
    ensures Pushed(Pushed(m, eff), eff) == Pushed(m, eff)
    ensures RightManaged(Pushed(Pushed(m, stale), eff), eff)
  {
    forall ip ensures Lookup(Pushed(Pushed(m, eff), eff), ip) == Lookup(Pushed(m, eff), ip) {
      LookupPushed(Pushed(m, eff), eff, ip);
      LookupPushed(m, eff, ip);
    }
    LookupsDecide(Pushed(Pushed(m, eff), eff), Pushed(m, eff));
    PushIsExact(Pushed(m, stale), eff, Pushed(Pushed(m, stale), eff));
  }

  // ---- the catch-all --------------------------------------------------------

  /** Start-up puts the two catch-all entries back if they are absent. */
  function WithCatchAlls(m: GroupMap): GroupMap {
    var v4 := if CATCH_ALL in m then m else m[CATCH_ALL := "default"];
    if CATCH_ALL_V6 in v4 then v4 else v4[CATCH_ALL_V6 := "default"]
  }

  /** They then say "default", and no other entry changes. */
  lemma CatchAllsAre(m: GroupMap, ip: string)
    ensures Lookup(WithCatchAlls(m), ip) == if ip in {"0.0.0.0/0", "[::]/0"} && ip !in m then Some("default") else Lookup(m, ip)
  {
    assert CATCH_ALL[0] != CATCH_ALL_V6[0];
  }

  /** Of the catch-all entries start-up makes sure of, a push keeps exactly those that are hand-made, or that
      a stored device row with that very address asks for. */
  lemma CatchAllSurvivesIff(m: GroupMap, eff: map<string, Trace>, net: string)
    requires net == CATCH_ALL || net == CATCH_ALL_V6
    ensures net in Pushed(WithCatchAlls(m), eff) <==>
      (net in m && !Managed(m[net])) || (net in eff && DesiredGroup(eff[net]).Some?)
  {
  }

  // ---- the push itself -------------------------------------------------------

  /** A group of the "Advanced Blocking" app: its name and all its other settings. */
  datatype Group = Group(name: string, settings: string)

  /** The "Advanced Blocking" app; `writes` counts configuration writes. */
  class AppConfig {
    var groups: seq<Group>
    var networkGroupMap: GroupMap
    var writes: nat

    constructor (groups: seq<Group>, m: GroupMap)
      ensures this.groups == groups && networkGroupMap == m && writes == 0
    {
      this.groups, networkGroupMap, writes := groups, m, 0;
    }

    method SetConfig(groups: seq<Group>, m: GroupMap)
      modifies this
      ensures this.groups == groups && networkGroupMap == m && writes == old(writes) + 1
    {
      this.groups, networkGroupMap, writes := groups, m, writes + 1;
    }
  }

  datatype PushReport = PushReport(changed: nat, error: bool)

  /** Removing or setting a key that still has its original value adds that key to the differences. */
  lemma OneMoreDifference(a: GroupMap, b: GroupMap, c: GroupMap, ip: string)
    requires Lookup(a, ip) == Lookup(b, ip) && Lookup(c, ip) != Lookup(b, ip)
    requires forall x :: x != ip ==> Lookup(c, x) == Lookup(b, x)
    ensures Differences(a, c) == Differences(a, b) + {ip} && ip !in Differences(a, b)
    ensures |Differences(a, c)| == |Differences(a, b)| + 1
  {
  }

  /** One push.  Nothing is written when reading fails or nothing differs; otherwise the exact map is written
      once, and `changed` is the number of addresses whose entry differs. */
  method Apply(client: AppConfig, effective: map<string, Trace>, readFails: bool, writeFails: bool)
    returns (report: PushReport)
    modifies client
    ensures client.groups == old(client.groups)
    ensures
      var m, n := old(client.networkGroupMap), Pushed(old(client.networkGroupMap), effective);
      if readFails || (m != n && writeFails) then
        report == PushReport(0, true) && client.networkGroupMap == m && client.writes == old(client.writes)
      else if m == n then
        report == PushReport(0, false) && client.networkGroupMap == m && client.writes == old(client.writes)
      else
        report == PushReport(|Differences(m, n)|, false) && client.networkGroupMap == n && client.writes == old(client.writes) + 1
  {
    hide Pushed;
    if readFails {
      return PushReport(0, true);
    }
    var original := client.networkGroupMap;
    var network, changed := Overwrite(original, effective);
    network, changed := DropOrphans(original, effective, network, changed);
    forall ip ensures Lookup(network, ip) == Lookup(Pushed(original, effective), ip) { LookupPushed(original, effective, ip); }
    LookupsDecide(network, Pushed(original, effective));
    if network == original {
      return PushReport(0, false);
    }
    if writeFails {
      return PushReport(0, true);
    }
    client.SetConfig(client.groups, network);
    return PushReport(changed, false);
  }

  /** The first pass: every known address gets its group, or loses a managed one. */
  method Overwrite(original: GroupMap, effective: map<string, Trace>) returns (network: GroupMap, changed: nat)
    ensures forall ip :: ip !in effective ==> Lookup(network, ip) == Lookup(original, ip)
    ensures forall ip :: ip in effective ==> Lookup(network, ip) == PushedAt(original, effective, ip)
    ensures changed == |Differences(original, network)|
  {
    network, changed := original, 0;
    assert Differences(original, network) == {};
    hide Differences;
    var todo := effective.Keys;
    while todo != {}
      invariant todo <= effective.Keys
      invariant forall ip :: ip !in effective.Keys - todo ==> Lookup(network, ip) == Lookup(original, ip)
      invariant forall ip :: ip in effective.Keys - todo ==> Lookup(network, ip) == PushedAt(original, effective, ip)
      invariant changed == |Differences(original, network)|
      decreases todo
    {
      var ip :| ip in todo;
      todo := todo - {ip};
      assert Lookup(network, ip) == Lookup(original, ip);
      var desired := DesiredGroup(effective[ip]);
      ghost var before := network;
      if desired.None? {
        if ip in network && Managed(network[ip]) {
          network := network - {ip};
          changed := changed + 1;
          OneMoreDifference(original, before, network, ip);
        }
      } else if Lookup(network, ip) != desired {
        network := network[ip := desired.value];
        changed := changed + 1;
        OneMoreDifference(original, before, network, ip);
      }
    }
  }

  /** The orphan pass: managed entries at addresses that are not known any more go. */
  method DropOrphans(original: GroupMap, effective: map<string, Trace>, start: GroupMap, counted: nat)
    returns (network: GroupMap, changed: nat)
    requires forall ip :: ip !in effective ==> Lookup(start, ip) == Lookup(original, ip)
    requires forall ip :: ip in effective ==> Lookup(start, ip) == PushedAt(original, effective, ip)
    requires counted == |Differences(original, start)|
    ensures forall ip :: Lookup(network, ip) == PushedAt(original, effective, ip)
    ensures changed == |Differences(original, network)|
  {
    hide Differences;
    network, changed := start, counted;
    var todo := start.Keys;
    while todo != {}
      invariant todo <= start.Keys
      invariant forall ip :: ip in todo || ip in effective ==> Lookup(network, ip) == Lookup(start, ip)
      invariant forall ip :: ip !in todo ==> Lookup(network, ip) == PushedAt(original, effective, ip)
      invariant changed == |Differences(original, network)|
      decreases todo
    {
      var stale :| stale in todo;
      todo := todo - {stale};
      ghost var before := network;
      assert Lookup(network, stale) == Lookup(start, stale);
      if stale in network && Managed(network[stale]) && stale !in effective {
        network := network - {stale};
        changed := changed + 1;
        OneMoreDifference(original, before, network, stale);
      }
    }
  }
}
