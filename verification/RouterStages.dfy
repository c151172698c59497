/** Which MACs each router stage is told about, from the resolved state. */
module RouterStages {
  import opened Records
  import opened Text
  import opened Resolution

  const INTERNET_OFF_PROFILE := Some("internet-off")

  /** What the stages look up: the live snapshot first, then the MAC stored with the device row. */
  datatype MacSources = MacSources(live: map<string, string>, stored: map<string, Option<string>>)

  /** The MAC of an address, or none; a blank MAC is no MAC. */
  function ResolveMac(s: MacSources, ip: string): Option<string> {
    if ip in s.live && s.live[ip] != "" then Some(s.live[ip])
    else if ip in s.stored && Truthy(s.stored[ip]) then s.stored[ip]
    else None
  }

  predicate IsCidr(ip: string) { '/' in ip }

  /** A profile that needs DNS Director and DoH enforcement. */
  predicate NeedsProtection(t: Trace) {
    t.profile.Some? && t.profile.value != "unrestricted" && t.profile.value != "internet-off"
  }

  predicate IsOff(t: Trace) {
    t.profile == INTERNET_OFF_PROFILE
  }

  /** `order` is the effective dictionary's order: every address once. */
  ghost predicate Orders(effective: map<string, Trace>, order: seq<string>) {
    (forall ip :: ip in order <==> ip in effective) && forall i, j :: 0 <= i < j < |order| ==> order[i] != order[j]
  }

  predicate NoRepeats(macs: seq<string>) {
    forall i, j :: 0 <= i < j < |macs| ==> macs[i] != macs[j]
  }

  /** Kill-switch stage.  Every switched-off address has its MAC in the list exactly once or is reported
      missing, and nothing else is in either list. */
  method KillStage(effective: map<string, Trace>, order: seq<string>, s: MacSources)
    returns (kill: seq<(string, string)>, missing: seq<string>)
    requires Orders(effective, order)
    ensures NoRepeats(Macs(kill))
    ensures forall m :: m in Macs(kill) <==> m in OffMacs(effective, s)
    ensures forall p :: p in kill ==> p.1 in effective && IsOff(effective[p.1]) && ResolveMac(s, p.1) == Some(p.0)
    ensures NoRepeats(missing)
    ensures forall ip :: ip in missing <==> ip in effective && IsOff(effective[ip]) && !IsCidr(ip) && ResolveMac(s, ip) == None
  {
    kill, missing := [], [];
    var seen: set<string> := {};
    for i := 0 to |order|
      invariant seen == set m | m in Macs(kill)
      invariant NoRepeats(Macs(kill)) && NoRepeats(missing)
      invariant forall ip :: ip in order[..i] && IsOff(effective[ip]) && !IsCidr(ip) && ResolveMac(s, ip).Some? ==> ResolveMac(s, ip).value in seen
      invariant forall p :: p in kill ==> p.1 in effective && IsOff(effective[p.1]) && !IsCidr(p.1) && ResolveMac(s, p.1) == Some(p.0)
      invariant forall ip :: ip in missing <==> ip in order[..i] && IsOff(effective[ip]) && !IsCidr(ip) && ResolveMac(s, ip) == None
    {
      var ip := order[i];
      assert order[..i + 1] == order[..i] + [ip] && ip !in order[..i];
      if !IsOff(effective[ip]) || IsCidr(ip) {
        continue;
      }
      var mac := ResolveMac(s, ip);
      if mac.None? {
        missing := missing + [ip];
        continue;
      }
      if mac.value in seen {
        continue;
      }
      MacsAppend(kill, mac.value, ip);
      seen := seen + {mac.value};
      kill := kill + [(mac.value, ip)];
    }
    assert order[..|order|] == order;
    forall m ensures m in Macs(kill) <==> m in OffMacs(effective, s) {
      MacsHold(kill, m);
    }
  }

  function Macs(pairs: seq<(string, string)>): seq<string> {
    seq(|pairs|, i requires 0 <= i < |pairs| => pairs[i].0)
  }

  lemma MacsAppend(pairs: seq<(string, string)>, mac: string, ip: string)
    ensures Macs(pairs + [(mac, ip)]) == Macs(pairs) + [mac]
  {
  }

  lemma MacsHold(pairs: seq<(string, string)>, m: string)
    ensures m in Macs(pairs) <==> exists p :: p in pairs && p.0 == m
  {
    if m in Macs(pairs) {
      var i :| 0 <= i < |pairs| && Macs(pairs)[i] == m;
      assert pairs[i] in pairs;
    }
    if p :| p in pairs && p.0 == m {
      var i :| 0 <= i < |pairs| && pairs[i] == p;
      assert Macs(pairs)[i] == m;
    }
  }

  /** The MACs of the switched-off single addresses. */
  function OffMacs(effective: map<string, Trace>, s: MacSources): set<string> {
    set ip | ip in effective && IsOff(effective[ip]) && !IsCidr(ip) && ResolveMac(s, ip).Some? :: ResolveMac(s, ip).value
  }

  /** Lower-case MACs of the enforced single addresses. */
  function ProtectedMacs(effective: map<string, Trace>, s: MacSources): set<string> {
    set ip | ip in effective && NeedsProtection(effective[ip]) && !IsCidr(ip) && ResolveMac(s, ip).Some? :: Lower(ResolveMac(s, ip).value)
  }

  /** DNS Director and DoH stages: exactly the known MACs of the enforced addresses, once each up to case. */
  method ProtectStage(effective: map<string, Trace>, order: seq<string>, s: MacSources)
    returns (protect: seq<(string, string)>)
    requires Orders(effective, order)
    ensures NoRepeats(LowerMacs(protect))
    ensures forall m :: m in LowerMacs(protect) <==> m in ProtectedMacs(effective, s)
    ensures forall p :: p in protect ==> p.1 in effective && NeedsProtection(effective[p.1]) && ResolveMac(s, p.1) == Some(p.0)
  {
    protect := [];
    var seen: set<string> := {};
    for i := 0 to |order|
      invariant seen == set m | m in LowerMacs(protect)
      invariant NoRepeats(LowerMacs(protect))
      invariant forall ip :: ip in order[..i] && NeedsProtection(effective[ip]) && !IsCidr(ip) && ResolveMac(s, ip).Some? ==>
        Lower(ResolveMac(s, ip).value) in seen
      invariant forall p :: p in protect ==> p.1 in effective && NeedsProtection(effective[p.1]) && !IsCidr(p.1) && ResolveMac(s, p.1) == Some(p.0)
    {
      var ip := order[i];
      assert order[..i + 1] == order[..i] + [ip];
      if !NeedsProtection(effective[ip]) || IsCidr(ip) {
        continue;
      }
      var mac := ResolveMac(s, ip);
      if mac.None? || Lower(mac.value) in seen {
        continue;
      }
      LowerMacsAppend(protect, mac.value, ip);
      seen := seen + {Lower(mac.value)};
      protect := protect + [(mac.value, ip)];
    }
    assert order[..|order|] == order;
    forall m ensures m in LowerMacs(protect) <==> m in ProtectedMacs(effective, s) {
      LowerMacsHold(protect, m);
    }
  }

  function LowerMacs(pairs: seq<(string, string)>): seq<string> {
    seq(|pairs|, i requires 0 <= i < |pairs| => Lower(pairs[i].0))
  }

  lemma LowerMacsAppend(pairs: seq<(string, string)>, mac: string, ip: string)
    ensures LowerMacs(pairs + [(mac, ip)]) == LowerMacs(pairs) + [Lower(mac)]
  {
  }

  lemma LowerMacsHold(pairs: seq<(string, string)>, m: string)
    ensures m in LowerMacs(pairs) <==> exists p :: p in pairs && Lower(p.0) == m
  {
    if m in LowerMacs(pairs) {
      var i :| 0 <= i < |pairs| && LowerMacs(pairs)[i] == m;
      assert pairs[i] in pairs;
    }
    if p :| p in pairs && Lower(p.0) == m {
      var i :| 0 <= i < |pairs| && pairs[i] == p;
      assert LowerMacs(pairs)[i] == m;
    }
  }

  /** The address has this MAC: the live snapshot says so, or says nothing and the device row does. */
  predicate KnownAs(s: MacSources, ip: string, m: string) {
    && m != ""
    && if ip in s.live && s.live[ip] != "" then s.live[ip] == m else ip in s.stored && s.stored[ip] == Some(m)
  }

  /** The stages' sets over the live and the stored MACs. */
  lemma StagesHold(effective: map<string, Trace>, s: MacSources, m: string)
    ensures m in OffMacs(effective, s) <==>
      exists ip :: ip in effective && effective[ip].profile == Some("internet-off") && '/' !in ip && KnownAs(s, ip, m)
    ensures m in ProtectedMacs(effective, s) <==>
      exists ip, raw :: ip in effective && effective[ip].profile.Some? && effective[ip].profile.value !in {"unrestricted", "internet-off"}
                        && '/' !in ip && KnownAs(s, ip, raw) && Lower(raw) == m
  {
    hide Lower;
    if m in OffMacs(effective, s) {
      var ip :| ip in effective && IsOff(effective[ip]) && !IsCidr(ip) && ResolveMac(s, ip).Some? && ResolveMac(s, ip).value == m;
      assert KnownAs(s, ip, m);
    }
    if m in ProtectedMacs(effective, s) {
      var ip :| ip in effective && NeedsProtection(effective[ip]) && !IsCidr(ip) && ResolveMac(s, ip).Some? && Lower(ResolveMac(s, ip).value) == m;
      assert KnownAs(s, ip, ResolveMac(s, ip).value);
    }
  }

  /** No two addresses resolve to the same MAC up to case. */
  ghost predicate InjectiveMacs(effective: map<string, Trace>, s: MacSources) {
    forall x, y :: x in effective && y in effective && x != y && ResolveMac(s, x).Some? && ResolveMac(s, y).Some? ==>
      Lower(ResolveMac(s, x).value) != Lower(ResolveMac(s, y).value)
  }

  /** With one address per MAC no MAC is both blocked and protected: the stages never disagree about a device. */
  lemma StagesAreDisjoint(effective: map<string, Trace>, s: MacSources)
    requires InjectiveMacs(effective, s)
    ensures forall m :: m in OffMacs(effective, s) ==> Lower(m) !in ProtectedMacs(effective, s)
  {
  }

  /** A single address with a known MAC and any profile but unrestricted is blocked or protected. */
  lemma EveryEnforcedDeviceIsCovered(effective: map<string, Trace>, s: MacSources, ip: string)
    requires ip in effective && !IsCidr(ip) && ResolveMac(s, ip).Some?
    requires effective[ip].profile.Some? && effective[ip].profile.value != "unrestricted"
    ensures var m := ResolveMac(s, ip).value;
      m in OffMacs(effective, s) || Lower(m) in ProtectedMacs(effective, s)
  {
  }
}
