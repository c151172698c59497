/** From the resolved state to what a device meets: the stages, the adapters and the routers put together. */
module Enforcement {
  import opened Records
  import opened Text
  import opened Resolution
  import opened RouterStages
  import B = BlockList
  import L = BlockListRuns
  import D = DnsDirector
  import R = DnsDirectorRuns
  import F = Firewall
  import A = Asus
  import T = TrafficRule

  /** The kill stage's list: the MACs of the switched-off single addresses. */
  ghost predicate KillList(effective: map<string, Trace>, s: MacSources, kill: seq<string>) {
    forall m :: m in kill <==> m in OffMacs(effective, s)
  }

  /** The protect stage's list: the MACs of the enforced single addresses, up to case. */
  ghost predicate ProtectList(effective: map<string, Trace>, s: MacSources, protect: seq<string>) {
    forall m :: m in ProtectedMacs(effective, s) <==> exists raw :: raw in protect && Lower(raw) == m
  }

  /** The single address has this MAC. */
  predicate HasMac(effective: map<string, Trace>, s: MacSources, ip: string, m: string) {
    ip in effective && !IsCidr(ip) && ResolveMac(s, ip) == Some(m)
  }

  // ---- switched off --------------------------------------------------------------------------------

  /** UniFi: once the controller holds the kill-switch body of the stage's list, the enabled rule names exactly
      the MACs of the switched-off devices. */
  lemma UnifiBlocksExactlyTheOff(effective: map<string, Trace>, s: MacSources, kill: seq<string>, m: string)
    requires KillList(effective, s, kill)
    ensures
      var body := T.KillSwitchRule(T.DesiredMacs(kill));
      && (m in body.devices <==>
            exists ip, raw :: HasMac(effective, s, ip, raw) && IsOff(effective[ip]) && T.IsMac(raw) && T.RuleMac(raw) == m)
      && (m in body.devices ==> body.enabled && body.target.Internet?)
  {
    hide T.RuleMac, T.TargetMacs, ResolveMac;
    T.DevicesAreTheDesired(kill);
    if m in T.DesiredMacs(kill) {
      var raw :| raw in kill && T.IsMac(raw) && T.RuleMac(raw) == m;
      var ip :| HasMac(effective, s, ip, raw) && IsOff(effective[ip]);
    }
    if ip, raw :| HasMac(effective, s, ip, raw) && IsOff(effective[ip]) && T.IsMac(raw) && T.RuleMac(raw) == m {
      assert raw in kill;
    }
  }

  /** ASUS: after the push, however the router stores the list, it blocks exactly the MACs of the switched-off
      devices and those the user blocks by hand. */
  lemma AsusBlocksExactlyTheOff(effective: map<string, Trace>, s: MacSources, kill: seq<string>, read: B.BlockNvram,
          prev: set<string>, labels: map<string, string>, again: B.BlockNvram, m: string)
    requires KillList(effective, s, kill)
    requires L.PrintableMacs(kill) && B.ReadsAs(B.Pushed(read, prev, kill, labels), again)
    requires m != ""
    ensures m in L.Blocked(again) <==>
      || B.Has(B.Theirs(B.Parse(read), prev), m)
      || exists ip, raw :: HasMac(effective, s, ip, raw) && IsOff(effective[ip]) && B.AsusNorm(raw) == m
  {
    hide L.Blocked, L.PrintableMacs, B.ReadsAs, B.Pushed, B.Has, B.Theirs, B.Parse, B.AsusNorm, ResolveMac;
    L.BlocksExactlyDesiredAndTheirs(read, prev, kill, labels, again, m);
    if m in B.Norms(kill) {
      var raw :| raw in kill && B.AsusNorm(raw) == m;
      var ip :| HasMac(effective, s, ip, raw) && IsOff(effective[ip]);
    }
    if ip, raw :| HasMac(effective, s, ip, raw) && IsOff(effective[ip]) && B.AsusNorm(raw) == m {
      assert raw in kill;
    }
  }

  // ---- enforced -------------------------------------------------------------------------------------

  /** The list sends the MAC's DNS somewhere: to the first custom address, or where a rule of the user's sends it. */
  predicate Redirected(existing: seq<D.Rule>, prev: set<string>, merged: seq<D.Rule>, m: string) {
    exists r :: r in merged && B.AsusNorm(r.mac) == m && (r.mode == "11" || (r in existing && m !in prev))
  }

  /** ASUS: an enforced device with a MAC is in the merged DNS Director list, the director is on, and the first custom
      address is the dashboard's. */
  lemma EnforcedIsRedirected(effective: map<string, Trace>, s: MacSources, protect: seq<string>,
          names: map<string, string>,
          read: D.DnsNvram, prev: set<string>, dnsIp: string, ip: string, m: string)
    requires ProtectList(effective, s, protect)
    requires HasMac(effective, s, ip, m) && NeedsProtection(effective[ip]) && B.AsusNorm(m) != ""
    ensures
      var written := D.Pushed(read, prev, A.Pairs(protect, names), dnsIp);
      var existing := D.Parse(read.rulelist);
      var merged := D.Merged(existing, prev, D.Clean(A.Pairs(protect, names)));
      && written.enable == "1" && written.custom1 == dnsIp && written.rulelist == D.Print(merged)
      && Redirected(existing, prev, merged, B.AsusNorm(m))
  {
    hide B.AsusNorm, D.Parse, D.Clean, A.Pairs, Lower, Upper, ResolveMac;
    var clean, existing := D.Clean(A.Pairs(protect, names)), D.Parse(read.rulelist);
    var theirs := D.Theirs(existing, prev);
    assert Lower(m) in ProtectedMacs(effective, s);
    var raw :| raw in protect && Lower(raw) == Lower(m);
    A.LowerTwice(raw);
    A.LowerTwice(m);
    A.NextTickKnowsOurs(protect, names);
    assert B.AsusNorm(m) in D.Macs(clean);
    var d :| d in clean && d.1 == B.AsusNorm(m);
    R.EveryDesiredIsRedirected(theirs, clean, d);
    B.CapitalsReadBack(d.1);
    D.PushedAddress(read, prev, A.Pairs(protect, names), dnsIp);
    D.CleanIsEmpty(A.Pairs(protect, names));
    assert D.Merged(existing, prev, clean) == theirs + D.Ours(theirs, clean);
    if D.Has(theirs, d.1) {
      var i :| 0 <= i < |theirs| && D.Norm(theirs[i].mac) == d.1;
      assert theirs[i] in existing && D.Merged(existing, prev, clean)[i] == theirs[i];
    }
  }

  lemma {:induction false} StripLowerCommute(s: string)
    ensures StripLeft(Lower(s)) == Lower(StripLeft(s)) && StripRight(Lower(s)) == Lower(StripRight(s))
  {
    if s != "" {
      assert Lower(s)[1..] == Lower(s[1..]) && Lower(s)[..|s| - 1] == Lower(s[..|s| - 1]);
      StripLowerCommute(s[1..]);
      StripLowerCommute(s[..|s| - 1]);
    }
  }

  lemma StripOfLower(s: string)
    ensures Upper(Strip(Lower(s))) == Upper(Strip(s))
  {
    StripLowerCommute(s);
    StripLowerCommute(StripLeft(s));
    F.UpperOfLower(Strip(s));
  }

  lemma ColonStays(s: string)
    ensures ':' in Lower(s) <==> ':' in s
  {
    if i :| 0 <= i < |s| && s[i] == ':' { assert Lower(s)[i] == ':'; }
    if i :| 0 <= i < |s| && Lower(s)[i] == ':' { assert s[i] == ':'; }
  }

  lemma RuleMacOfLower(m: string)
    ensures T.RuleMac(Lower(m)) == T.RuleMac(m)
  {
    hide StripLeft, StripRight;
    var dashed := DashesToColons(m);
    assert DashesToColons(Lower(m)) == Lower(dashed);
    StripLowerCommute(dashed);
    StripLowerCommute(StripLeft(dashed));
    var s := Strip(dashed);
    assert Strip(Lower(dashed)) == Lower(s);
    assert Lower(Lower(s)) == Lower(s);
  }

  /** UniFi: once the controller holds the DoH body of the stage's list, the enabled rule takes encrypted DNS from
      exactly the enforced devices. */
  lemma UnifiProtectsExactlyTheEnforced(effective: map<string, Trace>, s: MacSources, protect: seq<string>, appIds: seq<string>,
          m: string)
    requires ProtectList(effective, s, protect)
    ensures
      var body := T.DohBlockRule(T.DesiredMacs(protect), appIds);
      && (m in body.devices <==>
            exists ip, raw :: HasMac(effective, s, ip, raw) && NeedsProtection(effective[ip]) && T.IsMac(raw) && T.RuleMac(raw) == m)
      && (m in body.devices && appIds != [] ==> body.enabled) && body.target.App? && body.appIds == appIds
  {
    hide T.RuleMac, T.TargetMacs, T.DesiredMacs, ResolveMac, Lower, T.DohBlockRule;
    T.BodiesAre(protect, appIds);
    forall raw, other | Lower(raw) == Lower(other) ensures T.RuleMac(raw) == T.RuleMac(other) && (raw == "" <==> other == "") {
      RuleMacOfLower(raw);
      RuleMacOfLower(other);
      SameLength(raw, other);
    }
    T.NamesIs(protect, m);
    if T.Names(protect, m) {
      var raw :| raw in protect && T.IsMac(raw) && T.RuleMac(raw) == m;
      assert Lower(raw) in ProtectedMacs(effective, s);
      var ip :| ip in effective && NeedsProtection(effective[ip]) && !IsCidr(ip) && ResolveMac(s, ip).Some?
        && Lower(ResolveMac(s, ip).value) == Lower(raw);
      var own := ResolveMac(s, ip).value;
      assert HasMac(effective, s, ip, own) && T.IsMac(own) && T.RuleMac(own) == m;
    }
    if ip, raw :| HasMac(effective, s, ip, raw) && NeedsProtection(effective[ip]) && T.IsMac(raw) && T.RuleMac(raw) == m {
      assert Lower(raw) in ProtectedMacs(effective, s);
      var other :| other in protect && Lower(other) == Lower(raw);
      assert T.IsMac(other) && T.RuleMac(other) == m;
    }
  }

  lemma SameLength(a: string, b: string)
    requires Lower(a) == Lower(b)
    ensures |a| == |b|
  {
    assert |Lower(a)| == |a| && |Lower(b)| == |b|;
  }

  lemma {:induction false} LoweredHolds(macs: seq<string>, raw: string)
    requires raw in macs && ':' in raw
    ensures Lower(raw) in A.Lowered(macs)
  {
    if raw != macs[0] {
      LoweredHolds(macs[1..], raw);
    }
  }

  /** A packet of the device to a listed address, on one of the three protocol and port pairs. */
  predicate Encrypted(w: F.World, ips: seq<string>, m: string, p: F.Packet) {
    && p.mac == Upper(Strip(m)) && (exists raw :: raw in ips && Strip(raw) != "" && w.inNet(Strip(raw), p.dst))
    && (p.proto, p.port) in {(F.Tcp, 443), (F.Udp, 443), (F.Tcp, 853)}
  }

  /** ASUS: after a whole push, encrypted DNS of an enforced device is dropped unless the user's rules ahead of
      the jump decide it. */
  lemma EnforcedCannotEncryptDns(w: F.World, effective: map<string, Trace>, s: MacSources, protect: seq<string>,
          t: F.Tables,
          ips: seq<string>, ip: string, m: string, p: F.Packet)
    requires ProtectList(effective, s, protect)
    requires HasMac(effective, s, ip, m) && NeedsProtection(effective[ip]) && F.Accepted(Upper(Strip(m))) && ':' in m
    requires Encrypted(w, ips, m, p) && !F.DecidedAhead(w, F.WithJump(t.forward), p)
    ensures F.VerdictOf(w, F.Installed(t, A.Lowered(protect), ips), p) == F.Drop
  {
    hide A.Lowered, F.Installed, F.VerdictOf, F.DecidedAhead, F.WithJump, Lower, Upper, Strip, F.Accepted, ResolveMac;
    assert Lower(m) in ProtectedMacs(effective, s);
    var raw :| raw in protect && Lower(raw) == Lower(m);
    ColonStays(m);
    ColonStays(raw);
    LoweredHolds(protect, raw);
    StripOfLower(m);
    assert Lower(raw) in A.Lowered(protect) && ':' in Lower(raw) && Upper(Strip(Lower(raw))) == p.mac;
    F.PushIsTransparent(w, t, A.Lowered(protect), ips, p);
  }

  // ---- nobody slips through -----------------------------------------------------------------------

  /** A MAC as the router lists it: six pairs of hexadecimal digits with colons between. */
  predicate WellFormed(m: string) {
    F.Accepted(Upper(m))
  }

  lemma WellFormedIsTrimmed(m: string)
    requires WellFormed(m)
    ensures Strip(m) == m && ':' in m && B.AsusNorm(m) == Lower(m) != ""
  {
    forall i | 0 <= i < 17 ensures !IsSpace(m[i]) && m[i] != '-' && (i % 3 == 2 ==> m[i] == ':') {
      assert Upper(m)[i] == UpperChar(m[i]);
    }
    assert m[2] == ':';
    var low := Lower(m);
    assert forall i :: 0 <= i < 17 ==> low[i] == LowerChar(m[i]) && DashesToColons(low)[i] == low[i];
    assert DashesToColons(low) == low;
  }

  lemma {:induction false} ColonsOf(s: string, pairs: nat)
    requires |s| == 3 * pairs + 2 && forall i :: 0 <= i < |s| ==> (s[i] == ':' <==> i % 3 == 2)
    ensures Count(s, ':') == pairs
  {
    assert Count(s, ':') == Count(s[1..], ':');
    assert Count(s[1..], ':') == Count(s[1..][1..], ':') && s[1..][1..] == s[2..];
    if pairs > 0 {
      assert s[2..][1..] == s[3..];
      forall i | 0 <= i < |s[3..]| ensures s[3..][i] == ':' <==> i % 3 == 2 {
        assert s[3..][i] == s[i + 3];
      }
      ColonsOf(s[3..], pairs - 1);
    }
  }

  lemma WellFormedIsRuleMac(m: string)
    requires WellFormed(m)
    ensures T.RuleMac(m) == Lower(m) && T.IsMac(m)
  {
    WellFormedIsTrimmed(m);
    hide Strip;
    forall i | 0 <= i < 17 ensures m[i] != '-' && (m[i] == ':' <==> i % 3 == 2) && (Lower(m)[i] == ':' <==> m[i] == ':') {
      assert Upper(m)[i] == UpperChar(m[i]);
    }
    assert DashesToColons(m) == m;
    ColonsOf(Lower(m), 5);
  }

  /** On UniFi, with both bodies on the controller and app ids to block: a device with a known MAC and any profile but
      unrestricted is named by the rule that takes its internet, or by the rule that takes its encrypted DNS, and that
      rule is enabled. */
  lemma NobodySlipsThroughUnifi(effective: map<string, Trace>, s: MacSources, kill: seq<string>, protect: seq<string>,
          appIds: seq<string>, ip: string, m: string)
    requires KillList(effective, s, kill) && ProtectList(effective, s, protect) && appIds != []
    requires HasMac(effective, s, ip, m) && WellFormed(m)
    requires effective[ip].profile.Some? && effective[ip].profile.value != "unrestricted"
    ensures
      var blocked, protected := T.KillSwitchRule(T.DesiredMacs(kill)), T.DohBlockRule(T.DesiredMacs(protect), appIds);
      || (Lower(m) in blocked.devices && blocked.enabled && blocked.target.Internet?)
      || (Lower(m) in protected.devices && protected.enabled && protected.target.App? && protected.appIds == appIds)
  {
    hide T.RuleMac, T.IsMac, T.KillSwitchRule, T.DohBlockRule, T.DesiredMacs, KillList, ProtectList, Lower, WellFormed;
    WellFormedIsRuleMac(m);
    UnifiBlocksExactlyTheOff(effective, s, kill, Lower(m));
    UnifiProtectsExactlyTheEnforced(effective, s, protect, appIds, Lower(m));
    if IsOff(effective[ip]) {
      assert HasMac(effective, s, ip, m) && T.IsMac(m);
    } else {
      assert NeedsProtection(effective[ip]);
    }
  }

  /** The whole of it, on ASUS with every stage on and every push whole: a device with a known MAC and any profile
      but unrestricted is blocked outright, or has its DNS redirected and its encrypted DNS dropped. */
  lemma NobodySlipsThrough(w: F.World, effective: map<string, Trace>, s: MacSources, kill: seq<string>,
          protect: seq<string>,
          block: B.BlockNvram, prevKill: set<string>, labels: map<string, string>, again: B.BlockNvram,
          read: D.DnsNvram, prevDns: set<string>, dnsIp: string, names: map<string, string>,
          t: F.Tables, ips: seq<string>, ip: string, m: string)
    requires KillList(effective, s, kill) && ProtectList(effective, s, protect)
    requires L.PrintableMacs(kill) && B.ReadsAs(B.Pushed(block, prevKill, kill, labels), again)
    requires HasMac(effective, s, ip, m) && WellFormed(m)
    requires effective[ip].profile.Some? && effective[ip].profile.value != "unrestricted"
    ensures
      var written, existing := D.Pushed(read, prevDns, A.Pairs(protect, names), dnsIp), D.Parse(read.rulelist);
      var merged := D.Merged(existing, prevDns, D.Clean(A.Pairs(protect, names)));
      Lower(m) in L.Blocked(again) ||
      (written.enable == "1" && written.custom1 == dnsIp && written.rulelist == D.Print(merged)
       && Redirected(existing, prevDns, merged, Lower(m))
       && forall p :: Encrypted(w, ips, m, p) && !F.DecidedAhead(w, F.WithJump(t.forward), p) ==>
            F.VerdictOf(w, F.Installed(t, A.Lowered(protect), ips), p) == F.Drop)
  {
    hide L.Blocked, L.PrintableMacs, B.ReadsAs, B.Pushed, D.Parse, D.Print, D.Pushed, D.Merged, D.Clean, A.Pairs, A.Lowered, Redirected, KillList,
      ProtectList, F.Installed, F.VerdictOf, F.DecidedAhead, F.WithJump, Encrypted, Lower, Strip, B.AsusNorm, B.Has, B.Parse, B.Theirs;
    WellFormedIsTrimmed(m);
    if IsOff(effective[ip]) {
      AsusBlocksExactlyTheOff(effective, s, kill, block, prevKill, labels, again, Lower(m));
    } else {
      EnforcedIsRedirected(effective, s, protect, names, read, prevDns, dnsIp, ip, m);
      forall p | Encrypted(w, ips, m, p) && !F.DecidedAhead(w, F.WithJump(t.forward), p)
        ensures F.VerdictOf(w, F.Installed(t, A.Lowered(protect), ips), p) == F.Drop
      {
        EnforcedCannotEncryptDns(w, effective, s, protect, t, ips, ip, m, p);
      }
    }
  }
}
