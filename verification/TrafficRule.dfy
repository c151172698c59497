/** The two UniFi traffic rules: which MACs they name, and why nothing but the set of MACs matters. */
module TrafficRule {
  import opened Text
  import opened Sorting

  const KILL_SWITCH_NAME := "Guardium Internet Off"
  const DOH_BLOCK_NAME := "Guardium Block Encrypted DNS"

  datatype MatchTarget = Internet | App

  /** A rule body.  Every field not listed here has the same value in both rules. */
  datatype Body = Body(name: string, enabled: bool, target: MatchTarget, devices: seq<string>, appIds: seq<string>)

  /** Colons for dashes, stripped, lower case. */
  function RuleMac(raw: string): string {
    Lower(Strip(DashesToColons(raw)))
  }

  /** The adapter's normal form, if the text has the five colons of a MAC. */
  predicate IsMac(raw: string) {
    raw != "" && Count(RuleMac(raw), ':') == 5
  }

  function Normalized(macs: seq<string>): (r: seq<string>)
    ensures forall m :: m in r <==> exists raw :: raw in macs && IsMac(raw) && RuleMac(raw) == m
  {
    if macs == [] then []
    else
      var rest := Normalized(macs[1..]);
      var r := (if IsMac(macs[0]) then [RuleMac(macs[0])] else []) + rest;
      assert macs == [macs[0]] + macs[1..];
      assert forall m :: m in r <==> exists raw :: raw in macs && IsMac(raw) && RuleMac(raw) == m by {
        forall m ensures m in r <==> exists raw :: raw in macs && IsMac(raw) && RuleMac(raw) == m {
          if IsMac(macs[0]) && m == RuleMac(macs[0]) {
            assert macs[0] in macs;
          } else if m in rest {
            var raw :| raw in macs[1..] && IsMac(raw) && RuleMac(raw) == m;
            assert raw in macs;
          }
        }
      }
      r
  }

  /** The MAC list a stage works with. */
  function DesiredMacs(macs: seq<string>): seq<string> {
    SortedSet(Normalized(macs))
  }

  /** The devices of a rule: normalised, blank and colonless entries dropped, first mention kept. */
  function TargetMacs(macs: seq<string>): seq<string> {
    if macs == [] then []
    else
      var init, raw := TargetMacs(macs[..|macs| - 1]), macs[|macs| - 1];
      if raw == "" || ':' !in RuleMac(raw) || RuleMac(raw) in init then init else init + [RuleMac(raw)]
  }

  method TargetDevices(macs: seq<string>) returns (out: seq<string>)
    ensures out == TargetMacs(macs)
    ensures forall i, j :: 0 <= i < j < |out| ==> out[i] != out[j]
  {
    out := [];
    var seen: set<string> := {};
    for i := 0 to |macs|
      invariant out == TargetMacs(macs[..i])
      invariant seen == set m | m in out
      invariant forall i, j :: 0 <= i < j < |out| ==> out[i] != out[j]
    {
      assert macs[..i + 1][..i] == macs[..i];
      var raw := macs[i];
      if raw == "" {
        continue;
      }
      var m := RuleMac(raw);
      if ':' !in m || m in seen {
        continue;
      }
      seen := seen + {m};
      out := out + [m];
    }
    assert macs[..|macs|] == macs;
  }

  function KillSwitchRule(macs: seq<string>): Body {
    Body(KILL_SWITCH_NAME, TargetMacs(macs) != [], Internet, TargetMacs(macs), [])
  }

  function DohBlockRule(macs: seq<string>, appIds: seq<string>): Body {
    Body(DOH_BLOCK_NAME, TargetMacs(macs) != [] && appIds != [], App, TargetMacs(macs), appIds)
  }

  // ---- normal forms -------------------------------------------------------------------

  lemma {:induction false} CountMember(s: string, c: char)
    ensures Count(s, c) > 0 <==> c in s
  {
    if s != "" {
      CountMember(s[1..], c);
      assert s == [s[0]] + s[1..];
    }
  }

  /** Whatever list a rule is built from, its devices are the normal forms that have a colon. */
  lemma {:induction false} TargetMacsHave(macs: seq<string>, m: string)
    ensures m in TargetMacs(macs) <==> ':' in m && exists raw :: raw in macs && RuleMac(raw) == m
    ensures m in KillSwitchRule(macs).devices <==> m in TargetMacs(macs)
    ensures m in DohBlockRule(macs, []).devices <==> m in TargetMacs(macs)
  {
    if macs != [] {
      BlankHasNoColon();
      hide RuleMac;
      var init, last := macs[..|macs| - 1], macs[|macs| - 1];
      TargetMacsHave(init, m);
      assert macs == init + [last];
      CountMember(RuleMac(""), ':');
    }
  }

  /** Normalising twice is normalising once. */
  lemma RuleMacIsNormal(raw: string)
    ensures RuleMac(RuleMac(raw)) == RuleMac(raw)
  {
    var m := RuleMac(raw);
    StripTrims(DashesToColons(raw));
    var s := Strip(DashesToColons(raw));
    forall i | 0 <= i < |m| ensures m[i] != '-' && LowerChar(m[i]) == m[i] {
      assert m[i] == LowerChar(s[i]);
      assert s[i] in s && s[i] in DashesToColons(raw);
    }
  }

  /** The rule names exactly the desired MACs, in order: building the body loses none and adds none. */
  lemma {:induction false} TargetMacsOfNormal(macs: seq<string>)
    requires forall i, j :: 0 <= i < j < |macs| ==> macs[i] != macs[j]
    requires forall m :: m in macs ==> exists raw :: IsMac(raw) && RuleMac(raw) == m
    ensures TargetMacs(macs) == macs
  {
    if macs != [] {
      var init, last := macs[..|macs| - 1], macs[|macs| - 1];
      assert macs == init + [last];
      forall m | m in init ensures exists raw :: IsMac(raw) && RuleMac(raw) == m {
        assert m in macs;
      }
      TargetMacsOfNormal(init);
      assert last in macs;
      var raw :| IsMac(raw) && RuleMac(raw) == last;
      RuleMacIsNormal(raw);
      CountMember(last, ':');
      assert last != "";
    }
  }

  lemma AscendingHasNoRepeats(s: seq<string>)
    requires Ascending(s)
    ensures forall i, j :: 0 <= i < j < |s| ==> s[i] != s[j]
  {
    forall i, j | 0 <= i < j < |s| ensures s[i] != s[j] {
      BeforeTotal(s[i], s[j]);
    }
  }

  lemma DevicesAreTheDesired(macs: seq<string>)
    ensures TargetMacs(DesiredMacs(macs)) == DesiredMacs(macs)
  {
    AscendingHasNoRepeats(DesiredMacs(macs));
    forall m | m in DesiredMacs(macs) ensures exists raw :: IsMac(raw) && RuleMac(raw) == m {
      assert m in Normalized(macs);
      var raw :| raw in macs && IsMac(raw) && RuleMac(raw) == m;
    }
    TargetMacsOfNormal(DesiredMacs(macs));
  }

  /** The text has five colons and is the normal form of a listed one. */
  predicate Names(macs: seq<string>, m: string) {
    Count(m, ':') == 5 && exists raw :: raw in macs && RuleMac(raw) == m
  }

  lemma NamesIs(macs: seq<string>, m: string)
    ensures Names(macs, m) <==> exists raw :: raw in macs && IsMac(raw) && RuleMac(raw) == m
  {
    BlankHasNoColon();
    hide RuleMac, Count;
  }

  lemma BlankHasNoColon()
    ensures Count(RuleMac(""), ':') == 0
  {
    assert DashesToColons("") == "" && Strip("") == "" && Lower("") == "";
  }

  /** The body takes the whole internet from exactly the MACs demanded, and is on exactly while there are any. */
  ghost predicate BlocksInternetOf(body: Body, macs: seq<string>) {
    && body.name == "Guardium Internet Off" && body.target.Internet? && body.appIds == []
    && (forall m :: m in body.devices <==> Names(macs, m))
    && (body.enabled <==> exists m :: Names(macs, m))
  }

  /** The body takes the given apps from exactly the MACs demanded, and is on exactly while there are both. */
  ghost predicate BlocksAppsOf(body: Body, macs: seq<string>, appIds: seq<string>) {
    && body.name == "Guardium Block Encrypted DNS" && body.target.App? && body.appIds == appIds
    && (forall m :: m in body.devices <==> Names(macs, m))
    && (body.enabled <==> appIds != [] && exists m :: Names(macs, m))
  }

  lemma DesiredAreNamed(macs: seq<string>, m: string)
    ensures m in DesiredMacs(macs) <==> Names(macs, m)
  {
    NamesIs(macs, m);
    hide RuleMac, IsMac, Names;
  }

  /** What the two bodies built for a demand say. */
  lemma BodiesAre(macs: seq<string>, appIds: seq<string>)
    ensures BlocksInternetOf(KillSwitchRule(DesiredMacs(macs)), macs)
    ensures BlocksAppsOf(DohBlockRule(DesiredMacs(macs), appIds), macs, appIds)
  {
    hide DesiredMacs, TargetMacs, Names;
    DevicesAreTheDesired(macs);
    var list := DesiredMacs(macs);
    forall m ensures m in list <==> Names(macs, m) {
      DesiredAreNamed(macs, m);
    }
    if list != [] { assert Names(macs, list[0]); }
    if m :| Names(macs, m) { assert m in list; }
  }

  lemma SameSetSameList(a: seq<string>, b: seq<string>)
    ensures (forall m :: m in Normalized(a) <==> m in Normalized(b)) <==> DesiredMacs(a) == DesiredMacs(b)
  {
    hide Normalized, SortedSet;
    var x, y := DesiredMacs(a), DesiredMacs(b);
    forall m ensures (m in Normalized(a) <==> m in x) && (m in Normalized(b) <==> m in y) { }
    if forall m :: m in Normalized(a) <==> m in Normalized(b) {
      AscendingIsUnique(x, y);
    } else {
      var m :| m in Normalized(a) <==> m !in Normalized(b);
      assert m in x <==> m !in y;
    }
  }

  /** Two MAC lists that normalise to the same set give the same bodies, whatever their order, case, dashes,
      blanks or repetitions; and two that do not, differ. */
  lemma BodyDependsOnlyOnTheSet(a: seq<string>, b: seq<string>, appIds: seq<string>)
    ensures (forall m :: m in Normalized(a) <==> m in Normalized(b)) <==>
      KillSwitchRule(DesiredMacs(a)) == KillSwitchRule(DesiredMacs(b))
    ensures (forall m :: m in Normalized(a) <==> m in Normalized(b)) <==>
      DohBlockRule(DesiredMacs(a), appIds) == DohBlockRule(DesiredMacs(b), appIds)
  {
    hide Normalized, SortedSet, TargetMacs, DesiredMacs;
    SameSetSameList(a, b);
    DevicesAreTheDesired(a);
    DevicesAreTheDesired(b);
  }
}
