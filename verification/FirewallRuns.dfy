/** Runs of the SSH stage: applies that may break off anywhere, the user's own edits, and firmware restarts. */
module FirewallRuns {
  import opened Sorting
  import opened Firewall
  import P = DohSteps
  import X = DohExact

  datatype Event =
    | Apply(macs: seq<string>, ips: seq<string>, script: seq<P.Outcome>)
    | UserEdit
    | FirmwareRestart

  /** The user may do anything to rules that are not ours; a restart drops every chain but keeps the set. */
  ghost predicate Step(s: Tables, e: Event, t: Tables) {
    match e
    case Apply(macs, ips, script) => t == P.Apply(P.Session(s, script), macs, ips).s.t
    case UserEdit => Jumps(t.forward) == Jumps(s.forward) && t.chain == s.chain && t.ipset == s.ipset
    case FirmwareRestart => Jumps(t.forward) == 0 && t.chain.None? && t.ipset == s.ipset
  }

  ghost predicate Run(states: seq<Tables>, events: seq<Event>) {
    |states| == |events| + 1 && forall k :: 0 <= k < |events| ==> Step(states[k], events[k], states[k + 1])
  }

  /** No command is refused without reason. */
  predicate AllReliable(events: seq<Event>) {
    forall e :: e in events && e.Apply? ==> P.Reliable(e.script)
  }

  /** The event is an empty apply that was not broken off. */
  predicate WholeEmptyApply(s: Tables, e: Event) {
    e.Apply? && CleanMacs(e.macs) == [] && P.Apply(P.Session(s, e.script), e.macs, e.ips).ok
  }

  /** The event meets our one jump and is a push that puts a second one in. */
  predicate DoublesAt(s: Tables, e: Event) {
    e.Apply? && Jumps(s.forward) == 1 && X.DoublesJump(e.script, e.macs, e.ips)
  }

  /** From at most one jump a step leads to more than one if and only if it doubles the jump. */
  lemma StepKeepsOneJumpIff(s: Tables, e: Event, t: Tables)
    requires Step(s, e, t) && Kernel(s) && Jumps(s.forward) <= 1
    ensures Jumps(t.forward) <= 1 <==> !DoublesAt(s, e)
  {
    hide Jumps, P.Apply, Kernel, X.DoublesJump;
    if e.Apply? {
      P.ApplyKeeps(P.Session(s, e.script), e.macs, e.ips);
      if Jumps(s.forward) == 1 { X.ApplyDoublesIff(P.Session(s, e.script), e.macs, e.ips); }
    }
  }

  lemma StepKeepsKernel(s: Tables, e: Event, t: Tables)
    requires Step(s, e, t) && Kernel(s)
    ensures Kernel(t)
  {
    hide Jumps, UserRules, P.Apply;
    JumpsCount(s.forward);
    JumpsCount(t.forward);
    if e.Apply? { P.ApplyKeeps(P.Session(s, e.script), e.macs, e.ips); }
  }

  /** However applies break off, no jump is without its chain and no rule without its set; and there is at most
      one jump as long as no push has doubled it. */
  lemma {:induction false} RunKeepsInvariant(states: seq<Tables>, events: seq<Event>, k: nat)
    requires Run(states, events) && k <= |events|
    requires Kernel(states[0])
    ensures Kernel(states[k])
    ensures Jumps(states[0].forward) <= 1 && (forall j :: 0 <= j < k ==> !DoublesAt(states[j], events[j])) ==>
      Jumps(states[k].forward) <= 1
  {
    hide Jumps, Kernel, Step, DoublesAt;
    if k > 0 {
      RunKeepsInvariant(states, events, k - 1);
      assert Step(states[k - 1], events[k - 1], states[k]);
      StepKeepsKernel(states[k - 1], events[k - 1], states[k]);
      if Jumps(states[k - 1].forward) <= 1 { StepKeepsOneJumpIff(states[k - 1], events[k - 1], states[k]); }
    }
  }

  /** A run that starts with at most one jump never has more if and only if none of its pushes doubles it. */
  lemma RunKeepsOneJumpIff(states: seq<Tables>, events: seq<Event>)
    requires Run(states, events)
    requires Kernel(states[0]) && Jumps(states[0].forward) <= 1
    ensures (forall k :: 0 <= k <= |events| ==> Jumps(states[k].forward) <= 1) <==>
      forall k :: 0 <= k < |events| ==> !DoublesAt(states[k], events[k])
  {
    hide Jumps, Kernel, Step, DoublesAt;
    if forall k :: 0 <= k < |events| ==> !DoublesAt(states[k], events[k]) {
      forall k | 0 <= k <= |events| ensures Jumps(states[k].forward) <= 1 {
        RunKeepsInvariant(states, events, k);
      }
    }
    if forall k :: 0 <= k <= |events| ==> Jumps(states[k].forward) <= 1 {
      forall k | 0 <= k < |events| ensures !DoublesAt(states[k], events[k]) {
        RunKeepsInvariant(states, events, k);
        assert Step(states[k], events[k], states[k + 1]);
        StepKeepsOneJumpIff(states[k], events[k], states[k + 1]);
      }
    }
  }

  /** Nothing refused without reason doubles a jump. */
  lemma ReliableRunKeepsOneJump(states: seq<Tables>, events: seq<Event>, k: nat)
    requires Run(states, events) && AllReliable(events) && k <= |events|
    requires Kernel(states[0]) && Jumps(states[0].forward) <= 1
    ensures Jumps(states[k].forward) <= 1
  {
    hide Jumps, Kernel, Step, P.Reliable, X.DoublesJump;
    forall j | 0 <= j < k ensures !DoublesAt(states[j], events[j]) {
      var e := events[j];
      assert e in events;
      if e.Apply? { X.ReliableNeverDoubles(e.script, e.macs, e.ips); }
    }
    RunKeepsInvariant(states, events, k);
  }

  /** Applies, whole or broken off, reliable or not, never touch the user's rules. */
  lemma {:induction false} UserRulesStay(states: seq<Tables>, events: seq<Event>, k: nat)
    requires Run(states, events) && k <= |events|
    requires forall e :: e in events ==> e.Apply?
    ensures UserRules(states[k].forward) == UserRules(states[0].forward)
  {
    hide UserRules, Jumps, P.Apply;
    if k > 0 {
      UserRulesStay(states, events, k - 1);
      var e := events[k - 1];
      assert Step(states[k - 1], e, states[k]) && e in events;
      P.ApplyKeeps(P.Session(states[k - 1], e.script), e.macs, e.ips);
    }
  }

  /** In the run's last event, an empty apply, nothing was refused that there was to do. */
  predicate LastRestores(states: seq<Tables>, events: seq<Event>)
    requires |states| == |events| + 1 && |events| > 0 && events[|events| - 1].Apply?
  {
    X.Restores(X.AfterProbe(P.Session(states[|events| - 1], events[|events| - 1].script)))
  }

  /** Any run that ends with an empty apply which returns leaves what the user and the firmware made of the
      firewall, without jump, chain or set of ours, if and only if there was at most one jump and nothing that
      apply had to do was refused. */
  lemma EmptyApplyCleansUpIff(states: seq<Tables>, events: seq<Event>)
    requires Run(states, events) && |events| > 0 && Kernel(states[0])
    requires WholeEmptyApply(states[|events| - 1], events[|events| - 1])
    ensures states[|events|] == Untouched(states[|events| - 1]) <==> LastRestores(states, events)
  {
    var n := |events|;
    var before, last := states[n - 1], events[n - 1];
    RunKeepsInvariant(states, events, n - 1);
    assert Step(before, last, states[n]);
    X.ApplyReachesIff(P.Session(before, last.script), last.macs, last.ips);
  }

  /** So does any run in which nothing is refused without reason. */
  lemma EmptyApplyCleansUp(states: seq<Tables>, events: seq<Event>)
    requires Run(states, events) && |events| > 0 && AllReliable(events)
    requires Kernel(states[0]) && Jumps(states[0].forward) <= 1
    requires WholeEmptyApply(states[|events| - 1], events[|events| - 1])
    ensures states[|events|] == Untouched(states[|events| - 1])
  {
    hide P.Apply, CleanMacs, P.Reliable, Kernel, Jumps, TornDown, Untouched;
    var n := |events|;
    var before, last := states[n - 1], events[n - 1];
    RunKeepsInvariant(states, events, n - 1);
    ReliableRunKeepsOneJump(states, events, n - 1);
    assert last in events && Step(before, last, states[n]);
    P.WholeApply(P.Session(before, last.script), last.macs, last.ips);
    TearDownRestoresIff(before);
  }

  lemma UntouchedHasNoJump(s: Tables)
    requires s == Untouched(s)
    ensures Kernel(s) && Jumps(s.forward) == 0 && UserRules(s.forward) == s.forward
  {
    P.UsersHaveNoJump(s.forward);
    JumpsCount(s.forward);
  }

  /** A run of applies alone that starts from a firewall without us ends with exactly that firewall, by the same
      condition. */
  lemma RunRestoresInitialIff(states: seq<Tables>, events: seq<Event>)
    requires Run(states, events) && |events| > 0
    requires states[0] == Untouched(states[0])
    requires forall e :: e in events ==> e.Apply?
    requires WholeEmptyApply(states[|events| - 1], events[|events| - 1])
    ensures states[|events|] == states[0] <==> LastRestores(states, events)
  {
    hide P.Apply, CleanMacs, UserRules, Kernel, X.Restores;
    UntouchedHasNoJump(states[0]);
    EmptyApplyCleansUpIff(states, events);
    UserRulesStay(states, events, |events| - 1);
  }

  lemma RunRestoresInitial(states: seq<Tables>, events: seq<Event>)
    requires Run(states, events) && |events| > 0 && AllReliable(events)
    requires states[0] == Untouched(states[0])
    requires forall e :: e in events ==> e.Apply?
    requires WholeEmptyApply(states[|events| - 1], events[|events| - 1])
    ensures states[|events|] == states[0]
  {
    hide P.Apply, CleanMacs, P.Reliable, Kernel, UserRules, Jumps;
    UntouchedHasNoJump(states[0]);
    EmptyApplyCleansUp(states, events);
    UserRulesStay(states, events, |events| - 1);
  }

  /** With two jumps one whole tear-down no longer restores: the second jump stays, and with it our chain. */
  lemma SecondJumpSurvives(s: Tables, macs: seq<string>, ips: seq<string>, script: seq<P.Outcome>)
    requires Kernel(s) && Jumps(s.forward) == 2 && P.Reliable(script)
    requires WholeEmptyApply(s, Apply(macs, ips, script))
    ensures
      var t := P.Apply(P.Session(s, script), macs, ips).s.t;
      Jumps(t.forward) == 1 && t.chain.Some? && t != Untouched(s)
  {
    hide P.Apply, CleanMacs, P.Reliable;
    P.WholeApply(P.Session(s, script), macs, ips);
    JumpsCount(s.forward);
    JumpsCount(WithoutFirstJump(s.forward));
    TearDownRestoresIff(s);
  }

  /** A push on a firewall with our jump, whose one check is refused without reason. */
  function RefusedCheck(ips: seq<string>): seq<P.Outcome> {
    [P.Works, P.Works, P.Works] + (if Stripped(ips) == [] then [] else [P.Works]) + [P.Works, P.Refused]
  }

  /** It puts a second jump in, returns without an error, and the next whole tear-down leaves a jump and our
      chain behind. */
  lemma RefusedCheckSurvives(s: Tables, macs: seq<string>, ips: seq<string>, none: seq<string>)
    requires Kernel(s) && Jumps(s.forward) == 1 && CleanMacs(macs) != [] && CleanMacs(none) == []
    ensures
      var pushed := P.Apply(P.Session(s, RefusedCheck(ips)), macs, ips);
      var torn := P.Apply(P.Session(pushed.s.t, []), none, ips);
      && pushed.ok && Jumps(pushed.s.t.forward) == 2
      && torn.ok && Jumps(torn.s.t.forward) == 1 && torn.s.t.chain.Some?
  {
    RefusedCheckDoubles(s, macs, ips);
    hide P.Apply, CleanMacs, RefusedCheck, Jumps;
    var t := P.Apply(P.Session(s, RefusedCheck(ips)), macs, ips).s.t;
    P.ApplyKeeps(P.Session(s, RefusedCheck(ips)), macs, ips);
    X.NothingLostReturns(P.Session(t, []), none, ips);
    SecondJumpSurvives(t, none, ips, []);
  }

  lemma RefusedCheckDoubles(s: Tables, macs: seq<string>, ips: seq<string>)
    requires Kernel(s) && Jumps(s.forward) == 1 && CleanMacs(macs) != []
    ensures
      var pushed := P.Apply(P.Session(s, RefusedCheck(ips)), macs, ips);
      pushed.ok && Jumps(pushed.s.t.forward) == 2
  {
    hide CleanMacs, Jumps, P.Apply, UserRules, X.NoLoss;
    var script := RefusedCheck(ips);
    FillsThenRefuses(ips);
    JumpsCount(s.forward);
    X.NeverLost(script);
    X.NeverLost(P.Tail(script));
    X.NeverLost([]);
    assert X.AfterChain(s, P.Tail(script), ips) == [] && X.AfterFlush(s, P.Tail(script), ips) == [];
    X.ApplyDoublesIff(P.Session(s, script), macs, ips);
    X.ApplyReturnsIff(P.Session(s, script), macs, ips);
  }

  lemma FillsThenRefuses(ips: seq<string>)
    ensures X.SetReturns(P.Tail(RefusedCheck(ips)), ips)
    ensures X.AfterSet(P.Tail(RefusedCheck(ips)), ips) == [P.Works, P.Refused]
    ensures P.Lost !in RefusedCheck(ips)
  {
    hide Stripped;
    var script := P.Tail(RefusedCheck(ips));
    assert X.Rest(script, 2) == (if Stripped(ips) == [] then [] else [P.Works]) + [P.Works, P.Refused];
    if Stripped(ips) == [] {
      assert X.Listed(ips) == [];
    } else {
      assert Stripped(ips)[0] in X.Listed(ips);
    }
  }
}
