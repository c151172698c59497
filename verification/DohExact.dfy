/** Exactly when an apply of the SSH stage returns, restores, doubles the jump or reaches its goal, read off the
    tables and the outcomes of its commands. */
module DohExact {
  import opened Records
  import opened Text
  import opened Sorting
  import opened Firewall
  import opened DohSteps

  // ---- the outcomes by number ----------------------------------------------------------------------

  function At(script: seq<Outcome>, i: nat): Outcome {
    if i < |script| then script[i] else Works
  }

  function Rest(script: seq<Outcome>, n: nat): seq<Outcome> {
    if n <= |script| then script[n..] else []
  }

  /** None of the `n` outcomes from `from` on is a lost connection. */
  predicate NoLoss(script: seq<Outcome>, from: nat, n: nat) {
    forall i :: from <= i < from + n ==> !At(script, i).Lost?
  }

  lemma Shift(script: seq<Outcome>)
    ensures Head(script) == At(script, 0) && Tail(script) == Rest(script, 1)
    ensures forall i: nat :: At(Tail(script), i) == At(script, i + 1)
  {
  }

  lemma RestAt(script: seq<Outcome>, n: nat)
    ensures forall i: nat :: At(Rest(script, n), i) == At(script, n + i)
    ensures Tail(Rest(script, n)) == Rest(script, n + 1) && Head(Rest(script, n)) == At(script, n)
  {
  }

  lemma RestRest(script: seq<Outcome>, a: nat, b: nat)
    ensures Rest(Rest(script, a), b) == Rest(script, a + b)
  {
  }

  lemma NoLossRest(script: seq<Outcome>, a: nat, from: nat, n: nat)
    ensures NoLoss(Rest(script, a), from, n) <==> NoLoss(script, a + from, n)
  {
    RestAt(script, a);
    if NoLoss(Rest(script, a), from, n) {
      forall i | a + from <= i < a + from + n ensures !At(script, i).Lost? {
        assert !At(Rest(script, a), i - a).Lost?;
      }
    }
    if NoLoss(script, a + from, n) {
      forall i | from <= i < from + n ensures !At(Rest(script, a), i).Lost? {
        assert !At(script, a + i).Lost?;
      }
    }
  }

  lemma NoLossJoin(script: seq<Outcome>, from: nat, m: nat, n: nat)
    ensures NoLoss(script, from, m + n) <==> NoLoss(script, from, m) && NoLoss(script, from + m, n)
  {
  }

  lemma NoLossFirst(script: seq<Outcome>, n: nat)
    requires n > 0
    ensures NoLoss(script, 0, n) <==> !Head(script).Lost? && NoLoss(Tail(script), 0, n - 1)
  {
    Shift(script);
    NoLossRest(script, 1, 0, n - 1);
    NoLossJoin(script, 0, 1, n - 1);
    assert NoLoss(script, 0, 1) <==> !At(script, 0).Lost?;
  }

  // ---- one command after another --------------------------------------------------------------------

  lemma {:induction false} AddOneByOneReturnsIff(s: Session, list: seq<string>)
    ensures AddOneByOne(s, list).ok <==> NoLoss(s.script, 0, |list|)
    ensures AddOneByOne(s, list).ok ==> AddOneByOne(s, list).s.script == Rest(s.script, |list|)
    decreases |list|
  {
    if list != [] {
      hide Elements, NoLoss;
      NoLossFirst(s.script, |list|);
      Shift(s.script);
      AddOneByOneReturnsIff(AddToSet(s, [list[0]]).0, list[1..]);
      RestRest(s.script, 1, |list| - 1);
    } else {
      assert Rest(s.script, 0) == s.script;
    }
  }

  lemma {:induction false} AddRulesReturnsIff(s: Session, rules: seq<DropRule>, added: nat)
    ensures AddRules(s, rules, added).ok <==> NoLoss(s.script, 0, |rules|)
    decreases |rules|
  {
    if rules != [] {
      hide Append, NoLoss;
      NoLossFirst(s.script, |rules|);
      var sent := Append(s, rules[0]);
      AddRulesReturnsIff(sent.0, rules[1..], added + if sent.1.Works? then 1 else 0);
    }
  }

  // ---- the set ----------------------------------------------------------------------------------------

  /** How many commands filling the set takes: one, and one per address when that one is refused. */
  function FillCount(script: seq<Outcome>, list: seq<string>): nat {
    if list == [] then 0 else if At(script, 0).Refused? then 1 + |list| else 1
  }

  lemma FillSetReturnsIff(s: Session, list: seq<string>)
    requires s.t.ipset.Some?
    ensures FillSet(s, list).ok <==> NoLoss(s.script, 0, FillCount(s.script, list))
    ensures FillSet(s, list).ok ==> FillSet(s, list).s.script == Rest(s.script, FillCount(s.script, list))
  {
    hide Elements, NoLoss, AddOneByOne;
    Shift(s.script);
    if list == [] {
      assert NoLoss(s.script, 0, 0) by { NothingToLose(s.script, 0); }
      assert Rest(s.script, 0) == s.script;
    } else {
      NoLossFirst(s.script, FillCount(s.script, list));
      NothingToLose(Tail(s.script), 0);
      AddOneByOneReturnsIff(AddToSet(s, list).0, list);
      RestRest(s.script, 1, |list|);
    }
  }

  lemma NothingToLose(script: seq<Outcome>, from: nat)
    ensures NoLoss(script, from, 0)
  {
  }

  /** The addresses as the stage sends them. */
  function Listed(ips: seq<string>): seq<string> {
    SortedSet(Stripped(ips))
  }

  function SetCount(script: seq<Outcome>, ips: seq<string>): nat {
    2 + FillCount(Rest(script, 2), Listed(ips))
  }

  /** The set's creation and its flush work, and the connection holds while it is filled. */
  predicate SetReturns(script: seq<Outcome>, ips: seq<string>) {
    At(script, 0).Works? && At(script, 1).Works? && NoLoss(script, 2, SetCount(script, ips) - 2)
  }

  lemma EnsureIpsetReturnsIff(s: Session, ips: seq<string>)
    ensures EnsureIpset(s, ips).ok <==> SetReturns(s.script, ips)
    ensures EnsureIpset(s, ips).ok ==> EnsureIpset(s, ips).s.script == Rest(s.script, SetCount(s.script, ips))
  {
    hide NoLoss, FillSet, FillCount, SortedSet, Stripped;
    Shift(s.script);
    RestAt(s.script, 1);
    var flushed := FlushSet(CreateSet(s).0).0;
    if At(s.script, 0).Works? && At(s.script, 1).Works? {
      FillSetReturnsIff(flushed, Listed(ips));
      NoLossRest(s.script, 2, 0, SetCount(s.script, ips) - 2);
      RestRest(s.script, 2, SetCount(s.script, ips) - 2);
    }
  }

  // ---- the chain ----------------------------------------------------------------------------------------

  /** The check finds the jump. */
  predicate Found(t: Tables, script: seq<Outcome>) {
    Jump in t.forward && At(script, 1).Works?
  }

  function ChainCount(t: Tables, script: seq<Outcome>): nat {
    if Found(t, script) then 2 else 3
  }

  /** Neither command is lost, and if the jump is not found its insertion works, for which the chain must be there. */
  predicate ChainReturns(t: Tables, script: seq<Outcome>) {
    && !At(script, 0).Lost? && !At(script, 1).Lost?
    && (Found(t, script) || (At(script, 2).Works? && (t.chain.Some? || At(script, 0).Works?)))
  }

  lemma EnsureChainReturnsIff(s: Session)
    ensures
      var step := EnsureChain(s);
      && (step.ok <==> ChainReturns(s.t, s.script))
      && (step.ok ==> step.s.script == Rest(s.script, ChainCount(s.t, s.script)))
      && (step.ok ==> step.s.t.forward == if Found(s.t, s.script) then s.t.forward else [Jump] + s.t.forward)
      && (step.ok ==> step.s.t.ipset == s.t.ipset)
      && (step.ok && s.t.chain.Some? ==> step.s.t.chain == s.t.chain)
      && (step.ok && s.t.chain.None? && Kernel(s.t) ==> step.s.t.chain == Some([]))
  {
    Shift(s.script);
    RestAt(s.script, 1);
    RestAt(s.script, 2);
  }

  /** A step that starts with one jump ends with two if and only if the check is refused although the jump is
      there, and the insertion then works; what goes before must not be lost. */
  predicate Doubles(script: seq<Outcome>) {
    !At(script, 0).Lost? && At(script, 1).Refused? && At(script, 2).Works?
  }

  lemma EnsureChainDoublesIff(s: Session)
    requires Kernel(s.t) && Jumps(s.t.forward) == 1
    ensures Jumps(EnsureChain(s).s.t.forward) == 2 <==> Doubles(s.script)
    ensures Jumps(EnsureChain(s).s.t.forward) in {1, 2}
  {
    hide Jumps, UserRules;
    Shift(s.script);
    RestAt(s.script, 1);
    JumpsCount(s.t.forward);
    WithJumpCounts(s.t.forward);
  }

  /** How many commands emptying the chain takes: one to list it, and one to flush what was listed. */
  function FlushCount(t: Tables, script: seq<Outcome>): nat {
    if t.chain.Some? && At(script, 0).Works? then 2 else 1
  }

  /** The chain is emptied. */
  predicate Flushed(t: Tables, script: seq<Outcome>) {
    t.chain.Some? && At(script, 0).Works? && At(script, 1).Works?
  }

  lemma FlushChainReturnsIff(s: Session)
    ensures
      var step, n := FlushChain(s), FlushCount(s.t, s.script);
      && (step.ok <==> NoLoss(s.script, 0, n))
      && (step.ok ==> step.s.script == Rest(s.script, n))
      && (step.ok ==> step.s.t == s.t.(chain := if Flushed(s.t, s.script) then Some([]) else s.t.chain))
  {
    Shift(s.script);
    RestAt(s.script, 1);
    NoLossFirst(s.script, FlushCount(s.t, s.script));
    NothingToLose(Tail(s.script), 0);
    hide NoLoss;
    if FlushCount(s.t, s.script) == 2 {
      NoLossFirst(Tail(s.script), 1);
      NothingToLose(Tail(Tail(s.script)), 0);
    }
  }

  // ---- the tear-down ----------------------------------------------------------------------------------

  /** The chain after its flush and its deletion, given what is left in FORWARD. */
  function ChainLeft(chain: Option<seq<DropRule>>, forward: seq<ForwardRule>, script: seq<Outcome>): Option<seq<DropRule>> {
    var flushed := if chain.Some? && At(script, 1).Works? then Some([]) else chain;
    if flushed == Some([]) && Jump !in forward && At(script, 2).Works? then None else flushed
  }

  /** The tables after the tear-down's three chain commands, none of them lost. */
  lemma TeardownChainIs(s: Session)
    ensures
      var step := TeardownChain(s);
      && (step.ok <==> NoLoss(s.script, 0, 3))
      && (step.ok ==> step.s.script == Rest(s.script, 3) && step.s.t.ipset == s.t.ipset)
      && (step.ok ==>
           step.s.t.forward == if At(s.script, 0).Works? && Jump in s.t.forward then WithoutFirstJump(s.t.forward) else s.t.forward)
      && (step.ok ==> step.s.t.chain == ChainLeft(s.t.chain, step.s.t.forward, s.script))
  {
    hide WithoutFirstJump;
    Shift(s.script);
    RestAt(s.script, 1);
    RestAt(s.script, 2);
    assert NoLoss(s.script, 0, 3) <==> !At(s.script, 0).Lost? && !At(s.script, 1).Lost? && !At(s.script, 2).Lost?;
  }

  /** The empty apply returns, after its probe, if and only if none of its commands is lost. */
  predicate TearDownReturns(s: Session) {
    NoLoss(s.script, 0, FlushCount(s.t, s.script) + 4)
  }

  /** It takes everything of ours away: with `k` commands spent on emptying the chain, the jump's deletion, one
      of the two flushes, the chain's deletion and the set's each work where there is something for them to do. */
  predicate Restores(s: Session) {
    var k := FlushCount(s.t, s.script);
    && Jumps(s.t.forward) <= 1
    && (Jump in s.t.forward ==> At(s.script, k).Works?)
    && (Rules(s.t) != [] ==> Flushed(s.t, s.script) || At(s.script, k + 1).Works?)
    && (s.t.chain.Some? ==> At(s.script, k + 2).Works?)
    && (s.t.ipset.Some? ==> At(s.script, k + 3).Works?)
  }

  lemma TearDownReturnsIff(s: Session)
    ensures TearDown(s).ok <==> TearDownReturns(s)
  {
    hide FlushChain, TeardownChain, NoLoss;
    var k := FlushCount(s.t, s.script);
    FlushChainReturnsIff(s);
    NoLossJoin(s.script, 0, k, 4);
    NoLossJoin(s.script, k, 3, 1);
    if FlushChain(s).ok {
      var flushed := FlushChain(s).s;
      TeardownChainIs(flushed);
      NoLossRest(s.script, k, 0, 3);
      RestRest(s.script, k, 3);
      RestAt(s.script, k + 3);
      assert NoLoss(s.script, k + 3, 1) <==> !At(s.script, k + 3).Lost? by { OneLoss(s.script, k + 3); }
    }
  }

  lemma OneLoss(script: seq<Outcome>, i: nat)
    ensures NoLoss(script, i, 1) <==> !At(script, i).Lost?
  {
  }

  /** A tear-down that returns leaves the user's firewall if and only if `Restores`; a refused command is not
      noticed. */
  lemma TearDownRestoresExactly(s: Session)
    requires Kernel(s.t) && TearDown(s).ok
    ensures TearDown(s).s.t == Untouched(s.t) <==> Restores(s)
  {
    hide FlushChain, TeardownChain, NoLoss, Jumps, UserRules, WithoutFirstJump;
    var k := FlushCount(s.t, s.script);
    FlushChainReturnsIff(s);
    var flushed := FlushChain(s).s;
    TeardownChainIs(flushed);
    RestAt(s.script, k);
    RestAt(s.script, k + 3);
    RestRest(s.script, k, 3);
    JumpsCount(s.t.forward);
    JumpsCount(WithoutFirstJump(s.t.forward));
    UsersHaveNoJump(s.t.forward);
  }

  // ---- the push ---------------------------------------------------------------------------------------------

  /** The outcomes left for the chain and the jump. */
  function AfterSet(script: seq<Outcome>, ips: seq<string>): seq<Outcome> {
    Rest(script, SetCount(script, ips))
  }

  /** ... for emptying the chain. */
  function AfterChain(t: Tables, script: seq<Outcome>, ips: seq<string>): seq<Outcome> {
    Rest(AfterSet(script, ips), ChainCount(t, AfterSet(script, ips)))
  }

  /** ... and for the rules; the chain is there by then. */
  function AfterFlush(t: Tables, script: seq<Outcome>, ips: seq<string>): seq<Outcome> {
    var left := AfterChain(t, script, ips);
    Rest(left, if At(left, 0).Works? then 2 else 1)
  }

  /** The nonempty apply returns, after its probe: the set's creation and flush work, a jump that is not found goes
      in, and nothing else is lost. */
  predicate PushReturns(s: Session, clean: seq<string>, ips: seq<string>) {
    && SetReturns(s.script, ips)
    && ChainReturns(s.t, AfterSet(s.script, ips))
    && NoLoss(AfterChain(s.t, s.script, ips), 0, if At(AfterChain(s.t, s.script, ips), 0).Works? then 2 else 1)
    && NoLoss(AfterFlush(s.t, s.script, ips), 0, 3 * |clean|)
  }

  lemma {:induction false} ThreePerMac(clean: seq<string>)
    ensures |AllRules(clean)| == 3 * |clean|
  {
    if clean != [] {
      ThreePerMac(clean[1..]);
    }
  }

  /** Where a push that gets as far as its rules has got to. */
  lemma PushStages(s: Session, ips: seq<string>)
    requires Kernel(s.t) && SetReturns(s.script, ips) && ChainReturns(s.t, AfterSet(s.script, ips))
    ensures
      var a := EnsureIpset(s, ips);
      var b := EnsureChain(a.s);
      && a.ok && a.s.script == AfterSet(s.script, ips) && a.s.t == s.t.(ipset := a.s.t.ipset) && a.s.t.ipset.Some?
      && b.ok && b.s.script == AfterChain(s.t, s.script, ips) && b.s.t.ipset == a.s.t.ipset
      && b.s.t.chain == Some(Rules(s.t))
      && b.s.t.forward == if Found(s.t, AfterSet(s.script, ips)) then s.t.forward else [Jump] + s.t.forward
  {
    hide EnsureIpset, EnsureChain, SetReturns, SetCount, ChainReturns, Jumps, UserRules;
    EnsureIpsetReturnsIff(s, ips);
    EnsureIpsetKeeps(s, ips);
    EnsureChainReturnsIff(EnsureIpset(s, ips).s);
    SameChain(s.t, EnsureIpset(s, ips).s.t, AfterSet(s.script, ips));
  }

  lemma SameChain(a: Tables, b: Tables, script: seq<Outcome>)
    requires b.forward == a.forward && b.chain == a.chain
    ensures ChainReturns(b, script) == ChainReturns(a, script) && Found(b, script) == Found(a, script)
  {
  }

  lemma PushReturnsIff(s: Session, clean: seq<string>, ips: seq<string>)
    requires Kernel(s.t)
    ensures Push(s, clean, ips).ok <==> PushReturns(s, clean, ips)
  {
    hide EnsureIpset, EnsureChain, FlushChain, AddRules, AllRules, SetReturns, SetCount, ChainReturns, NoLoss, Jumps, UserRules;
    EnsureIpsetReturnsIff(s, ips);
    EnsureIpsetKeeps(s, ips);
    if SetReturns(s.script, ips) {
      var a := EnsureIpset(s, ips).s;
      EnsureChainReturnsIff(a);
      SameChain(s.t, a.t, AfterSet(s.script, ips));
      if ChainReturns(s.t, AfterSet(s.script, ips)) {
        PushStages(s, ips);
        var b := EnsureChain(a).s;
        FlushChainReturnsIff(b);
        AddRulesReturnsIff(FlushChain(b).s, AllRules(clean), 0);
        ThreePerMac(clean);
      }
    }
  }

  /** What an apply whose probe went well goes on with. */
  function AfterProbe(s: Session): Session {
    Session(s.t, Tail(s.script))
  }

  /** One apply returns, read off the tables and the outcomes alone. */
  predicate Returns(s: Session, macs: seq<string>, ips: seq<string>) {
    && At(s.script, 0).Works?
    && if CleanMacs(macs) == [] then TearDownReturns(AfterProbe(s)) else PushReturns(AfterProbe(s), CleanMacs(macs), ips)
  }

  lemma ApplyReturnsIff(s: Session, macs: seq<string>, ips: seq<string>)
    requires Kernel(s.t)
    ensures Apply(s, macs, ips).ok <==> Returns(s, macs, ips)
  {
    hide TearDown, Push, TearDownReturns, PushReturns, CleanMacs;
    Shift(s.script);
    var probed := Probe(s).0;
    TearDownReturnsIff(probed);
    PushReturnsIff(probed, CleanMacs(macs), ips);
  }

  // ---- reliable scripts: so many commands ---------------------------------------------------------------

  /** How many commands a nonempty apply takes when none is refused without reason. */
  function PushLength(t: Tables, clean: seq<string>, ips: seq<string>): nat {
    1 + 2 + (if Listed(ips) == [] then 0 else 1) + 2 + (if Jump in t.forward then 0 else 1) + 2 + 3 * |clean|
  }

  lemma ReliableAt(script: seq<Outcome>, i: nat)
    requires Reliable(script)
    ensures !At(script, i).Refused?
  {
  }

  lemma ReliableRest(script: seq<Outcome>, n: nat)
    requires Reliable(script)
    ensures Reliable(Rest(script, n))
  {
  }

  /** A reliable push returns if and only if the connection holds for that many commands. */
  lemma ReliablePushReturnsIff(s: Session, macs: seq<string>, ips: seq<string>)
    requires Reliable(s.script) && Kernel(s.t) && CleanMacs(macs) != []
    ensures Apply(s, macs, ips).ok <==> NoLoss(s.script, 0, PushLength(s.t, CleanMacs(macs), ips))
  {
    hide Apply, CleanMacs, NoLoss, Listed, Reliable;
    ApplyReturnsIff(s, macs, ips);
    var clean, tail := CleanMacs(macs), Tail(s.script);
    Shift(s.script);
    NoLossFirst(s.script, PushLength(s.t, clean, ips));
    ReliableAt(s.script, 0);
    ReliableRest(s.script, 1);
    ReliablePushTail(Session(s.t, tail), clean, ips);
  }

  lemma ReliablePushTail(s: Session, clean: seq<string>, ips: seq<string>)
    requires Reliable(s.script)
    ensures PushReturns(s, clean, ips) <==> NoLoss(s.script, 0, PushLength(s.t, clean, ips) - 1)
  {
    hide NoLoss, Listed, Reliable, Rest, At;
    var script := s.script;
    var a := 2 + if Listed(ips) == [] then 0 else 1;
    var c := if Jump in s.t.forward then 2 else 3;
    SetLength(script, ips);
    ReliableRest(script, a);
    ChainLength(s.t, Rest(script, a));
    NoLossRest(script, a, 0, c);
    RestRest(script, a, c);
    ReliableRest(script, a + c);
    FlushLength(Rest(script, a + c));
    RestRest(script, a + c, 2);
    NoLossRest(script, a + c, 0, 2);
    NoLossRest(script, a + c + 2, 0, 3 * |clean|);
    NoLossJoin(script, 0, a, c);
    NoLossJoin(script, 0, a + c, 2);
    NoLossJoin(script, 0, a + c + 2, 3 * |clean|);
    if NoLoss(script, 0, a) && NoLoss(script, a, c) {
      assert AfterSet(script, ips) == Rest(script, a);
      assert AfterChain(s.t, script, ips) == Rest(script, a + c);
    }
  }

  lemma SetLength(script: seq<Outcome>, ips: seq<string>)
    requires Reliable(script)
    ensures SetCount(script, ips) == 2 + if Listed(ips) == [] then 0 else 1
    ensures SetReturns(script, ips) <==> NoLoss(script, 0, SetCount(script, ips))
  {
    hide Listed;
    RestAt(script, 2);
    ReliableAt(script, 0);
    ReliableAt(script, 1);
    ReliableAt(script, 2);
    NoLossJoin(script, 0, 2, SetCount(script, ips) - 2);
  }

  lemma ChainLength(t: Tables, script: seq<Outcome>)
    requires Reliable(script)
    ensures ChainReturns(t, script) <==> NoLoss(script, 0, if Jump in t.forward then 2 else 3)
    ensures ChainReturns(t, script) ==> ChainCount(t, script) == if Jump in t.forward then 2 else 3
  {
    ReliableAt(script, 0);
    ReliableAt(script, 1);
    ReliableAt(script, 2);
    assert NoLoss(script, 0, 2) <==> !At(script, 0).Lost? && !At(script, 1).Lost?;
    assert NoLoss(script, 0, 3) <==> !At(script, 0).Lost? && !At(script, 1).Lost? && !At(script, 2).Lost?;
  }

  lemma FlushLength(script: seq<Outcome>)
    requires Reliable(script)
    ensures NoLoss(script, 0, if At(script, 0).Works? then 2 else 1) ==> At(script, 0).Works?
    ensures NoLoss(script, 0, 2) <==> NoLoss(script, 0, if At(script, 0).Works? then 2 else 1)
  {
    ReliableAt(script, 0);
    OneLoss(script, 0);
    assert NoLoss(script, 0, 2) ==> !At(script, 0).Lost?;
  }

  /** So an apply returns when no command is lost or refused without reason. */
  lemma NothingLostReturns(s: Session, macs: seq<string>, ips: seq<string>)
    requires Reliable(s.script) && Kernel(s.t) && Lost !in s.script
    ensures Apply(s, macs, ips).ok
  {
    hide Apply, CleanMacs, Listed, Kernel;
    NeverLost(s.script);
    if CleanMacs(macs) == [] {
      ApplyReturnsIff(s, macs, ips);
      ReliableAt(s.script, 0);
      NeverLost(Tail(s.script));
    } else {
      ReliablePushReturnsIff(s, macs, ips);
    }
  }

  lemma NeverLost(script: seq<Outcome>)
    requires Lost !in script
    ensures Lost !in Tail(script) && !At(script, 0).Lost? && forall from: nat, n: nat :: NoLoss(script, from, n)
  {
  }

  // ---- the second jump ------------------------------------------------------------------------------------

  /** The apply is a push that gets as far as the check, and there doubles the jump. */
  predicate DoublesJump(script: seq<Outcome>, macs: seq<string>, ips: seq<string>) {
    CleanMacs(macs) != [] && At(script, 0).Works? && SetReturns(Tail(script), ips) && Doubles(AfterSet(Tail(script), ips))
  }

  /** An apply that starts with one jump ends with two if and only if it does; otherwise with one or none. */
  lemma ApplyDoublesIff(s: Session, macs: seq<string>, ips: seq<string>)
    requires Kernel(s.t) && Jumps(s.t.forward) == 1
    ensures Jumps(Apply(s, macs, ips).s.t.forward) == 2 <==> DoublesJump(s.script, macs, ips)
    ensures Jumps(Apply(s, macs, ips).s.t.forward) <= 2
  {
    hide Jumps, Kernel, CleanMacs, TearDown, Push, SetReturns, Doubles, SetCount;
    Shift(s.script);
    var probed := Probe(s).0;
    TearDownKeeps(probed);
    PushDoublesIff(probed, CleanMacs(macs), ips);
  }

  lemma PushDoublesIff(s: Session, clean: seq<string>, ips: seq<string>)
    requires Kernel(s.t) && Jumps(s.t.forward) == 1
    ensures Jumps(Push(s, clean, ips).s.t.forward) == 2 <==> SetReturns(s.script, ips) && Doubles(AfterSet(s.script, ips))
    ensures Jumps(Push(s, clean, ips).s.t.forward) <= 2
  {
    hide Jumps, Kernel, EnsureIpset, EnsureChain, FlushChain, AddRules, AllRules, SetReturns, SetCount, Doubles;
    EnsureIpsetReturnsIff(s, ips);
    EnsureIpsetKeeps(s, ips);
    var a := EnsureIpset(s, ips).s;
    EnsureChainDoublesIff(a);
    var b := EnsureChain(a).s;
    FlushChainKeeps(b);
    AddRulesKeeps(FlushChain(b).s, AllRules(clean), 0);
  }

  /** Nothing refused without reason doubles nothing. */
  lemma ReliableNeverDoubles(script: seq<Outcome>, macs: seq<string>, ips: seq<string>)
    requires Reliable(script)
    ensures !DoublesJump(script, macs, ips)
  {
    hide CleanMacs, SetReturns, SetCount, Reliable, At;
    Shift(script);
    ReliableRest(script, 1);
    ReliableRest(Tail(script), SetCount(Tail(script), ips));
    ReliableAt(AfterSet(Tail(script), ips), 1);
  }

  // ---- what a push that returns reaches --------------------------------------------------------------------

  /** No command of the list is refused. */
  predicate AllWork(script: seq<Outcome>, from: nat, n: nat) {
    forall i :: from <= i < from + n ==> At(script, i).Works?
  }

  lemma AllWorkFirst(script: seq<Outcome>, n: nat)
    requires n > 0
    ensures AllWork(script, 0, n) <==> Head(script).Works? && AllWork(Tail(script), 0, n - 1)
  {
    Shift(script);
    if Head(script).Works? && AllWork(Tail(script), 0, n - 1) {
      forall i | 0 <= i < n ensures At(script, i).Works? {
        assert i > 0 ==> At(Tail(script), i - 1).Works?;
      }
    }
    if AllWork(script, 0, n) {
      forall i | 0 <= i < n - 1 ensures At(Tail(script), i).Works? {
        assert At(script, i + 1).Works?;
      }
      assert At(script, 0).Works?;
    }
  }

  /** Among addresses of which none repeats all arrive if and only if none is refused. */
  lemma {:induction false} AllArriveIff(list: seq<string>, script: seq<Outcome>)
    requires forall i, j :: 0 <= i < j < |list| ==> list[i] != list[j]
    ensures Elements(Survivors(list, script)) == Elements(list) <==> AllWork(script, 0, |list|)
    ensures Elements(Survivors(list, script)) <= Elements(list)
    decreases |list|
  {
    if list != [] {
      hide AllWork;
      AllWorkFirst(script, |list|);
      AllArriveIff(list[1..], Tail(script));
      var x, rest := list[0], Survivors(list[1..], Tail(script));
      assert x !in list[1..] && list == [x] + list[1..];
      assert Elements(list) == {x} + Elements(list[1..]) && x !in Elements(list[1..]);
      if Head(script).Works? {
        assert Survivors(list, script) == [x] + rest;
        assert Elements([x] + rest) == {x} + Elements(rest) && x !in Elements(rest);
      } else {
        assert x in Elements(list);
        assert Elements(Survivors(list, script)) <= Elements(rest);
      }
    }
  }

  /** Every rule iptables can read goes in if and only if none of them is refused or lost. */
  predicate ReadableWork(rules: seq<DropRule>, script: seq<Outcome>) {
    forall i :: 0 <= i < |rules| && Accepted(rules[i].mac) ==> At(script, i).Works?
  }

  lemma ReadableWorkFirst(rules: seq<DropRule>, script: seq<Outcome>)
    requires rules != []
    ensures ReadableWork(rules, script) <==> (Accepted(rules[0].mac) ==> Head(script).Works?) && ReadableWork(rules[1..], Tail(script))
  {
    hide Accepted;
    Shift(script);
    if ReadableWork(rules, script) {
      forall i | 0 <= i < |rules[1..]| && Accepted(rules[1..][i].mac) ensures At(Tail(script), i).Works? {
        assert rules[1..][i] == rules[i + 1];
      }
    }
    if (Accepted(rules[0].mac) ==> Head(script).Works?) && ReadableWork(rules[1..], Tail(script)) {
      forall i | 0 <= i < |rules| && Accepted(rules[i].mac) ensures At(script, i).Works? {
        if i > 0 {
          assert rules[1..][i - 1] == rules[i];
          assert At(Tail(script), i - 1).Works?;
        }
      }
    }
  }

  lemma SurvivorsCons<T>(r: T, rest: seq<T>, script: seq<Outcome>)
    requires !Head(script).Lost?
    ensures Survivors([r] + rest, script) ==
      if Head(script).Works? then [r] + Survivors(rest, Tail(script)) else Survivors(rest, Tail(script))
  {
    assert ([r] + rest)[1..] == rest;
    assert [] + Survivors(rest, Tail(script)) == Survivors(rest, Tail(script));
  }

  lemma SameFirst<T>(first: seq<T>, a: seq<T>, b: seq<T>)
    ensures first + a == first + b <==> a == b
  {
    assert (first + a)[|first|..] == a && (first + b)[|first|..] == b;
  }

  lemma {:induction false} AllGoInIff(rules: seq<DropRule>, script: seq<Outcome>)
    requires NoLoss(script, 0, |rules|)
    ensures Readable(Survivors(rules, script)) == Readable(rules) <==> ReadableWork(rules, script)
    ensures |Readable(Survivors(rules, script))| <= |Readable(rules)|
    decreases |rules|
  {
    if rules != [] {
      hide ReadableWork, Accepted, NoLoss;
      NoLossFirst(script, |rules|);
      ReadableWorkFirst(rules, script);
      AllGoInIff(rules[1..], Tail(script));
      var r, rest := rules[0], Survivors(rules[1..], Tail(script));
      assert rules == [r] + rules[1..];
      ReadableCons(r, rules[1..]);
      SurvivorsCons(r, rules[1..], script);
      if Head(script).Works? {
        ReadableCons(r, rest);
        SameFirst(if Accepted(r.mac) then [r] else [], Readable(rest), Readable(rules[1..]));
      } else if Accepted(r.mac) {
        assert |Readable(rules)| == 1 + |Readable(rules[1..])|;
      } else {
        assert [] + Readable(rules[1..]) == Readable(rules[1..]);
      }
    }
  }

  /** The rules a push leaves in place: those it listed in vain, or could not flush. */
  function Kept(t: Tables, left: seq<Outcome>): seq<DropRule> {
    if At(left, 0).Works? && At(left, 1).Works? then [] else Rules(t)
  }

  /** What the rule commands add up to. */
  predicate RulesReached(t: Tables, script: seq<Outcome>, clean: seq<string>, ips: seq<string>) {
    Kept(t, AfterChain(t, script, ips)) + Readable(Survivors(AllRules(clean), AfterFlush(t, script, ips))) == RulesFor(clean)
  }

  /** A push that returns reaches its goal: a jump that is there is found, of the addresses sent one by one none is
      refused, and the rules kept and gained are the rules wanted. */
  predicate Reaches(s: Session, clean: seq<string>, ips: seq<string>) {
    && (Jump in s.t.forward ==> Found(s.t, AfterSet(s.script, ips)))
    && (Listed(ips) != [] && At(s.script, 2).Refused? ==> AllWork(Rest(s.script, 3), 0, |Listed(ips)|))
    && RulesReached(s.t, s.script, clean, ips)
  }

  /** On a chain that was empty, or has been emptied, the rules are those wanted if and only if no rule iptables can
      read is refused. */
  lemma RulesReachedIff(s: Session, clean: seq<string>, ips: seq<string>)
    requires PushReturns(s, clean, ips) && Kept(s.t, AfterChain(s.t, s.script, ips)) == []
    ensures RulesReached(s.t, s.script, clean, ips) <==> ReadableWork(AllRules(clean), AfterFlush(s.t, s.script, ips))
  {
    hide AllRules, AfterFlush, AfterChain, AfterSet, NoLoss, SetReturns, ChainReturns, RulesFor, Readable, ReadableWork;
    var script := AfterFlush(s.t, s.script, ips);
    ThreePerMac(clean);
    AllGoInIff(AllRules(clean), script);
    AllReadableRules(clean);
    assert [] + Readable(Survivors(AllRules(clean), script)) == Readable(Survivors(AllRules(clean), script));
  }

  lemma FillSetReachesIff(s: Session, list: seq<string>)
    requires s.t.ipset == Some({}) && FillSet(s, list).ok
    requires forall i, j :: 0 <= i < j < |list| ==> list[i] != list[j]
    ensures FillSet(s, list).s.t.ipset == Some(Elements(list)) <==>
      (list != [] && At(s.script, 0).Refused? ==> AllWork(Rest(s.script, 1), 0, |list|))
  {
    hide AllWork, AddOneByOne;
    Shift(s.script);
    assert {} + Elements(list) == Elements(list);
    if list == [] {
      assert Elements(list) == {};
    } else if At(s.script, 0).Refused? {
      var sent := AddToSet(s, list).0;
      AddOneByOneAdds(sent, list);
      AllArriveIff(list, sent.script);
      assert {} + Elements(Survivors(list, sent.script)) == Elements(Survivors(list, sent.script));
    }
  }

  lemma ListedOnce(ips: seq<string>)
    ensures forall i, j :: 0 <= i < j < |Listed(ips)| ==> Listed(ips)[i] != Listed(ips)[j]
  {
    var list := Listed(ips);
    forall i, j | 0 <= i < j < |list| ensures list[i] != list[j] {
      BeforeTotal(list[i], list[j]);
    }
  }

  lemma EnsureIpsetReachesIff(s: Session, ips: seq<string>)
    requires EnsureIpset(s, ips).ok
    ensures EnsureIpset(s, ips).s.t.ipset == Some(Nets(ips)) <==>
      (Listed(ips) != [] && At(s.script, 2).Refused? ==> AllWork(Rest(s.script, 3), 0, |Listed(ips)|))
  {
    hide FillSet, AllWork, SortedSet, Stripped, Elements;
    Shift(s.script);
    RestAt(s.script, 1);
    RestAt(s.script, 2);
    RestRest(s.script, 2, 1);
    SameElements(ips);
    ListedOnce(ips);
    FillSetReachesIff(FlushSet(CreateSet(s).0).0, Listed(ips));
  }

  /** A push that returns leaves exactly the tables it is for if and only if `Reaches`; a refused rule or address is
      not noticed. */
  lemma PushReachesIff(s: Session, clean: seq<string>, ips: seq<string>)
    requires Kernel(s.t) && Push(s, clean, ips).ok
    ensures Push(s, clean, ips).s.t == Tables(WithJump(s.t.forward), Some(RulesFor(clean)), Some(Nets(ips))) <==>
      Reaches(s, clean, ips)
  {
    PushReturnsIff(s, clean, ips);
    hide EnsureIpset, EnsureChain, FlushChain, AddRules, AllRules, SetReturns, SetCount, ChainReturns, NoLoss, Nets, RulesFor, Kernel,
      Readable, AllWork, Found, Listed;
    PushStages(s, ips);
    EnsureIpsetReachesIff(s, ips);
    var a := EnsureIpset(s, ips).s;
    var b := EnsureChain(a).s;
    FlushChainReturnsIff(b);
    var c := FlushChain(b).s;
    AddRulesAdds(c, AllRules(clean), 0);
    AddRulesKeeps(c, AllRules(clean), 0);
    FoundIsThere(s.t, AfterSet(s.script, ips));
    JumpInFront(s.t.forward);
  }

  /** The same for a whole apply that returns: what it is for is there afterwards if and only if nothing it had to
      do was refused. */
  lemma ApplyReachesIff(s: Session, macs: seq<string>, ips: seq<string>)
    requires Kernel(s.t) && Apply(s, macs, ips).ok
    ensures CleanMacs(macs) == [] ==> (Apply(s, macs, ips).s.t == Untouched(s.t) <==> Restores(AfterProbe(s)))
    ensures CleanMacs(macs) != [] ==>
      (Apply(s, macs, ips).s.t == Installed(s.t, macs, ips) <==> Reaches(AfterProbe(s), CleanMacs(macs), ips))
  {
    hide TearDown, Push, CleanMacs, Kernel, Untouched, Restores, Reaches, RulesFor, Nets, WithJump;
    if CleanMacs(macs) == [] {
      TearDownRestoresExactly(AfterProbe(s));
    } else {
      PushReachesIff(AfterProbe(s), CleanMacs(macs), ips);
    }
  }

  lemma FoundIsThere(t: Tables, script: seq<Outcome>)
    ensures Found(t, script) ==> Jump in t.forward
  {
  }

  lemma JumpInFront(rules: seq<ForwardRule>)
    ensures |[Jump] + rules| != |rules|
  {
  }
}
