/** The SSH stage as a function of the firewall and of how each command goes: what every command and every step
    does, whole or broken off. */
module DohSteps {
  import opened Records
  import opened Text
  import opened Sorting
  import opened Firewall

  /** How a command goes: it works as the tables allow, it is refused without effect, or the connection is lost. */
  datatype Outcome = Works | Refused | Lost

  /** The router's tables, and the outcomes still to come; after them everything works. */
  datatype Session = Session(t: Tables, script: seq<Outcome>)

  function Head(script: seq<Outcome>): Outcome {
    if script == [] then Works else script[0]
  }

  function Tail(script: seq<Outcome>): seq<Outcome> {
    if script == [] then [] else script[1..]
  }

  /** Commands fail only for what the tables say, or because the connection is gone. */
  predicate Reliable(script: seq<Outcome>) {
    Refused !in script
  }

  /** A command that is possible works as scripted; an impossible one is refused, unless the connection is lost. */
  function Answer(o: Outcome, possible: bool): Outcome {
    if o.Works? && !possible then Refused else o
  }

  function Send(s: Session, possible: bool, after: Tables): (Session, Outcome) {
    var o := Answer(Head(s.script), possible);
    (Session(if o.Works? then after else s.t, Tail(s.script)), o)
  }

  // ---- the commands -----------------------------------------------------------------------------

  function Rules(t: Tables): seq<DropRule> {
    if t.chain.Some? then t.chain.value else []
  }

  function Addresses(t: Tables): set<string> {
    if t.ipset.Some? then t.ipset.value else {}
  }

  /** Looking for ipset and set matching: no effect on our tables. */
  function Probe(s: Session): (Session, Outcome) { Send(s, true, s.t) }

  /** Makes the chain, unless it is there. */
  function NewChain(s: Session): (Session, Outcome) { Send(s, s.t.chain.None?, s.t.(chain := Some([]))) }

  /** Asks whether FORWARD jumps to the chain. */
  function CheckJump(s: Session): (Session, Outcome) { Send(s, Jump in s.t.forward, s.t) }

  /** Puts a jump first in FORWARD: needs the chain. */
  function InsertJump(s: Session): (Session, Outcome) { Send(s, s.t.chain.Some?, s.t.(forward := [Jump] + s.t.forward)) }

  /** Takes the first jump out of FORWARD. */
  function DeleteJump(s: Session): (Session, Outcome) {
    Send(s, Jump in s.t.forward, s.t.(forward := WithoutFirstJump(s.t.forward)))
  }

  /** Lists the chain. */
  function ListChain(s: Session): (Session, Outcome) { Send(s, s.t.chain.Some?, s.t) }

  /** Empties the chain. */
  function Flush(s: Session): (Session, Outcome) { Send(s, s.t.chain.Some?, s.t.(chain := Some([]))) }

  /** Appends a rule: needs the chain, the set the rule matches, and a MAC iptables can read. */
  function Append(s: Session, r: DropRule): (Session, Outcome) {
    Send(s, s.t.chain.Some? && s.t.ipset.Some? && Accepted(r.mac), s.t.(chain := Some(Rules(s.t) + [r])))
  }

  /** Deletes the chain: it must be empty and nothing jump to it. */
  function DeleteChain(s: Session): (Session, Outcome) {
    Send(s, s.t.chain == Some([]) && Jump !in s.t.forward, s.t.(chain := None))
  }

  /** Makes the set, or finds it there. */
  function CreateSet(s: Session): (Session, Outcome) { Send(s, true, s.t.(ipset := Some(Addresses(s.t)))) }

  /** Empties the set. */
  function FlushSet(s: Session): (Session, Outcome) { Send(s, s.t.ipset.Some?, s.t.(ipset := Some({}))) }

  /** Adds addresses to the set: the whole list, or a single one. */
  function AddToSet(s: Session, nets: seq<string>): (Session, Outcome) {
    Send(s, s.t.ipset.Some?, s.t.(ipset := Some(Addresses(s.t) + Elements(nets))))
  }

  /** Deletes the set: no rule may match it. */
  function DestroySet(s: Session): (Session, Outcome) {
    Send(s, s.t.ipset.Some? && Rules(s.t) == [], s.t.(ipset := None))
  }

  // ---- the steps; `ok` is false when they raise ------------------------------------------------------

  datatype Step = Step(s: Session, ok: bool, count: nat)

  /** The fallback when restoring the whole list is refused: refused addresses are left out. */
  function AddOneByOne(s: Session, list: seq<string>): Step
    decreases |list|
  {
    if list == [] then Step(s, true, 0)
    else
      var sent := AddToSet(s, [list[0]]);
      if sent.1.Lost? then Step(sent.0, false, 0) else AddOneByOne(sent.0, list[1..])
  }

  function FillSet(s: Session, list: seq<string>): Step {
    if list == [] then Step(s, true, 0)
    else
      var sent := AddToSet(s, list);
      if sent.1.Lost? then Step(sent.0, false, 0)
      else if sent.1.Refused? then AddOneByOne(sent.0, list)
      else Step(sent.0, true, 0)
  }

  function EnsureIpset(s: Session, ips: seq<string>): Step {
    var created := CreateSet(s);
    if !created.1.Works? then Step(created.0, false, 0)
    else
      var flushed := FlushSet(created.0);
      if !flushed.1.Works? then Step(flushed.0, false, 0) else FillSet(flushed.0, SortedSet(Stripped(ips)))
  }

  function EnsureChain(s: Session): Step {
    var made := NewChain(s);
    if made.1.Lost? then Step(made.0, false, 0)
    else
      var checked := CheckJump(made.0);
      if checked.1.Lost? then Step(checked.0, false, 0)
      else if checked.1.Works? then Step(checked.0, true, 0)
      else
        var inserted := InsertJump(checked.0);
        Step(inserted.0, inserted.1.Works?, 0)
  }

  /** `count` is the number of rules the chain listed. */
  function FlushChain(s: Session): Step {
    var listed := ListChain(s);
    if listed.1.Lost? then Step(listed.0, false, 0)
    else if listed.1.Refused? then Step(listed.0, true, 0)
    else
      var flushed := Flush(listed.0);
      Step(flushed.0, !flushed.1.Lost?, |Rules(s.t)|)
  }

  function TeardownChain(s: Session): Step {
    var deleted := DeleteJump(s);
    if deleted.1.Lost? then Step(deleted.0, false, 0)
    else
      var flushed := Flush(deleted.0);
      if flushed.1.Lost? then Step(flushed.0, false, 0)
      else
        var gone := DeleteChain(flushed.0);
        Step(gone.0, !gone.1.Lost?, 0)
  }

  /** The rules one MAC asks for, whether or not iptables can read the MAC. */
  function ThreeRules(mac: string): seq<DropRule> {
    [DropRule(mac, Tcp, 443), DropRule(mac, Udp, 443), DropRule(mac, Tcp, 853)]
  }

  function AllRules(macs: seq<string>): seq<DropRule> {
    if macs == [] then [] else ThreeRules(Upper(macs[0])) + AllRules(macs[1..])
  }

  /** Appends rule after rule, counting those that go in; a refused one is passed over. */
  function AddRules(s: Session, rules: seq<DropRule>, added: nat): Step
    decreases |rules|
  {
    if rules == [] then Step(s, true, added)
    else
      var sent := Append(s, rules[0]);
      if sent.1.Lost? then Step(sent.0, false, added)
      else AddRules(sent.0, rules[1..], added + if sent.1.Works? then 1 else 0)
  }

  datatype Report = Report(s: Session, ok: bool, removed: nat, added: nat)

  /** The empty apply. */
  function TearDown(s: Session): Report {
    var flushed := FlushChain(s);
    if !flushed.ok then Report(flushed.s, false, flushed.count, 0)
    else
      var torn := TeardownChain(flushed.s);
      if !torn.ok then Report(torn.s, false, flushed.count, 0)
      else
        var destroyed := DestroySet(torn.s);
        Report(destroyed.0, !destroyed.1.Lost?, flushed.count, 0)
  }

  /** The nonempty apply. */
  function Push(s: Session, clean: seq<string>, ips: seq<string>): Report {
    var filled := EnsureIpset(s, ips);
    if !filled.ok then Report(filled.s, false, 0, 0)
    else
      var chained := EnsureChain(filled.s);
      if !chained.ok then Report(chained.s, false, 0, 0)
      else
        var flushed := FlushChain(chained.s);
        if !flushed.ok then Report(flushed.s, false, flushed.count, 0)
        else
          var added := AddRules(flushed.s, AllRules(clean), 0);
          Report(added.s, added.ok, flushed.count, added.count)
  }

  /** One apply: the probe, then a push, or a tear-down when no MAC is left. */
  function Apply(s: Session, macs: seq<string>, ips: seq<string>): Report {
    var probed := Probe(s);
    if !probed.1.Works? then Report(probed.0, false, 0, 0)
    else if CleanMacs(macs) == [] then TearDown(probed.0)
    else Push(probed.0, CleanMacs(macs), ips)
  }

  // ---- what every script keeps -------------------------------------------------------------------------

  /** The kernel's own invariant and the user's rules. */
  ghost predicate Keeps(a: Tables, b: Tables) {
    (Kernel(a) ==> Kernel(b)) && UserRules(b.forward) == UserRules(a.forward)
  }

  /** Commands on the set and on the rules of the chain. */
  lemma ContentsKeep(s: Session, r: DropRule, nets: seq<string>)
    ensures Keeps(s.t, CreateSet(s).0.t) && Keeps(s.t, FlushSet(s).0.t) && Keeps(s.t, AddToSet(s, nets).0.t)
    ensures Keeps(s.t, DestroySet(s).0.t) && Keeps(s.t, Append(s, r).0.t) && Keeps(s.t, Flush(s).0.t)
  {
    hide UserRules, Accepted, Elements;
  }

  /** Commands on the chain itself and on the jump. */
  lemma ChainKeeps(s: Session)
    ensures Keeps(s.t, NewChain(s).0.t) && Keeps(s.t, InsertJump(s).0.t)
    ensures Keeps(s.t, DeleteJump(s).0.t) && Keeps(s.t, DeleteChain(s).0.t)
    ensures Jumps(DeleteJump(s).0.t.forward) <= Jumps(s.t.forward)
    ensures Jumps(InsertJump(s).0.t.forward) <= Jumps(s.t.forward) + 1
  {
    hide UserRules, Jumps;
    JumpsCount(s.t.forward);
    WithJumpCounts(s.t.forward);
  }

  lemma {:induction false} AddOneByOneKeeps(s: Session, list: seq<string>)
    ensures
      var t := AddOneByOne(s, list).s.t;
      Keeps(s.t, t) && t.forward == s.t.forward && t.chain == s.t.chain && t.ipset.Some? == s.t.ipset.Some?
    decreases |list|
  {
    hide UserRules, Kernel, Elements;
    if list != [] {
      ContentsKeep(s, DropRule("", Tcp, 0), [list[0]]);
      AddOneByOneKeeps(AddToSet(s, [list[0]]).0, list[1..]);
    }
  }

  lemma FillSetKeeps(s: Session, list: seq<string>)
    ensures
      var t := FillSet(s, list).s.t;
      Keeps(s.t, t) && t.forward == s.t.forward && t.chain == s.t.chain && t.ipset.Some? == s.t.ipset.Some?
  {
    hide UserRules, Kernel, Elements;
    ContentsKeep(s, DropRule("", Tcp, 0), list);
    AddOneByOneKeeps(AddToSet(s, list).0, list);
  }

  lemma EnsureIpsetKeeps(s: Session, ips: seq<string>)
    ensures
      var step := EnsureIpset(s, ips);
      && Keeps(s.t, step.s.t) && step.s.t.forward == s.t.forward && step.s.t.chain == s.t.chain
      && (step.s.t.ipset.Some? <==> s.t.ipset.Some? || Head(s.script).Works?)
      && (step.ok ==> step.s.t.ipset.Some?)
  {
    hide UserRules, Kernel, Elements, SortedSet, Stripped, FillSet;
    var made := CreateSet(s).0;
    ContentsKeep(s, DropRule("", Tcp, 0), []);
    ContentsKeep(made, DropRule("", Tcp, 0), []);
    FillSetKeeps(FlushSet(made).0, SortedSet(Stripped(ips)));
  }

  /** A refused check doubles a jump that is there; nothing else adds one to a jump. */
  lemma EnsureChainKeeps(s: Session)
    ensures
      var step := EnsureChain(s);
      && Keeps(s.t, step.s.t) && step.s.t.ipset == s.t.ipset
      && Jumps(step.s.t.forward) <= Jumps(s.t.forward) + 1
      && (step.ok && Kernel(s.t) ==> step.s.t.chain.Some?)
      && (step.ok && s.t.chain.Some? && Head(Tail(s.script)).Refused? ==> Jumps(step.s.t.forward) == Jumps(s.t.forward) + 1)
      && (Head(s.script).Lost? ==> step.s.t == s.t)
  {
    hide UserRules, Jumps;
    ChainKeeps(s);
    var checked := CheckJump(NewChain(s).0).0;
    ChainKeeps(checked);
    WithJumpCounts(checked.t.forward);
  }

  lemma {:induction false} AddRulesKeeps(s: Session, rules: seq<DropRule>, added: nat)
    ensures
      var step := AddRules(s, rules, added);
      && Keeps(s.t, step.s.t) && step.s.t.forward == s.t.forward && step.s.t.ipset == s.t.ipset
      && step.s.t.chain.Some? == s.t.chain.Some?
      && |Rules(step.s.t)| == |Rules(s.t)| + step.count - added
    decreases |rules|
  {
    hide UserRules, Kernel, Accepted;
    if rules != [] {
      var sent := Append(s, rules[0]);
      ContentsKeep(s, rules[0], []);
      AddRulesKeeps(sent.0, rules[1..], added + if sent.1.Works? then 1 else 0);
    }
  }

  lemma FlushChainKeeps(s: Session)
    ensures Keeps(s.t, FlushChain(s).s.t)
    ensures FlushChain(s).s.t == s.t || (s.t.chain.Some? && FlushChain(s).s.t == s.t.(chain := Some([])))
  {
    hide UserRules, Kernel;
    ContentsKeep(ListChain(s).0, DropRule("", Tcp, 0), []);
  }

  lemma TeardownChainKeeps(s: Session)
    ensures Keeps(s.t, TeardownChain(s).s.t) && Jumps(TeardownChain(s).s.t.forward) <= Jumps(s.t.forward)
  {
    hide UserRules, Kernel, Jumps, WithoutFirstJump;
    ChainKeeps(s);
    var deleted := DeleteJump(s).0;
    ContentsKeep(deleted, DropRule("", Tcp, 0), []);
    ChainKeeps(Flush(deleted).0);
  }

  lemma TearDownKeeps(s: Session)
    ensures Keeps(s.t, TearDown(s).s.t) && Jumps(TearDown(s).s.t.forward) <= Jumps(s.t.forward)
  {
    hide UserRules, Kernel, Jumps, FlushChain, TeardownChain;
    FlushChainKeeps(s);
    var flushed := FlushChain(s).s;
    TeardownChainKeeps(flushed);
    ContentsKeep(TeardownChain(flushed).s, DropRule("", Tcp, 0), []);
  }

  lemma PushKeeps(s: Session, clean: seq<string>, ips: seq<string>)
    ensures
      var r := Push(s, clean, ips);
      && Keeps(s.t, r.s.t) && Jumps(r.s.t.forward) <= Jumps(s.t.forward) + 1
      && (r.s.t.ipset.Some? <==> s.t.ipset.Some? || Head(s.script).Works?)
      && (r.ok ==> r.s.t.ipset.Some?)
      && (!Head(s.script).Works? ==> r.s.t == s.t && !r.ok)
  {
    hide UserRules, Kernel, Jumps, FillSet, EnsureChain, FlushChain, AddRules;
    EnsureIpsetKeeps(s, ips);
    var a := EnsureIpset(s, ips).s;
    EnsureChainKeeps(a);
    var b := EnsureChain(a).s;
    FlushChainKeeps(b);
    AddRulesKeeps(FlushChain(b).s, AllRules(clean), 0);
  }

  /** Whatever is refused and wherever the connection is lost, an apply leaves no jump without its chain, no rule
      without its set, and the user's rules as they were; it adds at most one jump. */
  lemma ApplyKeeps(s: Session, macs: seq<string>, ips: seq<string>)
    ensures
      var t := Apply(s, macs, ips).s.t;
      Keeps(s.t, t) && Jumps(t.forward) <= Jumps(s.t.forward) + 1
  {
    hide UserRules, Kernel, Jumps, TearDown, Push, CleanMacs;
    var probed := Probe(s).0;
    TearDownKeeps(probed);
    PushKeeps(probed, CleanMacs(macs), ips);
  }

  // ---- reliable scripts -----------------------------------------------------------------------------

  lemma ReliableTail(script: seq<Outcome>)
    requires Reliable(script)
    ensures Reliable(Tail(script)) && !Head(script).Refused?
  {
  }

  /** The rules iptables can read. */
  function Readable(rules: seq<DropRule>): seq<DropRule> {
    if rules == [] then [] else (if Accepted(rules[0].mac) then [rules[0]] else []) + Readable(rules[1..])
  }

  lemma {:induction false} ReadableConcat(a: seq<DropRule>, b: seq<DropRule>)
    ensures Readable(a + b) == Readable(a) + Readable(b)
  {
    hide Accepted;
    if a == [] {
      assert a + b == b;
    } else {
      assert (a + b)[1..] == a[1..] + b;
      ReadableConcat(a[1..], b);
    }
  }

  /** The rules of a list that go in when none is refused. */
  function Taken(t: Tables, rules: seq<DropRule>): seq<DropRule> {
    if t.chain.Some? && t.ipset.Some? then Readable(rules) else []
  }

  /** The items whose command is neither refused nor cut off by the loss of the connection. */
  function Survivors<T>(items: seq<T>, script: seq<Outcome>): seq<T>
    decreases |items|
  {
    if items == [] || Head(script).Lost? then []
    else (if Head(script).Works? then [items[0]] else []) + Survivors(items[1..], Tail(script))
  }

  lemma ReadableCons(r: DropRule, rest: seq<DropRule>)
    ensures Readable([r] + rest) == (if Accepted(r.mac) then [r] else []) + Readable(rest)
  {
    assert ([r] + rest)[1..] == rest;
  }

  lemma AppendTakes(s: Session, r: DropRule, rest: seq<DropRule>)
    requires Head(s.script).Works?
    ensures
      var t := Append(s, r).0.t;
      Rules(t) + Taken(t, rest) == Rules(s.t) + Taken(s.t, [r] + rest)
  {
    hide Accepted, Readable;
    ReadableCons(r, rest);
    if s.t.chain.Some? && s.t.ipset.Some? && Accepted(r.mac) {
      assert (Rules(s.t) + [r]) + Readable(rest) == Rules(s.t) + ([r] + Readable(rest));
    } else {
      assert [] + Readable(rest) == Readable(rest);
    }
  }

  /** Whatever the script, the chain gains exactly the readable rules whose command was not refused or lost. */
  lemma {:induction false} AddRulesAdds(s: Session, rules: seq<DropRule>, added: nat)
    ensures Rules(AddRules(s, rules, added).s.t) == Rules(s.t) + Taken(s.t, Survivors(rules, s.script))
    decreases |rules|
  {
    if rules != [] && !Head(s.script).Lost? {
      hide Taken, Rules, Readable, Accepted;
      var rest := Survivors(rules[1..], Tail(s.script));
      if Head(s.script).Works? {
        AppendTakes(s, rules[0], rest);
      } else {
        assert Survivors(rules, s.script) == [] + rest == rest;
      }
      var sent := Append(s, rules[0]);
      AddRulesAdds(sent.0, rules[1..], added + if sent.1.Works? then 1 else 0);
    }
  }

  lemma {:induction false} ReliableAllSurvive(s: Session, rules: seq<DropRule>, added: nat)
    requires Reliable(s.script) && AddRules(s, rules, added).ok
    ensures Survivors(rules, s.script) == rules && Reliable(AddRules(s, rules, added).s.script)
    decreases |rules|
  {
    if rules != [] {
      hide Append;
      ReliableTail(s.script);
      var sent := Append(s, rules[0]);
      ReliableAllSurvive(sent.0, rules[1..], added + if sent.1.Works? then 1 else 0);
    }
  }

  /** After the fallback the set has gained exactly the addresses that were not refused or lost. */
  lemma {:induction false} AddOneByOneAdds(s: Session, list: seq<string>)
    requires s.t.ipset.Some?
    ensures AddOneByOne(s, list).s.t.ipset == Some(s.t.ipset.value + Elements(Survivors(list, s.script)))
    decreases |list|
  {
    if list == [] || Head(s.script).Lost? {
      assert s.t.ipset.value + Elements([]) == s.t.ipset.value;
    } else {
      var sent := AddToSet(s, [list[0]]).0;
      var rest := Survivors(list[1..], Tail(s.script));
      AddOneByOneAdds(sent, list[1..]);
      assert [] + rest == rest;
      assert (s.t.ipset.value + Elements([list[0]])) + Elements(rest) == s.t.ipset.value + Elements([list[0]] + rest);
    }
  }

  lemma ReadableThree(mac: string)
    ensures Readable(ThreeRules(Upper(mac))) == RulesOf(mac)
  {
    hide Accepted, Upper;
    var rules := ThreeRules(Upper(mac));
    assert rules[1..] == [rules[1], rules[2]] && rules[1..][1..] == [rules[2]] && [rules[2]][1..] == [];
    assert Readable([rules[2]]) == if Accepted(Upper(mac)) then [rules[2]] else [];
    assert Readable([rules[1], rules[2]]) == if Accepted(Upper(mac)) then [rules[1], rules[2]] else [];
  }

  lemma {:induction false} AllReadableRules(macs: seq<string>)
    ensures Readable(AllRules(macs)) == RulesFor(macs)
  {
    if macs != [] {
      hide ThreeRules, Readable, RulesOf;
      AllReadableRules(macs[1..]);
      ReadableThree(macs[0]);
      ReadableConcat(ThreeRules(Upper(macs[0])), AllRules(macs[1..]));
    }
  }

  lemma FillSetReliable(s: Session, list: seq<string>)
    requires Reliable(s.script) && s.t.ipset == Some({}) && FillSet(s, list).ok
    ensures FillSet(s, list).s.t == s.t.(ipset := Some(Elements(list))) && Reliable(FillSet(s, list).s.script)
  {
    ReliableTail(s.script);
    assert {} + Elements(list) == Elements(list);
    assert list == [] ==> Elements(list) == {};
  }

  lemma EnsureIpsetReliable(s: Session, ips: seq<string>)
    requires Reliable(s.script) && EnsureIpset(s, ips).ok
    ensures
      var step := EnsureIpset(s, ips);
      && step.s.t == s.t.(ipset := Some(Nets(ips))) && Reliable(step.s.script)
      && step.s.t.ipset == Some(set raw | raw in ips && Strip(raw) != "" :: Strip(raw))
  {
    hide FillSet, Elements;
    ReliableTail(s.script);
    ReliableTail(Tail(s.script));
    SameElements(ips);
    FillSetReliable(FlushSet(CreateSet(s).0).0, SortedSet(Stripped(ips)));
  }

  lemma SameElements(ips: seq<string>)
    ensures Elements(SortedSet(Stripped(ips))) == Nets(ips)
  {
    StrippedHolds(ips);
  }

  /** A reliable step never puts a second jump in, even when it breaks off. */
  lemma EnsureChainReliable(s: Session)
    requires Reliable(s.script)
    ensures
      var step := EnsureChain(s);
      && (step.s.t.forward == s.t.forward || step.s.t.forward == WithJump(s.t.forward))
      && Reliable(step.s.script)
      && (step.ok ==> step.s.t == Tables(WithJump(s.t.forward), if s.t.chain.None? then Some([]) else s.t.chain, s.t.ipset))
  {
    ReliableTail(s.script);
    ReliableTail(Tail(s.script));
    ReliableTail(Tail(Tail(s.script)));
  }

  lemma FlushChainReliable(s: Session)
    requires Reliable(s.script) && FlushChain(s).ok
    ensures
      var step := FlushChain(s);
      && Reliable(step.s.script) && step.count == |Rules(s.t)|
      && step.s.t == s.t.(chain := if s.t.chain.Some? then Some([]) else None)
  {
    ReliableTail(s.script);
    ReliableTail(Tail(s.script));
  }

  lemma TeardownChainReliable(s: Session)
    requires Reliable(s.script) && Kernel(s.t) && TeardownChain(s).ok
    ensures
      var step, forward := TeardownChain(s), WithoutFirstJump(s.t.forward);
      && Reliable(step.s.script)
      && step.s.t == Tables(forward, if Jump in forward then Some([]) else None, s.t.ipset)
  {
    hide UserRules, Jumps;
    ReliableTail(s.script);
    ReliableTail(Tail(s.script));
    ReliableTail(Tail(Tail(s.script)));
    JumpsCount(s.t.forward);
  }

  /** A whole reliable apply reaches exactly the tables it is for, and counts what it removed and added. */
  lemma WholeApply(s: Session, macs: seq<string>, ips: seq<string>)
    requires Reliable(s.script) && Kernel(s.t) && Apply(s, macs, ips).ok
    ensures
      var r := Apply(s, macs, ips);
      && r.s.t == (if CleanMacs(macs) == [] then TornDown(s.t) else Installed(s.t, macs, ips))
      && r.removed == |Rules(s.t)| && r.added == |RulesFor(CleanMacs(macs))|
  {
    hide CleanMacs, EnsureIpset, EnsureChain, FlushChain, TeardownChain, AddRules, AllRules, RulesFor, Nets;
    ReliableTail(s.script);
    var probed, clean := Probe(s).0, CleanMacs(macs);
    if clean == [] {
      WholeTearDown(probed);
    } else {
      WholePush(probed, clean, ips);
    }
  }

  lemma WholeTearDown(s: Session)
    requires Reliable(s.script) && Kernel(s.t) && TearDown(s).ok
    ensures TearDown(s).s.t == TornDown(s.t) && TearDown(s).removed == |Rules(s.t)| && TearDown(s).added == |RulesFor([])|
  {
    hide FlushChain, TeardownChain, UserRules, WithoutFirstJump;
    FlushChainReliable(s);
    var flushed := FlushChain(s).s;
    TeardownChainReliable(flushed);
    ReliableTail(TeardownChain(flushed).s.script);
  }

  lemma WholePush(s: Session, clean: seq<string>, ips: seq<string>)
    requires Reliable(s.script) && Push(s, clean, ips).ok
    ensures
      var r := Push(s, clean, ips);
      && r.s.t == Tables(WithJump(s.t.forward), Some(RulesFor(clean)), Some(Nets(ips)))
      && r.removed == |Rules(s.t)| && r.added == |RulesFor(clean)|
  {
    hide EnsureIpset, EnsureChain, FlushChain, AddRules, AllRules, RulesFor, Nets, WithJump, Readable;
    EnsureIpsetReliable(s, ips);
    var a := EnsureIpset(s, ips).s;
    EnsureChainReliable(a);
    var b := EnsureChain(a).s;
    FlushChainReliable(b);
    var c := FlushChain(b).s;
    ReliableAllSurvive(c, AllRules(clean), 0);
    AddRulesAdds(c, AllRules(clean), 0);
    AddRulesKeeps(c, AllRules(clean), 0);
    AllReadableRules(clean);
    assert [] + RulesFor(clean) == RulesFor(clean);
  }

  /** Reliable or not broken off, no second jump: with a reliable script one jump stays one jump. */
  lemma ReliableKeepsOneJump(s: Session, macs: seq<string>, ips: seq<string>)
    requires Reliable(s.script) && Jumps(s.t.forward) <= 1
    ensures Jumps(Apply(s, macs, ips).s.t.forward) <= 1
  {
    hide CleanMacs, EnsureIpset, EnsureChain, FlushChain, AddRules, AllRules, TearDown, Jumps, WithJump;
    ReliableTail(s.script);
    var probed, clean := Probe(s).0, CleanMacs(macs);
    TearDownKeeps(probed);
    EnsureIpsetKeeps(probed, ips);
    var a := EnsureIpset(probed, ips).s;
    if EnsureIpset(probed, ips).ok {
      EnsureIpsetReliable(probed, ips);
      EnsureChainReliable(a);
    }
    WithJumpCounts(a.t.forward);
    var b := EnsureChain(a).s;
    FlushChainKeeps(b);
    AddRulesKeeps(FlushChain(b).s, AllRules(clean), 0);
  }

  // ---- the first push ----------------------------------------------------------------------------------

  /** On a firewall without us a nonempty apply, whole or broken off, leaves the firewall alone if and only if it
      got no further than the probe or the set's creation. */
  lemma NonemptyApplyLeavesAloneIff(s: Session, macs: seq<string>, ips: seq<string>)
    requires s.t == Untouched(s.t) && CleanMacs(macs) != []
    ensures
      var t := Apply(s, macs, ips).s.t;
      t == Untouched(t) <==> !(Head(s.script).Works? && Head(Tail(s.script)).Works?)
  {
    hide CleanMacs, Push, UserRules, Kernel, Jumps;
    PushKeeps(Probe(s).0, CleanMacs(macs), ips);
  }

  lemma UsersHaveNoJump(rules: seq<ForwardRule>)
    ensures Jump !in UserRules(rules)
  {
    assert forall r :: r in UserRules(rules) ==> r.UserRule?;
  }

  /** An empty apply on a firewall without us has nothing to do. */
  lemma EmptyApplyLeavesAlone(s: Session, macs: seq<string>, ips: seq<string>)
    requires s.t == Untouched(s.t) && CleanMacs(macs) == []
    ensures Apply(s, macs, ips).s.t == s.t
  {
    hide CleanMacs, UserRules, WithoutFirstJump;
    UsersHaveNoJump(s.t.forward);
  }
}
