/** The SSH stage: commands sent one by one to a router that may refuse one or drop the connection at any point. */
module SshClient {
  import opened Records
  import opened Text
  import opened Sorting
  import opened Firewall
  import P = DohSteps

  class Router {
    var forward: seq<ForwardRule>
    var chain: Option<seq<DropRule>>
    var ipset: Option<set<string>>
    /** The outcomes still to come; after them everything works. */
    var script: seq<P.Outcome>

    constructor (t: Tables, outcomes: seq<P.Outcome>)
      ensures Now() == P.Session(t, outcomes)
    {
      forward, chain, ipset, script := t.forward, t.chain, t.ipset, outcomes;
    }

    function State(): Tables
      reads this`forward, this`chain, this`ipset
    {
      Tables(forward, chain, ipset)
    }

    function Now(): P.Session
      reads this
    {
      P.Session(State(), script)
    }

    method Next(possible: bool) returns (o: P.Outcome)
      modifies this`script
      ensures o == P.Answer(P.Head(old(script)), possible) && script == P.Tail(old(script))
    {
      o := P.Answer(P.Head(script), possible);
      script := P.Tail(script);
    }

    // ---- the commands -------------------------------------------------------------------------------

    method Probe() returns (o: P.Outcome)
      modifies this`script
      ensures (Now(), o) == P.Probe(old(Now()))
    {
      o := Next(true);
    }

    method NewChain() returns (o: P.Outcome)
      modifies this`script, this`chain
      ensures (Now(), o) == P.NewChain(old(Now()))
    {
      o := Next(chain.None?);
      if o.Works? { chain := Some([]); }
    }

    method CheckJump() returns (o: P.Outcome)
      modifies this`script
      ensures (Now(), o) == P.CheckJump(old(Now()))
    {
      o := Next(Jump in forward);
    }

    method InsertJump() returns (o: P.Outcome)
      modifies this`script, this`forward
      ensures (Now(), o) == P.InsertJump(old(Now()))
    {
      o := Next(chain.Some?);
      if o.Works? { forward := [Jump] + forward; }
    }

    method DeleteJump() returns (o: P.Outcome)
      modifies this`script, this`forward
      ensures (Now(), o) == P.DeleteJump(old(Now()))
    {
      o := Next(Jump in forward);
      if o.Works? { forward := WithoutFirstJump(forward); }
    }

    method ListChain() returns (o: P.Outcome, rules: nat)
      modifies this`script
      ensures (Now(), o) == P.ListChain(old(Now()))
      ensures rules == if o.Works? then |P.Rules(State())| else 0
    {
      o := Next(chain.Some?);
      rules := if o.Works? then |chain.value| else 0;
    }

    method Flush() returns (o: P.Outcome)
      modifies this`script, this`chain
      ensures (Now(), o) == P.Flush(old(Now()))
    {
      o := Next(chain.Some?);
      if o.Works? { chain := Some([]); }
    }

    method Append(r: DropRule) returns (o: P.Outcome)
      modifies this`script, this`chain
      ensures (Now(), o) == P.Append(old(Now()), r)
    {
      o := Next(chain.Some? && ipset.Some? && Accepted(r.mac));
      if o.Works? { chain := Some(chain.value + [r]); }
    }

    method DeleteChain() returns (o: P.Outcome)
      modifies this`script, this`chain
      ensures (Now(), o) == P.DeleteChain(old(Now()))
    {
      o := Next(chain == Some([]) && Jump !in forward);
      if o.Works? { chain := None; }
    }

    method CreateSet() returns (o: P.Outcome)
      modifies this`script, this`ipset
      ensures (Now(), o) == P.CreateSet(old(Now()))
    {
      o := Next(true);
      if o.Works? && ipset.None? { ipset := Some({}); }
    }

    method FlushSet() returns (o: P.Outcome)
      modifies this`script, this`ipset
      ensures (Now(), o) == P.FlushSet(old(Now()))
    {
      o := Next(ipset.Some?);
      if o.Works? { ipset := Some({}); }
    }

    method AddToSet(nets: seq<string>) returns (o: P.Outcome)
      modifies this`script, this`ipset
      ensures (Now(), o) == P.AddToSet(old(Now()), nets)
    {
      o := Next(ipset.Some?);
      if o.Works? { ipset := Some(ipset.value + Elements(nets)); }
    }

    method DestroySet() returns (o: P.Outcome)
      modifies this`script, this`ipset
      ensures (Now(), o) == P.DestroySet(old(Now()))
    {
      o := Next(ipset.Some? && (chain.None? || chain.value == []));
      if o.Works? { ipset := None; }
    }

    // ---- the stage's steps; `ok` is false when they raise -------------------------------------------

    /** Creates, empties and fills the set; when the whole list is refused, address by address. */
    method EnsureIpset(ips: seq<string>) returns (ok: bool)
      modifies this`script, this`ipset
      ensures P.Step(Now(), ok, 0) == P.EnsureIpset(old(Now()), ips)
    {
      hide Elements;
      var list := SortedSet(Stripped(ips));
      var o := CreateSet();
      if !o.Works? { return false; }
      o := FlushSet();
      if !o.Works? { return false; }
      if list == [] { return true; }
      o := AddToSet(list);
      if o.Lost? { return false; }
      if o.Works? { return true; }
      ok := AddOneByOne(list);
    }

    method AddOneByOne(list: seq<string>) returns (ok: bool)
      modifies this`script, this`ipset
      ensures P.Step(Now(), ok, 0) == P.AddOneByOne(old(Now()), list)
    {
      hide Elements;
      for i := 0 to |list|
        invariant forward == old(forward) && chain == old(chain)
        invariant P.AddOneByOne(Now(), list[i..]) == P.AddOneByOne(old(Now()), list)
      {
        assert list[i..][1..] == list[i + 1..];
        var o := AddToSet([list[i]]);
        if o.Lost? { return false; }
      }
      return true;
    }

    /** Creates the chain and has FORWARD jump to it. */
    method EnsureChain() returns (ok: bool)
      modifies this`script, this`chain, this`forward
      ensures P.Step(Now(), ok, 0) == P.EnsureChain(old(Now()))
    {
      var o := NewChain();
      if o.Lost? { return false; }
      o := CheckJump();
      if o.Lost? { return false; }
      if o.Works? { return true; }
      o := InsertJump();
      return o.Works?;
    }

    method FlushChain() returns (ok: bool, removed: nat)
      modifies this`script, this`chain
      ensures P.Step(Now(), ok, removed) == P.FlushChain(old(Now()))
    {
      var o, rules := ListChain();
      if o.Lost? { return false, 0; }
      if o.Refused? { return true, 0; }
      o := Flush();
      return !o.Lost?, rules;
    }

    method TeardownChain() returns (ok: bool)
      modifies this`script, this`chain, this`forward
      ensures P.Step(Now(), ok, 0) == P.TeardownChain(old(Now()))
    {
      var o := DeleteJump();
      if o.Lost? { return false; }
      o := Flush();
      if o.Lost? { return false; }
      o := DeleteChain();
      return !o.Lost?;
    }

    /** Three rules per MAC; a refused rule is passed over, and those that go in are counted. */
    method AddDohDropRules(macs: seq<string>) returns (ok: bool, added: nat)
      modifies this`script, this`chain
      ensures P.Step(Now(), ok, added) == P.AddRules(old(Now()), P.AllRules(macs), 0)
    {
      hide Accepted;
      added := 0;
      for i := 0 to |macs|
        invariant forward == old(forward) && ipset == old(ipset)
        invariant P.AddRules(Now(), P.AllRules(macs[i..]), added) == P.AddRules(old(Now()), P.AllRules(macs), 0)
      {
        assert macs[i..][1..] == macs[i + 1..];
        var rules, rest := P.ThreeRules(Upper(macs[i])), P.AllRules(macs[i + 1..]);
        for j := 0 to |rules|
          invariant forward == old(forward) && ipset == old(ipset)
          invariant P.AddRules(Now(), rules[j..] + rest, added) == P.AddRules(old(Now()), P.AllRules(macs), 0)
        {
          assert (rules[j..] + rest)[1..] == rules[j + 1..] + rest;
          var o := Append(rules[j]);
          if o.Lost? { return false, added; }
          if o.Works? { added := added + 1; }
        }
        assert rules[|rules|..] + rest == rest;
      }
      return true, added;
    }

    /** The empty apply: flush, drop jump and chain, destroy the set. */
    method TearDown() returns (ok: bool, removed: nat)
      modifies this
      ensures P.Report(Now(), ok, removed, 0) == P.TearDown(old(Now()))
    {
      hide P.FlushChain, P.TeardownChain, P.DestroySet;
      ok, removed := FlushChain();
      if !ok { return; }
      ok := TeardownChain();
      if !ok { return; }
      var o := DestroySet();
      ok := !o.Lost?;
    }

    /** The nonempty apply: set, chain and jump, then fresh rules. */
    method Push(clean: seq<string>, ips: seq<string>) returns (ok: bool, removed: nat, added: nat)
      modifies this
      ensures P.Report(Now(), ok, removed, added) == P.Push(old(Now()), clean, ips)
    {
      hide P.EnsureIpset, P.EnsureChain, P.FlushChain, P.AddRules, P.AllRules;
      removed, added := 0, 0;
      ok := EnsureIpset(ips);
      if !ok { return; }
      ok := EnsureChain();
      if !ok { return; }
      ok, removed := FlushChain();
      if !ok { return; }
      ok, added := AddDohDropRules(clean);
    }

    /** Probes the router, then pushes, or tears down when no MAC is left.  What a whole apply reaches, and what a
        broken one leaves, are the lemmas about `DohSteps.Apply`; the kernel's invariant, the user's rules and the
        number of jumps are repeated here. */
    method ApplyDohBlocklist(macs: seq<string>, ips: seq<string>) returns (ok: bool, removed: nat, added: nat)
      modifies this
      ensures P.Report(Now(), ok, removed, added) == P.Apply(old(Now()), macs, ips)
      ensures P.Keeps(old(State()), State()) && Jumps(forward) <= Jumps(old(forward)) + 1
      ensures P.Reliable(old(script)) && Jumps(old(forward)) <= 1 ==> Jumps(forward) <= 1
      ensures P.Reliable(old(script)) && Kernel(old(State())) && ok ==>
        State() == if CleanMacs(macs) == [] then TornDown(old(State())) else Installed(old(State()), macs, ips)
    {
      hide P.TearDown, P.Push, P.Keeps, Jumps, Kernel, CleanMacs, TornDown, Installed, P.Reliable;
      P.ApplyKeeps(Now(), macs, ips);
      if P.Reliable(script) && Jumps(forward) <= 1 { P.ReliableKeepsOneJump(Now(), macs, ips); }
      if P.Reliable(script) && Kernel(State()) && P.Apply(Now(), macs, ips).ok { P.WholeApply(Now(), macs, ips); }
      removed, added := 0, 0;
      var o := Probe();
      if !o.Works? { return false, 0, 0; }
      if CleanMacs(macs) == [] {
        ok, removed := TearDown();
      } else {
        ok, removed, added := Push(CleanMacs(macs), ips);
      }
    }
  }
}
