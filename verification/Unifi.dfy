/** The UniFi adapter against a controller whose rules the user may edit and delete: one managed rule per
    stage, tracked by a cached id and the body last pushed. */
module Unifi {
  import opened Records
  import opened TrafficRule

  /** A rule as the controller lists it; a blank id stands for a row listed without one. */
  datatype Rule = Rule(id: string, body: Body)

  /** The three settings of a stage.  The body hash is modelled by the body itself. */
  datatype Memory = Memory(ruleId: Option<string>, macs: seq<string>, pushed: Option<Body>)

  const FORGOTTEN := Memory(None, [], None)

  /** How the controller behaves during one call: which requests fail without effect, the id a new row is listed
      under, and whether the answer to its creation carries that id. */
  datatype Answers = Answers(listFails: bool, updateFails: bool, createFails: bool, deleteFails: bool, rowId: string, answersId: bool)

  datatype Status = Skipped(id: string) | Updated(id: string) | Created(id: string) | Error

  predicate HasId(rules: seq<Rule>, id: string) {
    exists i :: 0 <= i < |rules| && rules[i].id == id
  }

  predicate HasRule(rules: seq<Rule>, id: string, body: Body) {
    exists i :: 0 <= i < |rules| && rules[i] == Rule(id, body)
  }

  /** First listed rule with the managed name and an id. */
  function Discover(rules: seq<Rule>, name: string): (found: Option<string>)
    ensures found.Some? ==> exists i :: 0 <= i < |rules| && rules[i].body.name == name && rules[i].id == found.value != ""
    ensures found.None? ==> forall i :: 0 <= i < |rules| ==> rules[i].body.name != name || rules[i].id == ""
  {
    if rules == [] then None
    else if rules[0].body.name == name && rules[0].id != "" then Some(rules[0].id)
    else
      var rest := Discover(rules[1..], name);
      assert forall i :: 0 <= i < |rules[1..]| ==> rules[1..][i] == rules[i + 1];
      rest
  }

  function Put(rules: seq<Rule>, id: string, body: Body): (r: seq<Rule>)
    ensures |r| == |rules|
    ensures forall i :: 0 <= i < |rules| ==> r[i] == if rules[i].id == id then Rule(id, body) else rules[i]
  {
    seq(|rules|, i requires 0 <= i < |rules| => if rules[i].id == id then Rule(id, body) else rules[i])
  }

  function Delete(rules: seq<Rule>, id: string): (r: seq<Rule>)
    ensures forall x :: x in r <==> x in rules && x.id != id
  {
    if rules == [] then []
    else
      assert rules == [rules[0]] + rules[1..];
      (if rules[0].id == id then [] else [rules[0]]) + Delete(rules[1..], id)
  }

  datatype Outcome = Outcome(rules: seq<Rule>, memory: Memory, status: Status)

  predicate Skips(m: Memory, body: Body, macs: seq<string>) {
    m.ruleId.Some? && m.pushed == Some(body) && m.macs == macs
  }

  /** POST: the row appears; without an id in the answer the settings stay as they are. */
  function CreateRule(rules: seq<Rule>, m: Memory, body: Body, macs: seq<string>, a: Answers): Outcome {
    if a.createFails then Outcome(rules, m, Error)
    else if !a.answersId || a.rowId == "" then Outcome(rules + [Rule(a.rowId, body)], m, Error)
    else Outcome(rules + [Rule(a.rowId, body)], Memory(Some(a.rowId), macs, Some(body)), Created(a.rowId))
  }

  /** Pushing one managed rule. */
  function Push(rules: seq<Rule>, m: Memory, body: Body, macs: seq<string>, a: Answers): Outcome {
    if Skips(m, body, macs) then Outcome(rules, m, Skipped(m.ruleId.value))
    else if m.ruleId.None? && a.listFails then Outcome(rules, m, Error)
    else
      var id := if m.ruleId.Some? then m.ruleId else Discover(rules, body.name);
      if id.None? then CreateRule(rules, m, body, macs, a)
      else if a.updateFails then Outcome(rules, m, Error)
      else if HasId(rules, id.value) then
        Outcome(Put(rules, id.value, body), Memory(id, macs, Some(body)), Updated(id.value))
      else CreateRule(rules, m, body, macs, a)
  }

  /** Switching the DoH stage off deletes the cached rule and forgets it. */
  function TearDown(rules: seq<Rule>, m: Memory, a: Answers): Outcome {
    if m.ruleId.None? && m.macs == [] then Outcome(rules, m, Skipped(""))
    else if m.ruleId.Some? && a.deleteFails then Outcome(rules, m, Error)
    else Outcome(if m.ruleId.Some? then Delete(rules, m.ruleId.value) else rules, FORGOTTEN, Skipped(""))
  }

  // ---- the adapter ----------------------------------------------------------------------

  class Controller {
    var rules: seq<Rule>

    constructor (rules: seq<Rule>)
      ensures this.rules == rules
    {
      this.rules := rules;
    }
  }

  class UnifiAdapter {
    const controller: Controller
    var kill: Memory
    var doh: Memory

    constructor (controller: Controller)
      ensures this.controller == controller && kill == FORGOTTEN && doh == FORGOTTEN
    {
      this.controller, kill, doh := controller, FORGOTTEN, FORGOTTEN;
    }

    /** Skip, update, adopt or create, then remember what was pushed. */
    method ApplyManagedRule(memory: Memory, body: Body, macs: seq<string>, a: Answers)
      returns (remembered: Memory, status: Status)
      modifies controller
      ensures Outcome(controller.rules, remembered, status) == Push(old(controller.rules), memory, body, macs, a)
    {
      remembered := memory;
      var cachedId := memory.ruleId;
      if cachedId.Some? && memory.pushed == Some(body) && memory.macs == macs {
        return remembered, Skipped(cachedId.value);
      }
      if cachedId.None? {
        if a.listFails {
          return remembered, Error;
        }
        cachedId := DiscoverManagedRuleId(body.name);
      }
      var ruleId := cachedId;
      if ruleId.Some? {
        if a.updateFails {
          return remembered, Error;
        }
        var found := UpdateTrafficRule(ruleId.value, body);
        if found {
          status := Updated(ruleId.value);
        } else {
          ruleId := None;
        }
      }
      if ruleId.None? {
        if a.createFails {
          return remembered, Error;
        }
        controller.rules := controller.rules + [Rule(a.rowId, body)];
        if !a.answersId || a.rowId == "" {
          return remembered, Error;
        }
        ruleId := Some(a.rowId);
        status := Created(a.rowId);
      }
      remembered := Memory(ruleId, macs, Some(body));
    }

    method DiscoverManagedRuleId(name: string) returns (id: Option<string>)
      ensures id == Discover(controller.rules, name)
    {
      id := None;
      var i := 0;
      while i < |controller.rules|
        invariant 0 <= i <= |controller.rules|
        invariant Discover(controller.rules, name) == Discover(controller.rules[i..], name)
      {
        var r := controller.rules[i];
        assert controller.rules[i..][1..] == controller.rules[i + 1..];
        if r.body.name == name && r.id != "" {
          return Some(r.id);
        }
        i := i + 1;
      }
    }

    /** PUT; false stands for the 404 the controller answers when the row is gone. */
    method UpdateTrafficRule(id: string, body: Body) returns (found: bool)
      modifies controller
      ensures found == HasId(old(controller.rules), id)
      ensures controller.rules == if found then Put(old(controller.rules), id, body) else old(controller.rules)
    {
      found := HasId(controller.rules, id);
      if found {
        controller.rules := Put(controller.rules, id, body);
      }
    }

    method ApplyKillSwitch(desired: seq<string>, a: Answers) returns (status: Status)
      modifies this`kill, controller
      ensures
        var macs := DesiredMacs(desired);
        Outcome(controller.rules, kill, status) == Push(old(controller.rules), old(kill), KillSwitchRule(macs), macs, a)
    {
      var macs := DesiredMacs(desired);
      kill, status := ApplyManagedRule(kill, KillSwitchRule(macs), macs, a);
    }

    /** `appIds` is absent when discovery raises. */
    method ApplyDohBlock(desired: seq<string>, enabled: bool, appIds: Option<seq<string>>, a: Answers)
      returns (status: Status)
      modifies this`doh, controller
      ensures Outcome(controller.rules, doh, status) == DohOutcome(old(controller.rules), old(doh), desired, enabled, appIds, a)
    {
      if !enabled {
        if doh.ruleId.None? && doh.macs == [] {
          return Skipped("");
        }
        if doh.ruleId.Some? {
          if a.deleteFails {
            return Error;
          }
          controller.rules := Delete(controller.rules, doh.ruleId.value);
        }
        doh := FORGOTTEN;
        return Skipped("");
      }
      if appIds.None? || appIds.value == [] {
        return Error;
      }
      var macs := DesiredMacs(desired);
      doh, status := ApplyManagedRule(doh, DohBlockRule(macs, appIds.value), macs, a);
    }
  }

  function DohOutcome(rules: seq<Rule>, m: Memory, desired: seq<string>, enabled: bool, appIds: Option<seq<string>>,
          a: Answers): Outcome {
    if !enabled then TearDown(rules, m, a)
    else if appIds.None? || appIds.value == [] then Outcome(rules, m, Error)
    else Push(rules, m, DohBlockRule(DesiredMacs(desired), appIds.value), DesiredMacs(desired), a)
  }
}
