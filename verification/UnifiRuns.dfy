/** Whole runs of the UniFi adapter: ticks of both stages, failures, lost settings and user edits in any order. */
module UnifiRuns {
  import opened Records
  import opened TrafficRule
  import opened Unifi

  /** The controller, every id it has ever handed out, and the two stages' settings. */
  datatype World = World(rules: seq<Rule>, issued: set<string>, kill: Memory, doh: Memory)

  datatype Event =
    | Kill(desired: seq<string>, answers: Answers)
    | Doh(desired: seq<string>, enabled: bool, appIds: Option<seq<string>>, answers: Answers)
    | LoseKillId
    | LoseDohId
    | UserAdds(rule: Rule)
    | UserEdits(id: string, body: Body)
    | UserDeletes(id: string)

  predicate ManagedName(name: string) {
    name == KILL_SWITCH_NAME || name == DOH_BLOCK_NAME
  }

  /** The controller lists every row with an id it never reuses, and users do not make rules with the two
      reserved names; they may edit and delete any rule, ours included. */
  ghost predicate Fits(w: World, e: Event) {
    match e
    case Kill(desired, a) => a.rowId != "" && a.rowId !in w.issued
    case Doh(desired, enabled, appIds, a) => a.rowId != "" && a.rowId !in w.issued
    case UserAdds(rule) => rule.id != "" && rule.id !in w.issued && !ManagedName(rule.body.name)
    case UserEdits(id, body) => !ManagedName(body.name) || NamedAlready(w.rules, id, body.name)
    case _ => true
  }

  /** The edit keeps the name the rule has. */
  predicate NamedAlready(rules: seq<Rule>, id: string, name: string) {
    forall i :: 0 <= i < |rules| && rules[i].id == id ==> rules[i].body.name == name
  }

  function Next(w: World, e: Event): World {
    match e
    case Kill(desired, a) =>
      var o := Push(w.rules, w.kill, KillSwitchRule(DesiredMacs(desired)), DesiredMacs(desired), a);
      World(o.rules, w.issued + {a.rowId}, o.memory, w.doh)
    case Doh(desired, enabled, appIds, a) =>
      var o := DohOutcome(w.rules, w.doh, desired, enabled, appIds, a);
      World(o.rules, w.issued + {a.rowId}, w.kill, o.memory)
    case LoseKillId => w.(kill := w.kill.(ruleId := None))
    case LoseDohId => w.(doh := w.doh.(ruleId := None))
    case UserAdds(rule) => w.(rules := w.rules + [rule], issued := w.issued + {rule.id})
    case UserEdits(id, body) => w.(rules := Put(w.rules, id, body))
    case UserDeletes(id) => w.(rules := Delete(w.rules, id))
  }

  /** How the adapter's call in this event went. */
  function StatusOf(w: World, e: Event): Status {
    match e
    case Kill(desired, a) => Push(w.rules, w.kill, KillSwitchRule(DesiredMacs(desired)), DesiredMacs(desired), a).status
    case Doh(desired, enabled, appIds, a) => DohOutcome(w.rules, w.doh, desired, enabled, appIds, a).status
    case _ => Skipped("")
  }

  // ---- the invariant ----------------------------------------------------------------------

  /** Ids are issued, nonblank and used once. */
  predicate IdsDistinct(rules: seq<Rule>, issued: set<string>) {
    && (forall i :: 0 <= i < |rules| ==> rules[i].id != "" && rules[i].id in issued)
    && (forall i, j :: 0 <= i < j < |rules| ==> rules[i].id != rules[j].id)
  }

  /** At most one rule has the name, and if an id is cached that rule has it. */
  predicate OneRule(rules: seq<Rule>, m: Memory, name: string) {
    && (forall i, j :: 0 <= i < j < |rules| ==> rules[i].body.name != name || rules[j].body.name != name)
    && (m.ruleId.Some? ==> forall i :: 0 <= i < |rules| && rules[i].body.name == name ==> rules[i].id == m.ruleId.value)
  }

  /** The cached id was issued and does not belong to the other stage's rule. */
  predicate OwnsId(rules: seq<Rule>, issued: set<string>, m: Memory, other: string) {
    m.ruleId.Some? ==>
      m.ruleId.value in issued && forall i :: 0 <= i < |rules| && rules[i].id == m.ruleId.value ==> rules[i].body.name != other
  }

  ghost predicate Inv(w: World) {
    && IdsDistinct(w.rules, w.issued)
    && OneRule(w.rules, w.kill, KILL_SWITCH_NAME) && OneRule(w.rules, w.doh, DOH_BLOCK_NAME)
    && OwnsId(w.rules, w.issued, w.kill, DOH_BLOCK_NAME) && OwnsId(w.rules, w.issued, w.doh, KILL_SWITCH_NAME)
    && (w.kill.ruleId.Some? ==> w.kill.ruleId != w.doh.ruleId)
  }

  /** The rules keep every clause of the invariant that concerns a stage and its neighbour. */
  predicate StageInv(rules: seq<Rule>, issued: set<string>, m: Memory, other: Memory, name: string, otherName: string) {
    && IdsDistinct(rules, issued) && OneRule(rules, m, name) && OneRule(rules, other, otherName)
    && OwnsId(rules, issued, m, otherName) && OwnsId(rules, issued, other, name)
    && (m.ruleId.Some? ==> m.ruleId != other.ruleId)
  }

  /** Updating the row behind an id that is ours, or that carries our name. */
  lemma UpdateKeepsInv(rules: seq<Rule>, issued: set<string>, m: Memory, other: Memory, id: string, body: Body,
          macs: seq<string>, otherName: string)
    requires StageInv(rules, issued, m, other, body.name, otherName) && body.name != otherName
    requires Some(id) != other.ruleId && id in issued
    requires forall i :: 0 <= i < |rules| && rules[i].body.name == body.name ==> rules[i].id == id
    requires forall i :: 0 <= i < |rules| && rules[i].id == id ==> rules[i].body.name != otherName
    ensures StageInv(Put(rules, id, body), issued, Memory(Some(id), macs, Some(body)), other, body.name, otherName)
  {
  }

  /** A push under an id whose row is gone creates another row, and the answer does not say which: the settings
      keep the old id. */
  predicate Strands(rules: seq<Rule>, m: Memory, body: Body, macs: seq<string>, a: Answers) {
    && m.ruleId.Some? && !Skips(m, body, macs) && !HasId(rules, m.ruleId.value)
    && !a.updateFails && !a.createFails && !a.answersId
  }

  predicate StrandsEvent(w: World, e: Event) {
    match e
    case Kill(desired, a) => Strands(w.rules, w.kill, KillSwitchRule(DesiredMacs(desired)), DesiredMacs(desired), a)
    case Doh(desired, enabled, appIds, a) =>
      enabled && appIds.Some? && appIds.value != []
      && Strands(w.rules, w.doh, DohBlockRule(DesiredMacs(desired), appIds.value), DesiredMacs(desired), a)
    case _ => false
  }

  /** Creating a row when none carries our name, and remembering nothing of it. */
  lemma UnansweredKeepsInvIff(rules: seq<Rule>, issued: set<string>, m: Memory, other: Memory, id: string, body: Body,
          otherName: string)
    requires StageInv(rules, issued, m, other, body.name, otherName) && body.name != otherName
    requires id != "" && id !in issued
    requires forall i :: 0 <= i < |rules| ==> rules[i].body.name != body.name
    ensures StageInv(rules + [Rule(id, body)], issued + {id}, m, other, body.name, otherName) <==> m.ruleId.None?
  {
    var after := rules + [Rule(id, body)];
    assert after[|rules|] == Rule(id, body);
    assert forall i :: 0 <= i < |rules| ==> after[i] == rules[i];
  }

  /** Creating a row when none carries our name. */
  lemma CreateKeepsInv(rules: seq<Rule>, issued: set<string>, m: Memory, other: Memory, id: string, body: Body,
          macs: seq<string>, otherName: string)
    requires StageInv(rules, issued, m, other, body.name, otherName) && body.name != otherName
    requires id != "" && id !in issued
    requires forall i :: 0 <= i < |rules| ==> rules[i].body.name != body.name
    ensures StageInv(rules + [Rule(id, body)], issued + {id}, Memory(Some(id), macs, Some(body)), other, body.name, otherName)
  {
  }

  /** One push of a stage keeps its own rule unique, and leaves the other stage's rule alone, if and only if it
      does not strand a row. */
  lemma PushKeepsInvIff(rules: seq<Rule>, issued: set<string>, m: Memory, other: Memory, body: Body, macs: seq<string>,
          a: Answers, otherName: string)
    requires StageInv(rules, issued, m, other, body.name, otherName)
    requires body.name != otherName && a.rowId != "" && a.rowId !in issued
    ensures
      var o := Push(rules, m, body, macs, a);
      StageInv(o.rules, issued + {a.rowId}, o.memory, other, body.name, otherName) <==> !Strands(rules, m, body, macs, a)
  {
    var o := Push(rules, m, body, macs, a);
    if o.status.Updated? {
      UpdateKeepsInv(rules, issued, m, other, o.status.id, body, macs, otherName);
      MoreIssued(o.rules, issued, a.rowId, o.memory, other, body.name, otherName);
    } else if o.status.Created? {
      CreateKeepsInv(rules, issued, m, other, a.rowId, body, macs, otherName);
    } else if |o.rules| > |rules| {
      UnansweredKeepsInvIff(rules, issued, m, other, a.rowId, body, otherName);
    } else {
      MoreIssued(rules, issued, a.rowId, m, other, body.name, otherName);
    }
  }

  lemma MoreIssued(rules: seq<Rule>, issued: set<string>, id: string, m: Memory, other: Memory, name: string,
          otherName: string)
    requires StageInv(rules, issued, m, other, name, otherName)
    ensures StageInv(rules, issued + {id}, m, other, name, otherName)
  {
  }

  lemma {:induction false} DeleteKeepsDistinct(rules: seq<Rule>, id: string)
    requires forall i, j :: 0 <= i < j < |rules| ==> rules[i].id != rules[j].id
    ensures forall i, j :: 0 <= i < j < |Delete(rules, id)| ==> Delete(rules, id)[i].id != Delete(rules, id)[j].id
  {
    if rules != [] {
      DeleteKeepsDistinct(rules[1..], id);
      var rest := Delete(rules[1..], id);
      forall j | 0 <= j < |rest| ensures rest[j].id != rules[0].id {
        assert rest[j] in rules[1..];
      }
    }
  }

  lemma DeleteKeepsShape(rules: seq<Rule>, issued: set<string>, id: string)
    requires IdsDistinct(rules, issued)
    ensures IdsDistinct(Delete(rules, id), issued)
  {
    hide Delete;
    DeleteKeepsDistinct(rules, id);
    forall i | 0 <= i < |Delete(rules, id)| ensures Delete(rules, id)[i] in rules { }
  }

  /** Deleting rules cannot break uniqueness of a name. */
  lemma {:induction false} DeleteKeepsOneRule(rules: seq<Rule>, id: string, m: Memory, name: string)
    requires OneRule(rules, m, name)
    ensures OneRule(Delete(rules, id), m, name)
  {
    if rules != [] {
      assert OneRule(rules[1..], m, name);
      DeleteKeepsOneRule(rules[1..], id, m, name);
      var rest := Delete(rules[1..], id);
      forall j | 0 <= j < |rest| ensures rules[0].body.name != name || rest[j].body.name != name {
        assert rest[j] in rules[1..];
      }
      assert Delete(rules, id) == (if rules[0].id == id then [] else [rules[0]]) + rest;
    }
  }

  lemma DeleteKeepsInv(w: World, id: string)
    requires Inv(w)
    ensures Inv(w.(rules := Delete(w.rules, id)))
  {
    DeleteKeepsShape(w.rules, w.issued, id);
    DeleteKeepsOneRule(w.rules, id, w.kill, KILL_SWITCH_NAME);
    DeleteKeepsOneRule(w.rules, id, w.doh, DOH_BLOCK_NAME);
    assert forall i :: 0 <= i < |Delete(w.rules, id)| ==> Delete(w.rules, id)[i] in w.rules;
  }

  /** One event keeps the invariant if and only if it does not strand a row. */
  lemma NextKeepsInvIff(w: World, e: Event)
    requires Inv(w) && Fits(w, e)
    ensures Inv(Next(w, e)) <==> !StrandsEvent(w, e)
  {
    hide Push, TearDown, KillSwitchRule, DohBlockRule, DesiredMacs, Put, Delete;
    NamesOfRules();
    match e
    case Kill(desired, a) =>
      PushKeepsInvIff(w.rules, w.issued, w.kill, w.doh, KillSwitchRule(DesiredMacs(desired)), DesiredMacs(desired), a, DOH_BLOCK_NAME);
    case Doh(desired, enabled, appIds, a) =>
      if !enabled {
        TearDownKeepsInv(w, a);
      } else if appIds.Some? && appIds.value != [] {
        PushKeepsInvIff(w.rules, w.issued, w.doh, w.kill, DohBlockRule(DesiredMacs(desired), appIds.value), DesiredMacs(desired), a,
          KILL_SWITCH_NAME);
      }
    case UserAdds(rule) =>
      UserAddKeepsInv(w, rule);
    case UserEdits(id, body) =>
      UserEditKeepsInv(w, id, body);
    case UserDeletes(id) => DeleteKeepsInv(w, id);
    case _ =>
  }

  lemma NamesOfRules()
    ensures forall macs :: KillSwitchRule(macs).name == KILL_SWITCH_NAME
    ensures forall macs, appIds :: DohBlockRule(macs, appIds).name == DOH_BLOCK_NAME
  {
  }

  lemma UserAddKeepsInv(w: World, rule: Rule)
    requires Inv(w) && rule.id != "" && rule.id !in w.issued && !ManagedName(rule.body.name)
    ensures Inv(w.(rules := w.rules + [rule], issued := w.issued + {rule.id}))
  {
  }

  lemma UserEditKeepsInv(w: World, id: string, body: Body)
    requires Inv(w) && (!ManagedName(body.name) || NamedAlready(w.rules, id, body.name))
    ensures Inv(w.(rules := Put(w.rules, id, body)))
  {
  }

  lemma TearDownKeepsInv(w: World, a: Answers)
    requires Inv(w)
    ensures var o := TearDown(w.rules, w.doh, a);
      Inv(World(o.rules, w.issued + {a.rowId}, w.kill, o.memory))
  {
    if w.doh.ruleId.Some? {
      DeleteKeepsInv(w, w.doh.ruleId.value);
    }
  }

  // ---- runs -------------------------------------------------------------------------------

  ghost predicate FitsRun(w: World, events: seq<Event>)
    decreases |events|
  {
    events == [] || (Fits(w, events[0]) && FitsRun(Next(w, events[0]), events[1..]))
  }

  function Run(w: World, events: seq<Event>): World
    decreases |events|
  {
    if events == [] then w else Run(Next(w, events[0]), events[1..])
  }

  ghost predicate NeverStrands(w: World, events: seq<Event>)
    decreases |events|
  {
    events == [] || (!StrandsEvent(w, events[0]) && NeverStrands(Next(w, events[0]), events[1..]))
  }

  /** The invariant holds before, between and after the events. */
  ghost predicate AlwaysInv(w: World, events: seq<Event>)
    decreases |events|
  {
    Inv(w) && (events == [] || AlwaysInv(Next(w, events[0]), events[1..]))
  }

  /** Each reserved name is on at most one rule, and a cached id is that rule's, all through a run, if and only if
      no push of the run strands a row. */
  lemma {:induction false} OneManagedRuleAlwaysIff(w: World, events: seq<Event>)
    requires Inv(w) && FitsRun(w, events)
    ensures AlwaysInv(w, events) <==> NeverStrands(w, events)
    decreases |events|
  {
    if events != [] {
      hide Inv, Next, StrandsEvent;
      NextKeepsInvIff(w, events[0]);
      if !StrandsEvent(w, events[0]) {
        OneManagedRuleAlwaysIff(Next(w, events[0]), events[1..]);
      } else {
        NotAlways(Next(w, events[0]), events[1..]);
      }
    }
  }

  lemma NotAlways(w: World, events: seq<Event>)
    requires !Inv(w)
    ensures !AlwaysInv(w, events)
  {
  }

  /** In particular it holds after the run. */
  lemma {:induction false} OneManagedRulePerStage(w: World, events: seq<Event>)
    requires Inv(w) && FitsRun(w, events) && NeverStrands(w, events)
    ensures Inv(Run(w, events))
    decreases |events|
  {
    if events != [] {
      hide Inv, Next, StrandsEvent;
      NextKeepsInvIff(w, events[0]);
      OneManagedRulePerStage(Next(w, events[0]), events[1..]);
    }
  }

  /** A controller that always answers with the id never strands a row. */
  lemma {:induction false} AnswersNeverStrand(w: World, events: seq<Event>)
    requires forall e :: e in events ==> (e.Kill? || e.Doh? ==> e.answers.answersId)
    ensures NeverStrands(w, events)
    decreases |events|
  {
    if events != [] {
      hide Next;
      assert events[0] in events;
      AnswersNeverStrand(Next(w, events[0]), events[1..]);
    }
  }

  // ---- agreement -----------------------------------------------------------------------------

  /** The user leaves the rules behind the two cached ids, and the reserved names, alone. */
  predicate HandsOff(w: World, e: Event) {
    match e
    case UserEdits(id, body) => w.kill.ruleId != Some(id) && w.doh.ruleId != Some(id) && !ManagedName(body.name)
    case UserDeletes(id) => w.kill.ruleId != Some(id) && w.doh.ruleId != Some(id)
    case _ => true
  }

  ghost predicate FitsQuietly(w: World, e: Event) {
    Fits(w, e) && HandsOff(w, e) && !StrandsEvent(w, e)
  }

  ghost predicate FitsQuietRun(w: World, events: seq<Event>)
    decreases |events|
  {
    events == [] || (FitsQuietly(w, events[0]) && FitsQuietRun(Next(w, events[0]), events[1..]))
  }

  /** What a stage remembers having pushed is what the controller has. */
  predicate Agrees(rules: seq<Rule>, m: Memory) {
    m.ruleId.Some? && m.pushed.Some? ==> HasRule(rules, m.ruleId.value, m.pushed.value)
  }

  ghost predicate InStep(w: World) {
    Inv(w) && Agrees(w.rules, w.kill) && Agrees(w.rules, w.doh)
  }

  lemma HasRuleMembers(rules: seq<Rule>, id: string, body: Body)
    ensures HasRule(rules, id, body) <==> Rule(id, body) in rules
  {
  }

  lemma DeleteAgrees(rules: seq<Rule>, id: string, m: Memory)
    requires Agrees(rules, m) && m.ruleId != Some(id)
    ensures Agrees(Delete(rules, id), m)
  {
  }

  lemma AppendAgrees(rules: seq<Rule>, rule: Rule, m: Memory)
    requires Agrees(rules, m)
    ensures Agrees(rules + [rule], m)
  {
    if m.ruleId.Some? && m.pushed.Some? {
      HasRuleMembers(rules, m.ruleId.value, m.pushed.value);
      HasRuleMembers(rules + [rule], m.ruleId.value, m.pushed.value);
    }
  }

  /** A push that reports no error, skipped or not, leaves the controller with exactly the body it was asked for
      under the id it reports; any push keeps both stages' memories right. */
  lemma PushAgrees(rules: seq<Rule>, m: Memory, other: Memory, body: Body, macs: seq<string>, a: Answers)
    requires Agrees(rules, m) && Agrees(rules, other)
    requires m.ruleId.Some? ==> m.ruleId != other.ruleId
    requires m.ruleId.None? && Discover(rules, body.name).Some? ==> Discover(rules, body.name) != other.ruleId
    ensures
      var o := Push(rules, m, body, macs, a);
      && Agrees(o.rules, o.memory) && Agrees(o.rules, other)
      && (!o.status.Error? ==> o.memory.ruleId == Some(o.status.id) && HasRule(o.rules, o.status.id, body))
  {
    var o := Push(rules, m, body, macs, a);
    if o.status.Updated? {
      var i :| 0 <= i < |rules| && rules[i].id == o.status.id;
      assert o.rules[i] == Rule(o.status.id, body);
    } else if o.status.Created? {
      AppendAgrees(rules, Rule(a.rowId, body), other);
      assert o.rules[|rules|] == Rule(a.rowId, body);
    } else if |o.rules| > |rules| {
      AppendAgrees(rules, Rule(a.rowId, body), m);
      AppendAgrees(rules, Rule(a.rowId, body), other);
    }
  }

  lemma NextStaysInStep(w: World, e: Event)
    requires InStep(w) && FitsQuietly(w, e)
    ensures InStep(Next(w, e))
    ensures e.Kill? && !StatusOf(w, e).Error? ==>
      HasRule(Next(w, e).rules, StatusOf(w, e).id, KillSwitchRule(DesiredMacs(e.desired)))
    ensures e.Doh? && e.enabled && !StatusOf(w, e).Error? ==>
      HasRule(Next(w, e).rules, StatusOf(w, e).id, DohBlockRule(DesiredMacs(e.desired), e.appIds.value))
  {
    NextKeepsInvIff(w, e);
    match e
    case Kill(desired, a) =>
      PushAgrees(w.rules, w.kill, w.doh, KillSwitchRule(DesiredMacs(desired)), DesiredMacs(desired), a);
    case Doh(desired, enabled, appIds, a) =>
      if !enabled {
        if w.doh.ruleId.Some? { DeleteAgrees(w.rules, w.doh.ruleId.value, w.kill); }
      } else if appIds.Some? && appIds.value != [] {
        PushAgrees(w.rules, w.doh, w.kill, DohBlockRule(DesiredMacs(desired), appIds.value), DesiredMacs(desired), a);
      }
    case UserAdds(rule) =>
      AppendAgrees(w.rules, rule, w.kill);
      AppendAgrees(w.rules, rule, w.doh);
    case UserEdits(id, body) =>
    case UserDeletes(id) =>
      DeleteAgrees(w.rules, id, w.kill);
      DeleteAgrees(w.rules, id, w.doh);
    case _ =>
  }

  /** Over any run in which only the adapter touches its rules, a tick that reports no error leaves the one
      rule with the kill-switch name holding exactly the body of the desired set. */
  lemma {:induction false} CacheAgreesWithController(w: World, events: seq<Event>, last: Event)
    requires InStep(w) && FitsQuietRun(w, events)
    requires last.Kill? && FitsQuietly(Run(w, events), last) && !StatusOf(Run(w, events), last).Error?
    ensures
      var done := Next(Run(w, events), last);
      && HasRule(done.rules, StatusOf(Run(w, events), last).id, KillSwitchRule(DesiredMacs(last.desired)))
      && OneRule(done.rules, done.kill, KILL_SWITCH_NAME)
    decreases |events|
  {
    if events == [] {
      NextStaysInStep(w, last);
    } else {
      NextStaysInStep(w, events[0]);
      CacheAgreesWithController(Next(w, events[0]), events[1..], last);
    }
  }

  /** The same for the DoH rule, whose body also carries the app ids. */
  lemma {:induction false} DohCacheAgreesWithController(w: World, events: seq<Event>, last: Event)
    requires InStep(w) && FitsQuietRun(w, events)
    requires last.Doh? && last.enabled && FitsQuietly(Run(w, events), last) && !StatusOf(Run(w, events), last).Error?
    ensures
      var done := Next(Run(w, events), last);
      && HasRule(done.rules, StatusOf(Run(w, events), last).id, DohBlockRule(DesiredMacs(last.desired), last.appIds.value))
      && OneRule(done.rules, done.doh, DOH_BLOCK_NAME)
    decreases |events|
  {
    if events == [] {
      NextStaysInStep(w, last);
    } else {
      NextStaysInStep(w, events[0]);
      DohCacheAgreesWithController(Next(w, events[0]), events[1..], last);
    }
  }

  /** So the controller then has a rule that takes the internet from exactly the MACs demanded. */
  lemma KillRuleIsRight(w: World, events: seq<Event>, last: Event)
    requires InStep(w) && FitsQuietRun(w, events)
    requires last.Kill? && FitsQuietly(Run(w, events), last) && !StatusOf(Run(w, events), last).Error?
    ensures exists r :: r in Next(Run(w, events), last).rules && BlocksInternetOf(r.body, last.desired)
  {
    CacheAgreesWithController(w, events, last);
    BodiesAre(last.desired, []);
    HeldByOne(Next(Run(w, events), last).rules, StatusOf(Run(w, events), last).id, KillSwitchRule(DesiredMacs(last.desired)));
  }

  /** And after a tick of the DoH stage one that takes the listed apps from them. */
  lemma DohRuleIsRight(w: World, events: seq<Event>, last: Event)
    requires InStep(w) && FitsQuietRun(w, events)
    requires last.Doh? && last.enabled && FitsQuietly(Run(w, events), last) && !StatusOf(Run(w, events), last).Error?
    ensures last.appIds.Some? && exists r :: r in Next(Run(w, events), last).rules && BlocksAppsOf(r.body, last.desired, last.appIds.value)
  {
    DohCacheAgreesWithController(w, events, last);
    BodiesAre(last.desired, last.appIds.value);
    HeldByOne(Next(Run(w, events), last).rules, StatusOf(Run(w, events), last).id,
      DohBlockRule(DesiredMacs(last.desired), last.appIds.value));
  }

  lemma HeldByOne(rules: seq<Rule>, id: string, body: Body)
    requires HasRule(rules, id, body)
    ensures exists r :: r in rules && r.body == body
  {
    assert forall i :: 0 <= i < |rules| ==> rules[i] in rules;
  }

  /** A push is skipped if and only if an id is cached and both the body and the devices are the remembered ones. */
  lemma PushSkipsIff(rules: seq<Rule>, m: Memory, body: Body, macs: seq<string>, a: Answers)
    ensures Push(rules, m, body, macs, a).status.Skipped? <==> m.ruleId != None && m.pushed == Some(body) && m.macs == macs
    ensures Push(rules, m, body, macs, a).status.Skipped? ==> Push(rules, m, body, macs, a).rules == rules
  {
  }

  /** A push without error remembers what it pushed, so the next equal one is skipped; one with an error remembers
      nothing new. */
  lemma PushRemembers(rules: seq<Rule>, m: Memory, body: Body, macs: seq<string>, a: Answers, b: Answers)
    ensures
      var o := Push(rules, m, body, macs, a);
      if o.status.Error? then o.memory == m
      else Push(o.rules, o.memory, body, macs, b).status.Skipped? && Push(o.rules, o.memory, body, macs, b).rules == o.rules
  {
  }

  // ---- where it does not hold -------------------------------------------------------------------

  /** If the user deletes our rule, ticks with the same desired set go on reporting no change and never put
      it back, however many there are. */
  lemma {:induction false} SkipOverlooksDeletion(w: World, ticks: seq<Event>, desired: seq<string>)
    requires Skips(w.kill, KillSwitchRule(DesiredMacs(desired)), DesiredMacs(desired))
    requires !HasId(w.rules, w.kill.ruleId.value)
    requires forall i :: 0 <= i < |ticks| ==> ticks[i].Kill? && ticks[i].desired == desired
    ensures Run(w, ticks).rules == w.rules && Run(w, ticks).kill == w.kill
    decreases |ticks|
  {
    if ticks != [] {
      var w' := Next(w, ticks[0]);
      assert forall i :: 0 <= i < |ticks[1..]| ==> ticks[1..][i] == ticks[i + 1];
      SkipOverlooksDeletion(w', ticks[1..], desired);
    }
  }

  /** After an error-free tick, whatever users did before it, the rule is right exactly when the tick did not
      skip or nobody had touched the cached rule since it was pushed. */
  lemma TickIsRightIff(w: World, desired: seq<string>, a: Answers)
    requires Inv(w) && Fits(w, Kill(desired, a)) && !StatusOf(w, Kill(desired, a)).Error?
    ensures
      var body, id := KillSwitchRule(DesiredMacs(desired)), StatusOf(w, Kill(desired, a)).id;
      HasRule(Next(w, Kill(desired, a)).rules, id, body) <==>
        !Skips(w.kill, body, DesiredMacs(desired)) || HasRule(w.rules, w.kill.ruleId.value, body)
  {
    var body, macs := KillSwitchRule(DesiredMacs(desired)), DesiredMacs(desired);
    var o := Push(w.rules, w.kill, body, macs, a);
    if o.status.Updated? {
      var i :| 0 <= i < |w.rules| && w.rules[i].id == o.status.id;
      assert o.rules[i] == Rule(o.status.id, body);
    } else if o.status.Created? {
      assert o.rules[|w.rules|] == Rule(a.rowId, body);
    }
  }

  predicate Named(rules: seq<Rule>, name: string) {
    exists r :: r in rules && r.body.name == name
  }

  /** An error-free switch-off leaves no rule with the stage's name if and only if each one had the cached id. */
  lemma SwitchOffClearsIff(rules: seq<Rule>, m: Memory, a: Answers)
    requires !TearDown(rules, m, a).status.Error?
    ensures !Named(TearDown(rules, m, a).rules, DOH_BLOCK_NAME) <==>
      forall r :: r in rules && r.body.name == DOH_BLOCK_NAME ==> m.ruleId == Some(r.id)
  {
    var after := TearDown(rules, m, a).rules;
    forall r | r in rules && r.body.name == DOH_BLOCK_NAME && m.ruleId != Some(r.id) ensures Named(after, DOH_BLOCK_NAME) {
      assert r in after;
    }
  }

  /** After any run in which no push strands a row, an error-free switch-off leaves no rule with the name if and
      only if an id is cached or there was none. */
  lemma SwitchOffAfterRunIff(w: World, events: seq<Event>, off: Event)
    requires Inv(w) && FitsRun(w, events) && NeverStrands(w, events)
    requires off.Doh? && !off.enabled && !StatusOf(Run(w, events), off).Error?
    ensures
      var now := Run(w, events);
      !Named(Next(now, off).rules, DOH_BLOCK_NAME) <==> now.doh.ruleId.Some? || !Named(now.rules, DOH_BLOCK_NAME)
  {
    hide TearDown, Push, NeverStrands, FitsRun, Run;
    OneManagedRulePerStage(w, events);
    var now := Run(w, events);
    SwitchOffClearsIff(now.rules, now.doh, off.answers);
    forall r | r in now.rules && r.body.name == DOH_BLOCK_NAME && now.doh.ruleId.Some? ensures now.doh.ruleId == Some(r.id) {
      var i :| 0 <= i < |now.rules| && now.rules[i] == r;
      assert now.rules[i].body.name == DOH_BLOCK_NAME;
    }
  }

  /** Once the id is lost, switching off is free of errors and forgets the devices, and however often it is done
      the rule stays on the controller. */
  lemma {:induction false} LostIdLeavesRule(w: World, offs: seq<Event>)
    requires w.doh.ruleId.None? && forall e :: e in offs ==> e.Doh? && !e.enabled
    ensures Run(w, offs).rules == w.rules && Run(w, offs).doh.ruleId.None?
    ensures offs != [] ==> Run(w, offs).doh.macs == [] && !StatusOf(w, offs[0]).Error?
    decreases |offs|
  {
    if offs != [] {
      assert offs[0] in offs;
      LostIdLeavesRule(Next(w, offs[0]), offs[1..]);
    }
  }

  /** With nothing cached a creation answered without an id is repaired by name: the next push finds the row,
      and one rule is left. */
  lemma UnansweredIsRepaired(rules: seq<Rule>, body: Body, macs: seq<string>, a: Answers, b: Answers)
    requires forall i :: 0 <= i < |rules| ==> rules[i].body.name != body.name
    requires !HasId(rules, a.rowId)
    requires !a.listFails && !a.createFails && !a.answersId && a.rowId != "" && !b.listFails && !b.updateFails
    ensures
      var once := Push(rules, FORGOTTEN, body, macs, a);
      var twice := Push(once.rules, once.memory, body, macs, b);
      && once.status.Error? && twice.status == Updated(a.rowId)
      && twice.rules == rules + [Rule(a.rowId, body)] && twice.memory == Memory(Some(a.rowId), macs, Some(body))
  {
    var once := Push(rules, FORGOTTEN, body, macs, a);
    var row := Rule(a.rowId, body);
    assert once.rules == rules + [row] && once.memory == FORGOTTEN;
    DiscoverAppended(rules, row);
    assert once.rules[|rules|] == row;
    assert forall i :: 0 <= i < |rules| ==> once.rules[i] == rules[i];
    assert Put(once.rules, a.rowId, body) == once.rules;
  }

  lemma {:induction false} DiscoverAppended(rules: seq<Rule>, row: Rule)
    requires row.id != "" && forall i :: 0 <= i < |rules| ==> rules[i].body.name != row.body.name
    ensures Discover(rules + [row], row.body.name) == Some(row.id)
  {
    if rules != [] {
      assert (rules + [row])[1..] == rules[1..] + [row];
      DiscoverAppended(rules[1..], row);
    }
  }

  /** Under a cached id whose row is gone, every push answered without an id adds one more row of the same body,
      for as long as the answers stay like that. */
  lemma {:induction false} StaleIdDuplicates(rules: seq<Rule>, m: Memory, body: Body, macs: seq<string>,
          answers: seq<Answers>)
    requires m.ruleId.Some? && !Skips(m, body, macs) && !HasId(rules, m.ruleId.value)
    requires forall a :: a in answers ==> !a.updateFails && !a.createFails && !a.answersId && a.rowId != m.ruleId.value
    ensures Pushes(rules, m, body, macs, answers) == Outcome(rules + RowsOf(answers, body), m, Error)
    decreases |answers|
  {
    if answers == [] {
      assert rules + [] == rules;
    } else {
      var a := answers[0];
      assert a in answers;
      var row := Rule(a.rowId, body);
      var once := Push(rules, m, body, macs, a);
      assert once == Outcome(rules + [row], m, Error);
      assert !HasId(once.rules, m.ruleId.value) by {
        assert forall i :: 0 <= i < |once.rules| ==> once.rules[i] in rules || once.rules[i] == row;
      }
      StaleIdDuplicates(once.rules, m, body, macs, answers[1..]);
      assert (rules + [row]) + RowsOf(answers[1..], body) == rules + RowsOf(answers, body);
    }
  }

  /** One push after another with the same demands. */
  function Pushes(rules: seq<Rule>, m: Memory, body: Body, macs: seq<string>, answers: seq<Answers>): Outcome
    decreases |answers|
  {
    if answers == [] then Outcome(rules, m, Error)
    else
      var o := Push(rules, m, body, macs, answers[0]);
      Pushes(o.rules, o.memory, body, macs, answers[1..])
  }

  function RowsOf(answers: seq<Answers>, body: Body): seq<Rule> {
    if answers == [] then [] else [Rule(answers[0].rowId, body)] + RowsOf(answers[1..], body)
  }

  /** A controller that lists new rows without an id makes the adapter create another row at the next tick: the
      one-rule invariant needs the rows to be listed with their ids. */
  lemma BlankIdDuplicates(rules: seq<Rule>, body: Body, macs: seq<string>, a: Answers)
    requires forall i :: 0 <= i < |rules| ==> rules[i].body.name != body.name
    requires !a.listFails && !a.createFails && a.rowId == ""
    ensures
      var once := Push(rules, FORGOTTEN, body, macs, a);
      var twice := Push(once.rules, once.memory, body, macs, a);
      twice.rules == rules + [Rule("", body), Rule("", body)] && !OneRule(twice.rules, twice.memory, body.name)
  {
    var once := Push(rules, FORGOTTEN, body, macs, a);
    var twice := Push(once.rules, once.memory, body, macs, a);
    assert once.rules == rules + [Rule("", body)] && once.memory == FORGOTTEN;
    assert Discover(once.rules, body.name).None?;
    assert twice.rules[|rules|] == twice.rules[|rules| + 1] == Rule("", body);
  }
}
