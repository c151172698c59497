/** DNS Director over whole runs of ticks: what survives, what settles, and which labels make it grow for ever. */
module DnsDirectorRuns {
  import opened Text
  import opened Nvram
  import opened Selections
  import opened DnsDirector
  import BlockList

  type Pairs = seq<(string, string)>

  /** The rules the next tick finds: the user's as they are now, then what ours read back as. */
  function Next(existing: seq<Rule>, prev: set<string>, clean: Pairs): seq<Rule> {
    var theirs := Theirs(existing, prev);
    theirs + ReadBackAll(Ours(theirs, clean))
  }

  /** Names without separators, MACs that print plainly. */
  ghost predicate PrintablePairs(clean: Pairs) {
    forall d :: d in clean ==> NoSeparators(d.0) && Plain(Upper(d.1))
  }

  /** The adapter's label: separators out, at most 32 characters, the MAC if nothing is left. */
  function AdapterLabel(shown: string, m: string): string {
    var kept := Select(shown, (c: char) => c != '<' && c != '>');
    var cut := if |kept| > 32 then kept[..32] else kept;
    if cut != "" then cut else Upper(m)
  }

  lemma AdapterLabelIsPrintable(shown: string, m: string)
    requires Plain(Upper(m))
    ensures NoSeparators(AdapterLabel(shown, m))
  {
    var kept := Select(shown, (c: char) => c != '<' && c != '>');
    var cut := if |kept| > 32 then kept[..32] else kept;
    forall c | c in cut ensures c != '<' && c != '>' {
      assert c in kept;
    }
  }

  /** A short name without separators is kept as it is; of any other the first 32 characters that separate nothing. */
  lemma AdapterLabelIs(shown: string, m: string)
    ensures shown != "" && |shown| <= 32 && NoSeparators(shown) ==> AdapterLabel(shown, m) == shown
    ensures (forall c :: c in shown ==> c == '<' || c == '>') ==> AdapterLabel(shown, m) == Upper(m)
    ensures AdapterLabel(shown, m) == Upper(m) || (|AdapterLabel(shown, m)| <= 32 && AdapterLabel(shown, m) <= Select(shown, IsLabelChar()))
  {
    SelectAlike(shown, (c: char) => c != '<' && c != '>', IsLabelChar());
    if NoSeparators(shown) { SelectAll(shown, IsLabelChar()); }
    if forall c :: c in shown ==> c == '<' || c == '>' { SelectNone(shown, IsLabelChar()); }
  }

  function IsLabelChar(): char -> bool {
    (c: char) => c != '<' && c != '>'
  }

  /** Writing to NVRAM and reading back, in whatever encoding, is `Next`. */
  lemma NextRead(read: DnsNvram, prev: set<string>, desired: Pairs, ip: string, again: string)
    requires PrintablePairs(Clean(desired)) && Encodes(Pushed(read, prev, desired, ip).rulelist, again)
    ensures Parse(again) == Next(Parse(read.rulelist), prev, Clean(desired))
  {
    var existing := Parse(read.rulelist);
    var theirs := Theirs(existing, prev);
    var ours := Ours(theirs, Clean(desired));
    forall r | r in theirs ensures PlainRule(r) { ParsedRulesArePlain(read.rulelist, r); }
    forall r | r in ours ensures Printable(r) {
      var d :| d in Clean(desired) && r == OurRule(d);
      ModeIsPlain();
    }
    PrintReadsBack(theirs + ours, again);
    ReadBackConcat(theirs, ours);
    PlainListReadsBack(theirs);
  }

  lemma ModeIsPlain()
    ensures Plain(DNS_MODE_CUSTOM1)
  {
  }

  /** Every desired device has a rule after the merge: ours in custom-1 mode, unless the user has one for it. */
  lemma {:induction false} EveryDesiredIsRedirected(theirs: seq<Rule>, clean: Pairs, d: (string, string))
    requires d in clean
    ensures Has(theirs, d.1) || OurRule(d) in theirs + Ours(theirs, clean)
  {
    var init, last := clean[..|clean| - 1], clean[|clean| - 1];
    assert clean == init + [last];
    if d in init {
      EveryDesiredIsRedirected(theirs, init, d);
    }
  }

  // ---- runs of rule lists ------------------------------------------------------------------------

  function ManagedAt(managed: set<string>, clean: seq<Pairs>, k: nat): set<string>
    requires k <= |clean|
  {
    if k == 0 then managed else Macs(clean[k - 1])
  }

  predicate StepAt(managed: set<string>, existing: seq<seq<Rule>>, clean: seq<Pairs>, k: nat)
    requires |existing| == |clean| && k + 1 < |existing|
  {
    existing[k + 1] == Next(existing[k], ManagedAt(managed, clean, k), clean[k])
  }

  /** Tick `k` finds `existing[k]` and asks for `clean[k]`. */
  predicate RuleRun(managed: set<string>, existing: seq<seq<Rule>>, clean: seq<Pairs>) {
    |existing| == |clean| && forall k :: 0 <= k < |existing| - 1 ==> StepAt(managed, existing, clean, k)
  }

  /** The rule's MAC was not ours to begin with and is never asked for. */
  predicate NeverOurs(managed: set<string>, clean: seq<Pairs>, r: Rule) {
    Norm(r.mac) !in managed && forall k :: 0 <= k < |clean| ==> Norm(r.mac) !in Macs(clean[k])
  }

  function Untouched(managed: set<string>, clean: seq<Pairs>): Rule -> bool {
    (r: Rule) => NeverOurs(managed, clean, r)
  }

  /** Every rule the label of a desired device is read back as carries a desired MAC. */
  predicate NoGhosts(clean: Pairs) {
    forall d :: d in clean ==> forall r :: r in ReadBack(OurRule(d)) ==> Norm(r.mac) in Macs(clean)
  }

  lemma {:induction false} ReadBackFrom(rules: seq<Rule>, r: Rule)
    requires r in ReadBackAll(rules)
    ensures exists o :: o in rules && r in ReadBack(o)
  {
    assert rules[0] in rules;
    if r !in ReadBack(rules[0]) {
      ReadBackFrom(rules[1..], r);
      var o :| o in rules[1..] && r in ReadBack(o);
      assert o in rules;
    }
  }

  lemma OursLeaveNoGhosts(theirs: seq<Rule>, clean: Pairs, r: Rule)
    requires NoGhosts(clean) && r in ReadBackAll(Ours(theirs, clean))
    ensures Norm(r.mac) in Macs(clean)
  {
    ReadBackFrom(Ours(theirs, clean), r);
    var o :| o in Ours(theirs, clean) && r in ReadBack(o);
    var d :| d in clean && o == OurRule(d);
  }

  /** One tick keeps, in front and in order, a selection of rules that leaves out ours; and adds nothing to it
      if no label leaves a ghost. */
  lemma StepKeepsSelected(existing: seq<Rule>, prev: set<string>, clean: Pairs, p: Rule -> bool)
    requires forall r :: p(r) ==> Norm(r.mac) !in prev && Norm(r.mac) !in Macs(clean)
    ensures Select(existing, p) <= Select(Next(existing, prev, clean), p)
    ensures NoGhosts(clean) ==> Select(Next(existing, prev, clean), p) == Select(existing, p)
  {
    var theirs := Theirs(existing, prev);
    var back := ReadBackAll(Ours(theirs, clean));
    SelectConcat(theirs, back, p);
    SelectAgain(existing, (r: Rule) => Norm(r.mac) !in prev, p, p);
    if NoGhosts(clean) {
      forall r | r in back ensures !p(r) { OursLeaveNoGhosts(theirs, clean, r); }
      SelectNone(back, p);
    }
  }

  lemma StepKeepsUntouched(managed: set<string>, existing: seq<seq<Rule>>, clean: seq<Pairs>, k: nat)
    requires RuleRun(managed, existing, clean) && k + 1 < |existing|
    ensures
      var own := Untouched(managed, clean);
      && Select(existing[k], own) <= Select(existing[k + 1], own)
      && (NoGhosts(clean[k]) ==> Select(existing[k + 1], own) == Select(existing[k], own))
  {
    hide Next, Norm, Macs, NoGhosts, Select;
    assert StepAt(managed, existing, clean, k);
    StepKeepsSelected(existing[k], ManagedAt(managed, clean, k), clean[k], Untouched(managed, clean));
  }

  /** User rules never asked for keep MAC text, name, mode and order, at the head of every later list; with
      ghost-free labels there is nothing else of that kind. */
  lemma {:induction false} UntouchedStay(managed: set<string>, existing: seq<seq<Rule>>, clean: seq<Pairs>, k: nat)
    requires RuleRun(managed, existing, clean) && k < |existing|
    ensures Select(existing[0], Untouched(managed, clean)) <= Select(existing[k], Untouched(managed, clean))
    ensures (forall j :: 0 <= j < |clean| ==> NoGhosts(clean[j])) ==>
      Select(existing[k], Untouched(managed, clean)) == Select(existing[0], Untouched(managed, clean))
  {
    hide StepAt, Untouched, NoGhosts, Select;
    if k > 0 {
      UntouchedStay(managed, existing, clean, k - 1);
      StepKeepsUntouched(managed, existing, clean, k - 1);
    }
  }

  /** With ghost-free labels and no user MAC ever asked for, every rule a tick finds is ours or the user's own. */
  lemma {:induction false} OnlyKnownRules(managed: set<string>, existing: seq<seq<Rule>>, clean: seq<Pairs>, k: nat,
          r: Rule)
    requires RuleRun(managed, existing, clean) && k < |existing| && r in existing[k]
    requires forall j :: 0 <= j < |clean| ==> NoGhosts(clean[j])
    requires forall u :: u in Theirs(existing[0], managed) ==> NeverOurs(managed, clean, u)
    ensures Norm(r.mac) in ManagedAt(managed, clean, k) || NeverOurs(managed, clean, r)
  {
    hide Norm, ReadBackAll, Ours;
    if k == 0 {
      assert Norm(r.mac) !in managed ==> r in Theirs(existing[0], managed);
    } else {
      assert StepAt(managed, existing, clean, k - 1);
      var theirs := Theirs(existing[k - 1], ManagedAt(managed, clean, k - 1));
      if r in theirs {
        OnlyKnownRules(managed, existing, clean, k - 1, r);
      } else {
        OursLeaveNoGhosts(theirs, clean[k - 1], r);
      }
    }
  }

  /** A final tick with nothing desired leaves exactly the user's rules, when no user MAC was ever desired and
      no label left a ghost. */
  lemma LastTickIsUsers(managed: set<string>, existing: seq<seq<Rule>>, clean: seq<Pairs>)
    requires RuleRun(managed, existing, clean) && |existing| > 0 && clean[|clean| - 1] == []
    requires forall j :: 0 <= j < |clean| ==> NoGhosts(clean[j])
    requires forall u :: u in Theirs(existing[0], managed) ==> NeverOurs(managed, clean, u)
    ensures var n := |existing| - 1;
      Next(existing[n], ManagedAt(managed, clean, n), clean[n]) == Theirs(existing[0], managed)
  {
    var n := |existing| - 1;
    var prev, own := ManagedAt(managed, clean, n), Untouched(managed, clean);
    UntouchedStay(managed, existing, clean, n);
    forall r | r in existing[n] ensures Norm(r.mac) !in prev <==> own(r) {
      OnlyKnownRules(managed, existing, clean, n, r);
    }
    SelectAlike(existing[n], (r: Rule) => Norm(r.mac) !in prev, own);
    forall r | r in existing[0] ensures Norm(r.mac) !in managed <==> own(r) {
      OnlyKnownRules(managed, existing, clean, 0, r);
    }
    SelectAlike(existing[0], (r: Rule) => Norm(r.mac) !in managed, own);
    assert Ours(Theirs(existing[n], prev), []) == [];
  }

  // ---- settling ------------------------------------------------------------------------------------

  /** Our rules when no user rule is in the way. */
  function AllOurs(clean: Pairs): seq<Rule> {
    Ours([], clean)
  }

  /** What our rules read back as that we will not recognise next time. */
  function Ghosts(clean: Pairs): seq<Rule> {
    Select(ReadBackAll(AllOurs(clean)), (r: Rule) => Norm(r.mac) !in Macs(clean))
  }

  lemma {:induction false} OursInFull(theirs: seq<Rule>, clean: Pairs)
    requires forall d :: d in clean ==> !Has(theirs, d.1)
    ensures Ours(theirs, clean) == AllOurs(clean)
  {
    if clean != [] {
      assert clean == clean[..|clean| - 1] + [clean[|clean| - 1]];
      OursInFull(theirs, clean[..|clean| - 1]);
    }
  }

  lemma TheirsHaveNoneOfOurs(existing: seq<Rule>, clean: Pairs)
    ensures forall d :: d in clean ==> !Has(Theirs(existing, Macs(clean)), d.1)
  {
    var theirs := Theirs(existing, Macs(clean));
    forall d, i | d in clean && 0 <= i < |theirs| ensures Norm(theirs[i].mac) != d.1 {
      assert theirs[i] in theirs;
    }
  }

  /** From the second tick on each tick adds exactly the ghosts to what it takes for the user's. */
  lemma TheirsGrowByGhosts(existing: seq<Rule>, clean: Pairs)
    ensures
      var theirs := Theirs(existing, Macs(clean));
      && Merged(existing, Macs(clean), clean) == theirs + AllOurs(clean)
      && Theirs(Next(existing, Macs(clean), clean), Macs(clean)) == theirs + Ghosts(clean)
  {
    var p := (r: Rule) => Norm(r.mac) !in Macs(clean);
    var theirs := Theirs(existing, Macs(clean));
    TheirsHaveNoneOfOurs(existing, clean);
    OursInFull(theirs, clean);
    SelectConcat(theirs, ReadBackAll(AllOurs(clean)), p);
    SelectAll(theirs, p);
  }

  /** The list after `k` more ticks asking for the same. */
  function Iterated(existing: seq<Rule>, clean: Pairs, k: nat): seq<Rule> {
    if k == 0 then existing else Next(Iterated(existing, clean, k - 1), Macs(clean), clean)
  }

  function Repeat(rules: seq<Rule>, k: nat): seq<Rule> {
    if k == 0 then [] else Repeat(rules, k - 1) + rules
  }

  /** What passes for the user's after `k` more ticks: what did before, and `k` copies of the ghosts. */
  lemma {:induction false} TheirsAfter(existing: seq<Rule>, clean: Pairs, k: nat)
    ensures Theirs(Iterated(existing, clean, k), Macs(clean)) == Theirs(existing, Macs(clean)) + Repeat(Ghosts(clean), k)
  {
    hide Theirs, Next, Ghosts;
    if k > 0 {
      TheirsAfter(existing, clean, k - 1);
      TheirsGrowByGhosts(Iterated(existing, clean, k - 1), clean);
    }
  }

  lemma {:induction false} PrintConcat(a: seq<Rule>, b: seq<Rule>)
    ensures |Print(a + b)| == |Print(a)| + |Print(b)|
    ensures Print(a) == "" <==> a == []
  {
    if a == [] {
      assert a + b == b;
    } else {
      assert (a + b)[1..] == a[1..] + b;
      PrintConcat(a[1..], b);
    }
  }

  lemma {:induction false} PrintRepeat(rules: seq<Rule>, k: nat)
    ensures |Print(Repeat(rules, k))| == k * |Print(rules)|
    ensures rules == [] ==> Repeat(rules, k) == []
  {
    if k > 0 {
      PrintRepeat(rules, k - 1);
      PrintConcat(Repeat(rules, k - 1), rules);
      assert (k - 1) * |Print(rules)| + |Print(rules)| == k * |Print(rules)|;
    }
  }

  /** The text written after `k` more ticks is longer by the text of `k` copies of the ghosts. */
  lemma TextAfter(existing: seq<Rule>, clean: Pairs, k: nat)
    ensures
      var first, later := Merged(existing, Macs(clean), clean), Merged(Iterated(existing, clean, k), Macs(clean), clean);
      && |Print(later)| == |Print(first)| + k * |Print(Ghosts(clean))|
      && (Ghosts(clean) == [] ==> later == first)
  {
    hide Theirs, Next, Ghosts, Merged, Iterated, AllOurs, Print, Repeat;
    var theirs, more := Theirs(existing, Macs(clean)), Repeat(Ghosts(clean), k);
    TheirsAfter(existing, clean, k);
    TheirsGrowByGhosts(existing, clean);
    TheirsGrowByGhosts(Iterated(existing, clean, k), clean);
    PrintRepeat(Ghosts(clean), k);
    PrintConcat(theirs, AllOurs(clean));
    PrintConcat(theirs, more);
    PrintConcat(theirs + more, AllOurs(clean));
  }

  lemma GhostsAreNone(clean: Pairs)
    ensures Ghosts(clean) == [] <==> NoGhosts(clean)
  {
    var all := ReadBackAll(AllOurs(clean));
    if NoGhosts(clean) {
      forall r | r in all ensures Norm(r.mac) in Macs(clean) { OursLeaveNoGhosts([], clean, r); }
      SelectNone(all, (r: Rule) => Norm(r.mac) !in Macs(clean));
    } else {
      var d :| d in clean && exists r :: r in ReadBack(OurRule(d)) && Norm(r.mac) !in Macs(clean);
      var r :| r in ReadBack(OurRule(d)) && Norm(r.mac) !in Macs(clean);
      OursHold(clean, d);
      ReadBackOf(AllOurs(clean), OurRule(d), r);
      assert r in Ghosts(clean);
    }
  }

  lemma {:induction false} OursHold(clean: Pairs, d: (string, string))
    requires d in clean
    ensures OurRule(d) in AllOurs(clean)
  {
    var init := clean[..|clean| - 1];
    assert clean == init + [clean[|clean| - 1]];
    if d in init {
      OursHold(init, d);
    }
  }

  lemma {:induction false} ReadBackOf(rules: seq<Rule>, o: Rule, r: Rule)
    requires o in rules && r in ReadBack(o)
    ensures r in ReadBackAll(rules)
  {
    if o != rules[0] {
      assert rules == [rules[0]] + rules[1..];
      ReadBackOf(rules[1..], o, r);
    }
  }

  /** When no user rule shares a desired MAC and no label leaves a ghost, the first tick already settles. */
  lemma SettlesAtOnce(existing: seq<Rule>, managed: set<string>, clean: Pairs)
    requires NoGhosts(clean)
    requires forall r :: r in Theirs(existing, managed) ==> Norm(r.mac) !in Macs(clean)
    ensures Merged(Next(existing, managed, clean), Macs(clean), clean) == Merged(existing, managed, clean)
  {
    var p := (r: Rule) => Norm(r.mac) !in Macs(clean);
    var theirs := Theirs(existing, managed);
    var back := ReadBackAll(Ours(theirs, clean));
    SelectConcat(theirs, back, p);
    SelectAll(theirs, p);
    forall r | r in back ensures !p(r) { OursLeaveNoGhosts(theirs, clean, r); }
    SelectNone(back, p);
    assert Theirs(Next(existing, managed, clean), Macs(clean)) == theirs;
  }

  // ---- which labels leave ghosts ----------------------------------------------------------------------

  lemma {:induction false} NoRulesIn(pieces: seq<string>)
    requires forall i :: 0 <= i < |pieces| ==> '>' !in pieces[i]
    ensures FromPieces(pieces) == []
  {
    if pieces != [] {
      SplitAlone(pieces[0], '>');
      NoRulesIn(pieces[1..]);
    }
  }

  /** A label in which no `>` appears when it is decoded leaves no ghost: whatever rule it is read back as has
      the device's own MAC. */
  lemma {:induction false} HarmlessLabel(text: string, mac: string, mode: string)
    requires '>' !in text && Plain(mac) && Plain(mode)
    ensures forall r :: r in FromPieces(Split(RuleText(text, mac, mode), '<')) ==> r.mac == mac
    decreases |text|
  {
    var body := RuleText(text, mac, mode);
    if i :| 0 <= i < |text| && text[i] == '<' {
      var a, b := text[..i], text[i + 1..];
      assert text == Sep(a, '<', b);
      assert Sep(a, '<', b) + ['>'] + Sep(mac, '>', mode) == Sep(a, '<', RuleText(b, mac, mode));
      SplitConcat(a, RuleText(b, mac, mode), '<');
      FromPiecesConcat(Split(a, '<'), Split(RuleText(b, mac, mode), '<'));
      forall k | 0 <= k < |Split(a, '<')| ensures '>' !in Split(a, '<')[k] {
        SplitPieces(a, '<', k);
      }
      NoRulesIn(Split(a, '<'));
      HarmlessLabel(b, mac, mode);
    } else {
      SplitAlone(body, '<');
      SplitConcat(text, Sep(mac, '>', mode), '>');
      SplitConcat(mac, mode, '>');
      SplitAlone(text, '>');
      SplitAlone(mac, '>');
      SplitAlone(mode, '>');
      assert Split(body, '>') == [text, mac, mode];
      assert FromPieces([body]) == FromPiece(body) + FromPieces([]);
    }
  }

  /** So a set of devices whose labels decode without `>` settles. */
  lemma HarmlessLabelsSettle(clean: Pairs)
    requires forall d :: d in clean ==> '>' !in Decode(d.0) && Plain(Upper(d.1)) && Trimmed(d.1) && Canonical(d.1)
    ensures NoGhosts(clean)
  {
    forall d, r | d in clean && r in ReadBack(OurRule(d)) ensures Norm(r.mac) in Macs(clean) {
      ModeIsPlain();
      HarmlessLabel(Decode(d.0), Upper(d.1), DNS_MODE_CUSTOM1);
      BlockList.CapitalsReadBack(d.1);
    }
  }

  /** Four parts between `<` separators: the first three make the rule. */
  lemma FourParts(a: string, b: string, c: string, d: string)
    requires NoSeparators(a) && NoSeparators(b) && NoSeparators(c) && NoSeparators(d)
    ensures FromPieces(Split(Sep(a, '>', Sep(b, '>', Sep(c, '>', d))), '<')) == [Rule(a, b, c)]
  {
    var body := Sep(a, '>', Sep(b, '>', Sep(c, '>', d)));
    SplitAlone(body, '<');
    assert FromPieces([body]) == FromPiece(body) + FromPieces([]);
    assert Split(body, '>') == [a, b, c, d] by {
      SplitConcat(a, Sep(b, '>', Sep(c, '>', d)), '>');
      SplitConcat(b, Sep(c, '>', d), '>');
      SplitConcat(c, d, '>');
      SplitAlone(a, '>');
      SplitAlone(b, '>');
      SplitAlone(c, '>');
      SplitAlone(d, '>');
    }
  }

  lemma EntityDecodes(a: string, b: string)
    requires Plain(a) && Plain(b)
    ensures Decode(a + Entity('2') + b) == Sep(a, '>', b)
  {
    assert a + Entity('2') + b == a + (Entity('2') + b);
    DecodeConcat(a, Entity('2') + b);
    DecodesToItself(a);
    DecodesToItself(b);
  }

  /** The adapter strips `<` and `>` from labels but not the entity: a device named a&#62b is read back as a
      rule named a for the MAC b, which nobody recognises as ours. */
  lemma EntityInLabelLeavesGhost(a: string, b: string, m: string)
    requires Plain(a) && Plain(b) && Plain(Upper(m))
    requires Norm(b) != m
    ensures
      var clean := [(a + Entity('2') + b, m)];
      ReadBack(OurRule(clean[0])) == [Rule(a, b, Upper(m))] && !NoGhosts(clean)
  {
    hide Decode, Split, FromPieces, Upper, Norm;
    var clean := [(a + Entity('2') + b, m)];
    EntityDecodes(a, b);
    ModeIsPlain();
    FourParts(a, b, Upper(m), DNS_MODE_CUSTOM1);
    assert RuleText(Sep(a, '>', b), Upper(m), DNS_MODE_CUSTOM1) == Sep(a, '>', Sep(b, '>', Sep(Upper(m), '>', DNS_MODE_CUSTOM1)));
    assert clean[0] in clean && Macs(clean) == {m};
    assert Rule(a, b, Upper(m)) in ReadBack(OurRule(clean[0]));
  }

  // ---- runs through NVRAM -------------------------------------------------------------------------------

  /** One tick: what it reads, the pairs it is given, and the address it redirects to. */
  datatype Tick = Tick(read: DnsNvram, desired: Pairs, ip: string)

  predicate ReadsAs(stored: DnsNvram, read: DnsNvram) {
    read.enable == stored.enable && read.custom1 == stored.custom1 && Encodes(stored.rulelist, read.rulelist)
  }

  function Existing(ticks: seq<Tick>): seq<seq<Rule>> {
    seq(|ticks|, k requires 0 <= k < |ticks| => Parse(ticks[k].read.rulelist))
  }

  function Cleaned(ticks: seq<Tick>): seq<Pairs> {
    seq(|ticks|, k requires 0 <= k < |ticks| => Clean(ticks[k].desired))
  }

  function WrittenAt(managed: set<string>, ticks: seq<Tick>, k: nat): DnsNvram
    requires k < |ticks|
  {
    Pushed(ticks[k].read, ManagedAt(managed, Cleaned(ticks), k), ticks[k].desired, ticks[k].ip)
  }

  predicate ReadsPrevious(managed: set<string>, ticks: seq<Tick>, k: nat)
    requires 0 < k < |ticks|
  {
    ReadsAs(WrittenAt(managed, ticks, k - 1), ticks[k].read)
  }

  /** Each tick reads, in some encoding, what the one before it wrote. */
  ghost predicate IsRun(managed: set<string>, ticks: seq<Tick>) {
    && (forall k :: 0 <= k < |ticks| ==> PrintablePairs(Clean(ticks[k].desired)))
    && (forall k :: 0 < k < |ticks| ==> ReadsPrevious(managed, ticks, k))
  }

  lemma RunIsRuleRun(managed: set<string>, ticks: seq<Tick>)
    requires IsRun(managed, ticks)
    ensures RuleRun(managed, Existing(ticks), Cleaned(ticks))
  {
    hide Next, Parse, Pushed, Clean, PrintablePairs;
    forall k | 0 <= k < |ticks| - 1 ensures StepAt(managed, Existing(ticks), Cleaned(ticks), k) {
      assert ReadsPrevious(managed, ticks, k + 1);
      var t := ticks[k];
      NextRead(t.read, ManagedAt(managed, Cleaned(ticks), k), t.desired, t.ip, ticks[k + 1].read.rulelist);
    }
  }

  predicate GhostFree(ticks: seq<Tick>) {
    forall j :: 0 <= j < |ticks| ==> NoGhosts(Clean(ticks[j].desired))
  }

  /** The user's own rules keep name, MAC text, mode and order at the head of every list a tick finds; with
      ghost-free labels there is nothing else of that kind. */
  lemma UserRulesSurvive(managed: set<string>, ticks: seq<Tick>, k: nat)
    requires IsRun(managed, ticks) && k < |ticks|
    ensures
      var own := Untouched(managed, Cleaned(ticks));
      && Select(Parse(ticks[0].read.rulelist), own) <= Select(Parse(ticks[k].read.rulelist), own)
      && (GhostFree(ticks) ==> Select(Parse(ticks[k].read.rulelist), own) == Select(Parse(ticks[0].read.rulelist), own))
  {
    hide Parse, Clean, NoGhosts, NeverOurs, Select;
    RunIsRuleRun(managed, ticks);
    UntouchedStay(managed, Existing(ticks), Cleaned(ticks), k);
  }

  /** A final tick with nothing desired leaves exactly the user's rules, when no user MAC was ever desired and
      no label left a ghost. */
  lemma EmptyTickCleansUp(managed: set<string>, ticks: seq<Tick>, after: DnsNvram)
    requires IsRun(managed, ticks) && |ticks| > 0 && ticks[|ticks| - 1].desired == [] && GhostFree(ticks)
    requires ReadsAs(WrittenAt(managed, ticks, |ticks| - 1), after)
    requires forall u :: u in Theirs(Parse(ticks[0].read.rulelist), managed) ==> NeverOurs(managed, Cleaned(ticks), u)
    ensures Parse(after.rulelist) == Theirs(Parse(ticks[0].read.rulelist), managed)
  {
    hide Parse, Pushed, NoGhosts, NeverOurs, Theirs, Next, PrintablePairs;
    var n := |ticks| - 1;
    RunIsRuleRun(managed, ticks);
    var t := ticks[n];
    NextRead(t.read, ManagedAt(managed, Cleaned(ticks), n), t.desired, t.ip, after.rulelist);
    LastTickIsUsers(managed, Existing(ticks), Cleaned(ticks));
  }

  /** Every tick asks for the same. */
  predicate Constant(ticks: seq<Tick>, desired: Pairs, ip: string) {
    forall k :: 0 <= k < |ticks| ==> ticks[k].desired == desired && ticks[k].ip == ip
  }

  lemma {:induction false} ConstantIterates(managed: set<string>, ticks: seq<Tick>, desired: Pairs, ip: string, k: nat)
    requires IsRun(managed, ticks) && Constant(ticks, desired, ip) && 1 <= k < |ticks|
    ensures Parse(ticks[k].read.rulelist) == Iterated(Parse(ticks[1].read.rulelist), Clean(desired), k - 1)
    ensures ManagedAt(managed, Cleaned(ticks), k) == Macs(Clean(desired))
  {
    hide Parse, Pushed, Next, Clean, PrintablePairs;
    if k > 1 {
      ConstantIterates(managed, ticks, desired, ip, k - 1);
      RunIsRuleRun(managed, ticks);
      assert StepAt(managed, Existing(ticks), Cleaned(ticks), k - 1);
    }
  }

  /** The redirect address settles with the first write. */
  lemma {:induction false} AddressSettles(managed: set<string>, ticks: seq<Tick>, desired: Pairs, ip: string, k: nat)
    requires IsRun(managed, ticks) && Constant(ticks, desired, ip) && k < |ticks|
    ensures WrittenAt(managed, ticks, k).custom1 == WrittenAt(managed, ticks, 0).custom1
  {
    hide Parse, Print, Merged, Clean, PrintablePairs;
    if k > 0 {
      AddressSettles(managed, ticks, desired, ip, k - 1);
      assert ReadsPrevious(managed, ticks, k);
    }
  }

  /** With constant demands everything written is the same from the second tick on if and only if no label
      leaves a ghost; otherwise the list grows by the same text at every tick, for ever. */
  lemma SettlesIffNoGhosts(managed: set<string>, ticks: seq<Tick>, desired: Pairs, ip: string, k: nat)
    requires IsRun(managed, ticks) && Constant(ticks, desired, ip) && 1 <= k < |ticks|
    ensures |WrittenAt(managed, ticks, k).rulelist| == |WrittenAt(managed, ticks, 1).rulelist| + (k - 1) * |Print(Ghosts(Clean(desired)))|
    ensures k > 1 ==> (WrittenAt(managed, ticks, k) == WrittenAt(managed, ticks, 1) <==> NoGhosts(Clean(desired)))
  {
    hide Parse, Print, Merged, Ghosts, NoGhosts, Next, Clean, PrintablePairs;
    var clean := Clean(desired);
    var first := Parse(ticks[1].read.rulelist);
    ConstantIterates(managed, ticks, desired, ip, k);
    ConstantIterates(managed, ticks, desired, ip, 1);
    TextAfter(first, clean, k - 1);
    AddressSettles(managed, ticks, desired, ip, k);
    AddressSettles(managed, ticks, desired, ip, 1);
    GhostsAreNone(clean);
    PrintConcat(Ghosts(clean), []);
    if k > 1 && Ghosts(clean) != [] {
      assert (k - 1) * |Print(Ghosts(clean))| > 0;
    }
  }

  /** It is already the same from the first tick on when no user rule shares a desired MAC. */
  lemma SettlesAfterOneTick(managed: set<string>, ticks: seq<Tick>, desired: Pairs, ip: string, k: nat)
    requires IsRun(managed, ticks) && Constant(ticks, desired, ip) && 1 <= k < |ticks| && NoGhosts(Clean(desired))
    requires forall r :: r in Theirs(Parse(ticks[0].read.rulelist), managed) ==> Norm(r.mac) !in Macs(Clean(desired))
    ensures WrittenAt(managed, ticks, k) == WrittenAt(managed, ticks, 0)
  {
    hide Parse, Print, Merged, Ghosts, NoGhosts, Next, Theirs, Clean, PrintablePairs;
    RunIsRuleRun(managed, ticks);
    assert StepAt(managed, Existing(ticks), Cleaned(ticks), 0);
    SettlesAtOnce(Parse(ticks[0].read.rulelist), managed, Clean(desired));
    ConstantIterates(managed, ticks, desired, ip, 1);
    AddressSettles(managed, ticks, desired, ip, 1);
    SettlesIffNoGhosts(managed, ticks, desired, ip, k);
  }

  // ---- runs in which the user edits the rules as well ------------------------------------------------------

  /** `left[k]` is how the router returns what tick `k` wrote; before the next tick the user may edit it. */
  ghost predicate IsEditedRun(managed: set<string>, ticks: seq<Tick>, left: seq<DnsNvram>) {
    |left| == |ticks| && forall k :: 0 <= k < |ticks| ==>
      PrintablePairs(Clean(ticks[k].desired)) && ReadsAs(WrittenAt(managed, ticks, k), left[k])
  }

  /** Between tick `k` and the next the user does not touch the rules of the selection. */
  predicate UserLeaves(ticks: seq<Tick>, left: seq<DnsNvram>, p: Rule -> bool, k: nat)
    requires |left| == |ticks| && k + 1 < |ticks|
  {
    Select(Parse(ticks[k + 1].read.rulelist), p) == Select(Parse(left[k].rulelist), p)
  }

  lemma TickKeepsSelected(managed: set<string>, ticks: seq<Tick>, left: seq<DnsNvram>, p: Rule -> bool, k: nat)
    requires IsEditedRun(managed, ticks, left) && k < |ticks|
    requires forall r :: p(r) ==> NeverOurs(managed, Cleaned(ticks), r)
    ensures Select(Parse(ticks[k].read.rulelist), p) <= Select(Parse(left[k].rulelist), p)
    ensures GhostFree(ticks) ==> Select(Parse(ticks[k].read.rulelist), p) == Select(Parse(left[k].rulelist), p)
  {
    hide Parse, Pushed, Next, Norm, PrintablePairs, NoGhosts, Clean, ReadsAs, Select, Encodes, Macs;
    var t, prev := ticks[k], ManagedAt(managed, Cleaned(ticks), k);
    WrittenReads(managed, ticks, left[k], k);
    NextRead(t.read, prev, t.desired, t.ip, left[k].rulelist);
    assert Cleaned(ticks)[k] == Clean(t.desired);
    forall r | p(r) ensures Norm(r.mac) !in prev && Norm(r.mac) !in Macs(Clean(t.desired)) {
      assert NeverOurs(managed, Cleaned(ticks), r);
      assert k > 0 ==> Norm(r.mac) !in Macs(Cleaned(ticks)[k - 1]);
    }
    StepKeepsSelected(Parse(t.read.rulelist), prev, Clean(t.desired), p);
  }

  /** Rules never asked for and not edited by the user survive, whatever the user does to others between the
      ticks, at the head of their kind; with ghost-free labels nothing joins them. */
  lemma {:induction false} RulesSurviveEdits(managed: set<string>, ticks: seq<Tick>, left: seq<DnsNvram>,
          p: Rule -> bool, k: nat)
    requires IsEditedRun(managed, ticks, left) && k < |ticks|
    requires forall r :: p(r) ==> NeverOurs(managed, Cleaned(ticks), r)
    requires forall j :: 0 <= j < |ticks| - 1 ==> UserLeaves(ticks, left, p, j)
    ensures Select(Parse(ticks[0].read.rulelist), p) <= Select(Parse(ticks[k].read.rulelist), p)
    ensures Select(Parse(ticks[0].read.rulelist), p) <= Select(Parse(left[k].rulelist), p)
    ensures GhostFree(ticks) ==>
      Select(Parse(ticks[k].read.rulelist), p) == Select(Parse(left[k].rulelist), p) == Select(Parse(ticks[0].read.rulelist), p)
  {
    hide Parse, WrittenAt, ReadsAs, PrintablePairs, NeverOurs, GhostFree, Select;
    TickKeepsSelected(managed, ticks, left, p, k);
    if k > 0 {
      RulesSurviveEdits(managed, ticks, left, p, k - 1);
      assert UserLeaves(ticks, left, p, k - 1);
    }
  }

  lemma WrittenReads(managed: set<string>, ticks: seq<Tick>, left: DnsNvram, k: nat)
    requires k < |ticks| && ReadsAs(WrittenAt(managed, ticks, k), left)
    ensures Encodes(WrittenAt(managed, ticks, k).rulelist, left.rulelist)
  {
  }

  /** With ghost-free labels, one tick later a rule the user had before is still taken for the user's if and only
      if its MAC was not asked for; the others give way to ours. */
  lemma SharedRuleBecomesOursIff(existing: seq<Rule>, managed: set<string>, clean: Pairs, r: Rule)
    requires NoGhosts(clean) && r in Theirs(existing, managed)
    ensures
      var next := Next(existing, managed, clean);
      && r in next
      && (r in Theirs(next, Macs(clean)) <==> Norm(r.mac) !in Macs(clean))
  {
    hide Norm, ReadBackAll, Ours, Macs;
    assert r in Next(existing, managed, clean);
  }

  /** What the second tick writes for a desired device whose rule was the user's: our own. */
  lemma SharedRuleIsReplaced(existing: seq<Rule>, managed: set<string>, clean: Pairs, d: (string, string))
    requires d in clean
    ensures OurRule(d) in Merged(Next(existing, managed, clean), Macs(clean), clean)
  {
    hide Norm, Next;
    var next := Next(existing, managed, clean);
    TheirsHaveNoneOfOurs(next, clean);
    EveryDesiredIsRedirected(Theirs(next, Macs(clean)), clean, d);
  }
}
