/** The ASUS DNS Director rule list: printed, read back and merged, tick after tick. */
module DnsDirector {
  import opened Text
  import opened Nvram
  import opened Selections
  import BlockList

  datatype Rule = Rule(name: string, mac: string, mode: string)

  /** The NVRAM variables the stage changes; mode and the other two addresses are written back as read. */
  datatype DnsNvram = DnsNvram(enable: string, custom1: string, rulelist: string)

  const DNS_MODE_CUSTOM1 := "11"

  function Norm(mac: string): string {
    BlockList.AsusNorm(mac)
  }

  // ---- the text -----------------------------------------------------------------------------

  /** A field, a separator, and what follows. */
  function Sep(u: string, c: char, rest: string): string {
    u + [c] + rest
  }

  /** name>mac>mode */
  function RuleText(name: string, mac: string, mode: string): string {
    Sep(name, '>', Sep(mac, '>', mode))
  }

  /** "<name>mac>mode" per rule. */
  function Print(rules: seq<Rule>): string {
    if rules == [] then ""
    else Sep("", '<', Sep(rules[0].name, '>', Sep(rules[0].mac, '>', rules[0].mode + Print(rules[1..]))))
  }

  /** A piece between "<" separators: three or more ">" parts make a rule, anything else is skipped. */
  function FromPiece(piece: string): seq<Rule> {
    var parts := Split(piece, '>');
    if |parts| >= 3 then [Rule(parts[0], parts[1], parts[2])] else []
  }

  function FromPieces(pieces: seq<string>): seq<Rule> {
    if pieces == [] then [] else FromPiece(pieces[0]) + FromPieces(pieces[1..])
  }

  /** The rule list the router returns. */
  function Parse(read: string): seq<Rule> {
    FromPieces(Split(Decode(read), '<'))
  }

  method GetManagedDnsRules(read: string) returns (rules: seq<Rule>)
    ensures rules == Parse(read)
  {
    rules := [];
    DecodeLtFirst(read);
    var decoded := ReplaceEntity(ReplaceEntity(read, '0', '<'), '2', '>');
    var pieces := Split(decoded, '<');
    for i := 0 to |pieces|
      invariant rules == FromPieces(pieces[..i])
    {
      assert pieces[..i + 1] == pieces[..i] + [pieces[i]];
      FromPiecesConcat(pieces[..i], [pieces[i]]);
      if pieces[i] == "" {
        continue;
      }
      var parts := Split(pieces[i], '>');
      if |parts| >= 3 {
        rules := rules + [Rule(parts[0], parts[1], parts[2])];
      }
    }
    assert pieces[..|pieces|] == pieces;
  }

  lemma {:induction false} FromPiecesConcat(a: seq<string>, b: seq<string>)
    ensures FromPieces(a + b) == FromPieces(a) + FromPieces(b)
  {
    if a == [] {
      assert a + b == b;
    } else {
      assert (a + b)[1..] == a[1..] + b;
      FromPiecesConcat(a[1..], b);
    }
  }

  // ---- reading back ----------------------------------------------------------------------------

  /** No separator and no entity. */
  ghost predicate Plain(s: string) {
    NoSeparators(s) && NoEntities(s)
  }

  /** What can be printed: a name without separators, and a plain MAC and mode. */
  ghost predicate Printable(r: Rule) {
    NoSeparators(r.name) && Plain(r.mac) && Plain(r.mode)
  }

  ghost predicate PlainRule(r: Rule) {
    Plain(r.name) && Plain(r.mac) && Plain(r.mode)
  }

  /** The rules one printed rule reads back as: decoding its name may cut it up. */
  function ReadBack(r: Rule): seq<Rule> {
    FromPieces(Split(RuleText(Decode(r.name), r.mac, r.mode), '<'))
  }

  function ReadBackAll(rules: seq<Rule>): seq<Rule> {
    if rules == [] then [] else ReadBack(rules[0]) + ReadBackAll(rules[1..])
  }

  lemma PlainDecodesBack(s: string, e: string)
    requires Plain(s) && Encodes(s, e)
    ensures e == s && Decode(s) == s
  {
    NoSeparatorsEncodeAlone(s, e);
    DecodesBack(s, e);
  }

  lemma SepAppend(u: string, c: char, rest: string, x: string)
    ensures Sep(u, c, rest + x) == Sep(u, c, rest) + x
  {
  }

  /** One printed rule at the front of an encoded list. */
  lemma RuleReadsBack(r: Rule, rest: string, e: string) returns (er: string)
    requires Printable(r) && (rest == "" || rest[0] == '<')
    requires Encodes(Sep("", '<', Sep(r.name, '>', Sep(r.mac, '>', r.mode + rest))), e)
    ensures Encodes(rest, er)
    ensures Decode(e) == Sep("", '<', RuleText(Decode(r.name), r.mac, r.mode) + Decode(er))
  {
    var e0, e1 := FieldReadsBack("", '<', Sep(r.name, '>', Sep(r.mac, '>', r.mode + rest)), e);
    var e2, e3 := FieldReadsBack(r.name, '>', Sep(r.mac, '>', r.mode + rest), e1);
    NoSeparatorsEncodeAlone(r.name, e2);
    var e4, e5 := FieldReadsBack(r.mac, '>', r.mode + rest, e3);
    PlainDecodesBack(r.mac, e4);
    er := LastFieldReadsBack(r.mode, rest, e5);
    SepAppend(r.mac, '>', r.mode, Decode(er));
    SepAppend(Decode(r.name), '>', Sep(r.mac, '>', r.mode), Decode(er));
  }

  lemma LastFieldReadsBack(mode: string, rest: string, e: string) returns (er: string)
    requires Plain(mode) && (rest == "" || rest[0] == '<') && Encodes(mode + rest, e)
    ensures Encodes(rest, er) && Decode(e) == mode + Decode(er)
  {
    var em;
    em, er := EncodesSplit(mode, rest, e);
    PlainDecodesBack(mode, em);
    assert er == "" || er[0] == '<' || er[0] == '&';
    DecodeConcat(mode, er);
  }

  lemma EncodedEmpty(e: string)
    requires Encodes("", e)
    ensures e == "" && Decode(e) == ""
  {
  }

  /** Printing a list, letting the router encode any of the separators, decoding and parsing gives exactly the
      read-backs of its rules. */
  lemma {:induction false} PrintReadsBack(rules: seq<Rule>, e: string)
    requires forall r :: r in rules ==> Printable(r)
    requires Encodes(Print(rules), e)
    ensures Parse(e) == ReadBackAll(rules)
    ensures rules != [] ==> Decode(e) != "" && Decode(e)[0] == '<'
  {
    if rules == [] {
      EncodedEmpty(e);
      assert Split("", '<') == [""] && Split("", '>') == [""];
      assert FromPieces([""]) == FromPiece("") + FromPieces([]);
    } else {
      var r, rest := rules[0], Print(rules[1..]);
      assert r in rules;
      var er := RuleReadsBack(r, rest, e);
      PrintReadsBack(rules[1..], er);
      CutAtRule(RuleText(Decode(r.name), r.mac, r.mode), Decode(er));
      if rules[1..] == [] {
        EncodedEmpty(er);
      }
    }
  }

  /** Parsing "<" + body followed by nothing or by more rules. */
  lemma CutAtRule(body: string, more: string)
    requires more == "" || more[0] == '<'
    ensures FromPieces(Split(Sep("", '<', body + more), '<')) == FromPieces(Split(body, '<')) + FromPieces(Split(more, '<'))
  {
    if more == "" {
      assert body + more == body;
      assert Split("", '<') == [""] + [];
    } else {
      var v := more[1..];
      assert more == Sep("", '<', v);
      assert body + more == Sep(body, '<', v);
      SplitConcat(body, v, '<');
      FromPiecesConcat(Split(body, '<'), Split(v, '<'));
    }
  }

  /** A plain rule reads back as itself: the round trip. */
  lemma PlainRuleReadsBack(r: Rule)
    requires PlainRule(r)
    ensures ReadBack(r) == [r]
  {
    DecodesToItself(r.name);
    var body := RuleText(r.name, r.mac, r.mode);
    SplitAlone(body, '<');
    SplitConcat(r.name, Sep(r.mac, '>', r.mode), '>');
    SplitConcat(r.mac, r.mode, '>');
    SplitAlone(r.name, '>');
    SplitAlone(r.mac, '>');
    SplitAlone(r.mode, '>');
    assert Split(body, '>') == [r.name, r.mac, r.mode];
    assert FromPieces([body]) == FromPiece(body) + FromPieces([]);
  }

  lemma {:induction false} EncodesSelf(s: string)
    ensures Encodes(s, s)
  {
    if s != "" {
      EncodesSelf(s[1..]);
    }
  }

  lemma DecodesToItself(s: string)
    requires NoEntities(s)
    ensures Decode(s) == s
  {
    EncodesSelf(s);
    DecodesBack(s, s);
  }

  lemma {:induction false} PlainListReadsBack(rules: seq<Rule>)
    requires forall r :: r in rules ==> PlainRule(r)
    ensures ReadBackAll(rules) == rules
  {
    if rules != [] {
      assert rules == [rules[0]] + rules[1..];
      PlainRuleReadsBack(rules[0]);
      PlainListReadsBack(rules[1..]);
    }
  }

  /** The round trip of a whole list, whichever separators the router stored as entities. */
  lemma RulesRoundTrip(rules: seq<Rule>, e: string)
    requires forall r :: r in rules ==> PlainRule(r)
    requires Encodes(Print(rules), e)
    ensures Parse(e) == rules
  {
    PrintReadsBack(rules, e);
    PlainListReadsBack(rules);
  }

  lemma {:induction false} ReadBackConcat(a: seq<Rule>, b: seq<Rule>)
    ensures ReadBackAll(a + b) == ReadBackAll(a) + ReadBackAll(b)
  {
    if a == [] {
      assert a + b == b;
    } else {
      assert (a + b)[1..] == a[1..] + b;
      ReadBackConcat(a[1..], b);
    }
  }

  /** Whatever text the router returns, the parsed rules are plain. */
  lemma ParsedRulesArePlain(read: string, r: Rule)
    requires r in Parse(read)
    ensures PlainRule(r)
  {
    var pieces := Split(Decode(read), '<');
    FromSomePiece(pieces, r);
    var k :| 0 <= k < |pieces| && FromPiece(pieces[k]) == [r];
    DecodedPieces(read, '<', k);
    var parts := Split(pieces[k], '>');
    PartIsPlain(pieces[k], 0);
    PartIsPlain(pieces[k], 1);
    PartIsPlain(pieces[k], 2);
  }

  lemma PartIsPlain(piece: string, k: nat)
    requires '<' !in piece && NoEntities(piece) && k < |Split(piece, '>')|
    ensures Plain(Split(piece, '>')[k])
  {
    DecodesToItself(piece);
    DecodedPieces(piece, '>', k);
    SplitPieces(piece, '>', k);
  }

  lemma {:induction false} FromSomePiece(pieces: seq<string>, r: Rule)
    requires r in FromPieces(pieces)
    ensures exists k :: 0 <= k < |pieces| && FromPiece(pieces[k]) == [r]
  {
    if r in FromPiece(pieces[0]) {
      assert FromPiece(pieces[0]) == [r];
    } else {
      FromSomePiece(pieces[1..], r);
      var k :| 0 <= k < |pieces[1..]| && FromPiece(pieces[1..][k]) == [r];
      assert pieces[k + 1] == pieces[1..][k];
    }
  }

  // ---- the merge --------------------------------------------------------------------------------

  /** Display name and normalised MAC per desired device; blank MACs dropped, first mention kept. */
  function Clean(desired: seq<(string, string)>): (r: seq<(string, string)>)
    ensures forall d :: d in r ==> d.1 != "" && Trimmed(d.1) && Canonical(d.1)
    ensures forall i, j :: 0 <= i < j < |r| ==> r[i].1 != r[j].1
  {
    if desired == [] then []
    else
      var init, d := Clean(desired[..|desired| - 1]), desired[|desired| - 1];
      var m := Norm(d.1);
      BlockList.NormIsNormal(d.1);
      if m == "" || exists i :: 0 <= i < |init| && init[i].1 == m then init
      else init + [(if d.0 != "" then d.0 else Upper(m), m)]
  }

  function Macs(clean: seq<(string, string)>): set<string> {
    set d | d in clean :: d.1
  }

  predicate Has(rules: seq<Rule>, m: string) {
    exists i :: 0 <= i < |rules| && Norm(rules[i].mac) == m
  }

  /** Every rule that is not one we put there; blank MACs pass too. */
  function Theirs(existing: seq<Rule>, prev: set<string>): seq<Rule> {
    Select(existing, (r: Rule) => Norm(r.mac) !in prev)
  }

  function OurRule(d: (string, string)): Rule {
    Rule(d.0, Upper(d.1), DNS_MODE_CUSTOM1)
  }

  /** Our rules: every desired device the user has no rule for. */
  function Ours(theirs: seq<Rule>, clean: seq<(string, string)>): (r: seq<Rule>)
    ensures forall x :: x in r ==> exists d :: d in clean && x == OurRule(d)
  {
    if clean == [] then []
    else
      var init, d := clean[..|clean| - 1], clean[|clean| - 1];
      assert clean == init + [d];
      Ours(theirs, init) + if Has(theirs, d.1) then [] else [OurRule(d)]
  }

  /** The rule is ours for this device, whose MAC no rule of the user's has: its label, its MAC in capitals, and the mode
      of the first custom address. */
  ghost predicate IsOurs(theirs: seq<Rule>, d: (string, string), r: Rule) {
    (forall t :: t in theirs ==> Norm(t.mac) != d.1) && r == Rule(d.0, Upper(d.1), "11")
  }

  lemma OneIsOurs(theirs: seq<Rule>, d: (string, string), r: Rule)
    ensures IsOurs(theirs, d, r) <==> !Has(theirs, d.1) && r == OurRule(d)
  {
    hide Norm, Upper;
    if t :| t in theirs && Norm(t.mac) == d.1 {
      var i :| 0 <= i < |theirs| && theirs[i] == t;
    }
  }

  /** There is one such rule for every desired device whose MAC no rule of the user's has, and nothing else. */
  lemma {:induction false} OursAre(theirs: seq<Rule>, clean: seq<(string, string)>, r: Rule)
    ensures r in Ours(theirs, clean) <==> exists d :: d in clean && IsOurs(theirs, d, r)
  {
    if clean != [] {
      hide IsOurs, Has, OurRule;
      var init, d := clean[..|clean| - 1], clean[|clean| - 1];
      OursAre(theirs, init, r);
      OneIsOurs(theirs, d, r);
      assert clean == init + [d];
    }
  }

  lemma {:induction false} CleanedMacs(pairs: seq<(string, string)>, m: string)
    ensures m in Macs(Clean(pairs)) <==> exists i :: 0 <= i < |pairs| && Norm(pairs[i].1) == m && m != ""
  {
    hide Norm;
    if pairs != [] {
      var init, last := pairs[..|pairs| - 1], pairs[|pairs| - 1];
      CleanedMacs(init, m);
      var before, after := Clean(init), Clean(pairs);
      if after != before {
        assert after[|before|] in after && after[..|before|] == before;
        assert forall d :: d in after <==> d in before || d == after[|before|];
      }
      assert forall i :: 0 <= i < |init| ==> init[i] == pairs[i];
    }
  }

  /** The first device with a MAC goes in under its name, or under the MAC in capitals if it has none. */
  lemma {:induction false} FirstMentionIsKept(desired: seq<(string, string)>, i: nat)
    requires i < |desired| && Norm(desired[i].1) != ""
    requires forall j :: 0 <= j < i ==> Norm(desired[j].1) != Norm(desired[i].1)
    ensures
      var m := Norm(desired[i].1);
      (if desired[i].0 != "" then desired[i].0 else Upper(m), m) in Clean(desired)
  {
    hide Norm, Upper;
    var init := desired[..|desired| - 1];
    var m := Norm(desired[i].1);
    if i < |init| {
      FirstMentionIsKept(init, i);
    } else {
      CleanedMacs(init, m);
      MacsHas(Clean(init), m);
    }
  }

  function Merged(existing: seq<Rule>, prev: set<string>, clean: seq<(string, string)>): seq<Rule> {
    Theirs(existing, prev) + Ours(Theirs(existing, prev), clean)
  }

  function Pushed(read: DnsNvram, prev: set<string>, desired: seq<(string, string)>, ip: string): DnsNvram {
    var merged := Merged(Parse(read.rulelist), prev, Clean(desired));
    DnsNvram(if merged != [] then "1" else "0",
      if Clean(desired) != [] then ip else if read.custom1 != "" then read.custom1 else ip,
      Print(merged))
  }

  lemma {:induction false} CleanIsEmpty(desired: seq<(string, string)>)
    ensures Clean(desired) == [] <==> forall d :: d in desired ==> Norm(d.1) == ""
  {
    hide Norm;
    if desired != [] {
      CleanIsEmpty(desired[..|desired| - 1]);
      assert desired == desired[..|desired| - 1] + [desired[|desired| - 1]];
      assert desired[|desired| - 1] in desired;
    }
  }

  /** The address written is the demanded one if any device is demanded, and the one that was there otherwise; the
      switch is on exactly while the list has a rule. */
  lemma PushedAddress(read: DnsNvram, prev: set<string>, desired: seq<(string, string)>, ip: string)
    ensures
      var written := Pushed(read, prev, desired, ip);
      && ((exists d :: d in desired && Norm(d.1) != "") ==> written.custom1 == ip)
      && ((forall d :: d in desired ==> Norm(d.1) == "") ==> written.custom1 == if read.custom1 != "" then read.custom1 else ip)
      && (written.enable == "1" <==> written.rulelist != "") && (written.enable == "0" <==> written.rulelist == "")
  {
    hide Norm, Merged, Parse, Clean;
    CleanIsEmpty(desired);
  }

  /** Reads the list, passes the user's rules through, appends ours, and writes everything back. */
  method ApplyManagedDnsDirector(read: DnsNvram, desired: seq<(string, string)>, ip: string,
          previouslyManaged: seq<string>)
    returns (written: DnsNvram)
    ensures written == Pushed(read, BlockList.Norms(previouslyManaged), desired, ip)
    ensures (exists d :: d in desired && Norm(d.1) != "") ==> written.custom1 == ip
    ensures (forall d :: d in desired ==> Norm(d.1) == "") ==> written.custom1 == if read.custom1 != "" then read.custom1 else ip
    ensures written.enable == "1" <==> written.rulelist != ""
    ensures written.enable == "0" <==> written.rulelist == ""
  {
    PushedAddress(read, BlockList.Norms(previouslyManaged), desired, ip);
    var prev := BlockList.Norms(previouslyManaged);
    var clean := CleanPairs(desired);
    var existing := GetManagedDnsRules(read.rulelist);
    var theirs := PassThrough(existing, prev);
    var merged := AppendOurs(theirs, clean);
    written := DnsNvram(if merged != [] then "1" else "0",
      if clean != [] then ip else if read.custom1 != "" then read.custom1 else ip,
      Print(merged));
  }

  method CleanPairs(desired: seq<(string, string)>) returns (clean: seq<(string, string)>)
    ensures clean == Clean(desired)
  {
    clean := [];
    var seen: set<string> := {};
    for i := 0 to |desired|
      invariant clean == Clean(desired[..i])
      invariant seen == Macs(clean)
    {
      assert desired[..i + 1][..i] == desired[..i];
      var m := Norm(desired[i].1);
      MacsHas(clean, m);
      if m == "" || m in seen {
        continue;
      }
      var d := (if desired[i].0 != "" then desired[i].0 else Upper(m), m);
      MacsSnoc(clean, d);
      seen := seen + {m};
      clean := clean + [d];
    }
    assert desired[..|desired|] == desired;
  }

  lemma MacsHas(clean: seq<(string, string)>, m: string)
    ensures m in Macs(clean) <==> exists k :: 0 <= k < |clean| && clean[k].1 == m
  {
  }

  lemma MacsSnoc(clean: seq<(string, string)>, d: (string, string))
    ensures Macs(clean + [d]) == Macs(clean) + {d.1}
  {
  }

  method PassThrough(existing: seq<Rule>, prev: set<string>) returns (merged: seq<Rule>)
    ensures merged == Theirs(existing, prev)
  {
    hide Norm;
    merged := [];
    for i := 0 to |existing|
      invariant merged == Theirs(existing[..i], prev)
    {
      SelectSnoc(existing, i, (r: Rule) => Norm(r.mac) !in prev);
      if Norm(existing[i].mac) in prev {
        continue;
      }
      merged := merged + [existing[i]];
    }
    assert existing[..|existing|] == existing;
  }

  method AppendOurs(theirs: seq<Rule>, clean: seq<(string, string)>) returns (merged: seq<Rule>)
    requires forall d :: d in clean ==> Trimmed(d.1) && Canonical(d.1)
    requires forall i, j :: 0 <= i < j < |clean| ==> clean[i].1 != clean[j].1
    ensures merged == theirs + Ours(theirs, clean)
  {
    merged := theirs;
    for i := 0 to |clean|
      invariant merged == theirs + Ours(theirs, clean[..i])
    {
      AppendStep(theirs, clean, i);
      if !Has(merged, clean[i].1) {
        merged := merged + [OurRule(clean[i])];
      }
    }
    assert clean[..|clean|] == clean;
  }

  lemma AppendStep(theirs: seq<Rule>, clean: seq<(string, string)>, i: nat)
    requires i < |clean|
    requires forall d :: d in clean ==> Trimmed(d.1) && Canonical(d.1)
    requires forall i, j :: 0 <= i < j < |clean| ==> clean[i].1 != clean[j].1
    ensures
      var sofar := theirs + Ours(theirs, clean[..i]);
      theirs + Ours(theirs, clean[..i + 1]) == if Has(sofar, clean[i].1) then sofar else sofar + [OurRule(clean[i])]
  {
    var ours := Ours(theirs, clean[..i]);
    var sofar := theirs + ours;
    assert clean[..i + 1][..i] == clean[..i];
    assert forall k :: 0 <= k < |theirs| ==> sofar[k] == theirs[k];
    forall k | |theirs| <= k < |sofar| ensures Norm(sofar[k].mac) != clean[i].1 {
      assert sofar[k] == ours[k - |theirs|] && sofar[k] in ours;
      var d :| d in clean[..i] && sofar[k] == OurRule(d);
      BlockList.CapitalsReadBack(d.1);
    }
    assert theirs + (ours + [OurRule(clean[i])]) == sofar + [OurRule(clean[i])];
    assert ours + [] == ours;
  }
}
