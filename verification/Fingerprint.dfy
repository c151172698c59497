/** Guessing a device's kind from the names it looks up. */
module Fingerprint {
  import opened Records
  import opened Text

  /** A text to look for, the label it stands for, and its tier: 1 is more specific than 2. */
  datatype Rule = Rule(needle: string, shown: string, tier: int)

  predicate IsAt(s: string, needle: string, i: nat) {
    i + |needle| <= |s| && s[i..i + |needle|] == needle
  }

  predicate Contains(s: string, needle: string) {
    exists i :: 0 <= i <= |s| && IsAt(s, needle, i)
  }

  function Lowered(qnames: seq<string>): set<string> {
    set q | q in qnames && q != "" :: Lower(q)
  }

  /** The distinct names a rule matches. */
  function Matched(names: set<string>, r: Rule): set<string> {
    set q | q in names && Contains(q, r.needle)
  }

  /** Rule `i` ranks before rule `j`: lower tier, then more distinct names, then listed earlier. */
  predicate Ahead(rules: seq<Rule>, names: set<string>, i: nat, j: nat)
    requires i < |rules| && j < |rules|
  {
    var a, b := |Matched(names, rules[i])|, |Matched(names, rules[j])|;
    rules[i].tier < rules[j].tier || (rules[i].tier == rules[j].tier && (a > b || (a == b && i < j)))
  }

  /** Rule `i` matches something, and every other rule that does ranks behind it. */
  ghost predicate Best(rules: seq<Rule>, names: set<string>, i: nat) {
    && i < |rules| && Matched(names, rules[i]) != {}
    && forall j :: 0 <= j < |rules| && j != i && Matched(names, rules[j]) != {} ==> Ahead(rules, names, i, j)
  }

  /** The right answer. */
  ghost predicate IsHint(rules: seq<Rule>, names: set<string>, hint: Option<string>) {
    if hint.None? then forall j :: 0 <= j < |rules| ==> Matched(names, rules[j]) == {}
    else exists i: nat :: Best(rules, names, i) && hint.value == rules[i].shown
  }

  /** Only the set of lower-case names matters: neither order, repetition nor case of the sample does. */
  lemma HintIsUnique(rules: seq<Rule>, a: seq<string>, b: seq<string>, hintA: Option<string>, hintB: Option<string>)
    requires Lowered(a) == Lowered(b)
    requires IsHint(rules, Lowered(a), hintA) && IsHint(rules, Lowered(b), hintB)
    ensures hintA == hintB
  {
  }

  /** A specific rule that fires always beats the rules that only point at a vendor. */
  lemma SpecificBeatsVendor(rules: seq<Rule>, names: set<string>, hint: Option<string>, i: nat)
    requires IsHint(rules, names, hint) && i < |rules| && rules[i].tier == 1 && Matched(names, rules[i]) != {}
    requires forall k :: 0 <= k < |rules| ==> rules[k].tier >= 1
    ensures hint.Some? && exists k :: 0 <= k < |rules| && rules[k].tier == 1 && hint.value == rules[k].shown && Matched(names, rules[k]) != {}
  {
  }

  // ---- does the order of the rules matter? ----------------------------------------------------------

  predicate Fires(names: set<string>, r: Rule) {
    Matched(names, r) != {}
  }

  /** `r` is at least as specific as `q`, and if equally so matches at least as many names. */
  predicate Leads(names: set<string>, r: Rule, q: Rule) {
    r.tier < q.tier || (r.tier == q.tier && |Matched(names, r)| >= |Matched(names, q)|)
  }

  /** `r` fires and no rule beats it but by its place in the list. */
  ghost predicate Top(rules: seq<Rule>, names: set<string>, r: Rule) {
    r in rules && Fires(names, r) && forall q :: q in rules && Fires(names, q) ==> Leads(names, r, q)
  }

  predicate Reordered(rules: seq<Rule>, a: seq<Rule>) {
    multiset(a) == multiset(rules)
  }

  /** Every order of the rules gives the same hint. */
  ghost predicate OrderIrrelevant(rules: seq<Rule>, names: set<string>) {
    forall a, b, h, k :: Reordered(rules, a) && Reordered(rules, b) && IsHint(a, names, h) && IsHint(b, names, k) ==> h == k
  }

  lemma SameMembers(rules: seq<Rule>, a: seq<Rule>)
    requires Reordered(rules, a)
    ensures forall r :: r in a <==> r in rules
  {
    forall r ensures r in a <==> r in rules {
      assert r in multiset(a) <==> r in multiset(rules);
    }
  }

  lemma HintIsTop(rules: seq<Rule>, a: seq<Rule>, names: set<string>, h: Option<string>)
    requires Reordered(rules, a) && IsHint(a, names, h)
    ensures h.Some? ==> exists r :: Top(rules, names, r) && r.shown == h.value
    ensures h.None? ==> forall r :: r in rules ==> !Fires(names, r)
  {
    hide Matched;
    SameMembers(rules, a);
    if h.Some? {
      var i: nat :| Best(a, names, i) && h.value == a[i].shown;
      forall q | q in rules && Fires(names, q) ensures Leads(names, a[i], q) {
        var j :| 0 <= j < |a| && a[j] == q;
        assert j != i ==> Ahead(a, names, i, j);
      }
      assert Top(rules, names, a[i]);
    } else {
      forall r | r in rules ensures !Fires(names, r) {
        var j :| 0 <= j < |a| && a[j] == r;
      }
    }
  }

  function ToFront(rules: seq<Rule>, i: nat): seq<Rule>
    requires i < |rules|
  {
    [rules[i]] + (rules[..i] + rules[i + 1..])
  }

  /** A top rule put first is the hint. */
  lemma TopInFrontWins(rules: seq<Rule>, names: set<string>, i: nat)
    requires i < |rules| && Top(rules, names, rules[i])
    ensures Reordered(rules, ToFront(rules, i)) && IsHint(ToFront(rules, i), names, Some(rules[i].shown))
  {
    hide Matched;
    var a := ToFront(rules, i);
    assert rules == rules[..i] + [rules[i]] + rules[i + 1..];
    SameMembers(rules, a);
    forall j | 0 <= j < |a| && j != 0 && Matched(names, a[j]) != {} ensures Ahead(a, names, 0, j) {
      assert a[j] in a && Fires(names, a[j]);
      assert Leads(names, a[0], a[j]);
    }
    assert Best(a, names, 0);
  }

  /** The order of the rules does not matter if and only if all rules tied at the top show the same label. */
  lemma OrderIrrelevantIff(rules: seq<Rule>, names: set<string>)
    ensures OrderIrrelevant(rules, names) <==>
      forall r, q :: Top(rules, names, r) && Top(rules, names, q) ==> r.shown == q.shown
  {
    hide IsHint, Top, Reordered;
    if forall r, q :: Top(rules, names, r) && Top(rules, names, q) ==> r.shown == q.shown {
      forall a, b, h, k | Reordered(rules, a) && Reordered(rules, b) && IsHint(a, names, h) && IsHint(b, names, k)
        ensures h == k
      {
        HintIsTop(rules, a, names, h);
        HintIsTop(rules, b, names, k);
        NoTopUnlessFiring(rules, names);
      }
    }
    if OrderIrrelevant(rules, names) {
      forall r, q | Top(rules, names, r) && Top(rules, names, q) ensures r.shown == q.shown {
        NoTopUnlessFiring(rules, names);
        var i :| 0 <= i < |rules| && rules[i] == r;
        var j :| 0 <= j < |rules| && rules[j] == q;
        TopInFrontWins(rules, names, i);
        TopInFrontWins(rules, names, j);
      }
    }
  }

  lemma NoTopUnlessFiring(rules: seq<Rule>, names: set<string>)
    ensures forall r :: Top(rules, names, r) ==> r in rules && Fires(names, r)
  {
  }

  const SAMSUNG := Rule("samsungosp.com", "Samsung Smart TV", 1)
  const LG := Rule("lgwebos.com", "LG Smart TV", 1)

  /** Seven letters of the second include its `b`, which the first has not. */
  lemma NothingInCommon(needle: string)
    requires |needle| >= 7
    ensures Contains(LG.needle, needle) ==> 'b' in needle
    ensures Contains(SAMSUNG.needle, needle) ==> 'b' !in needle
  {
    forall j | 0 <= j <= |LG.needle| && IsAt(LG.needle, needle, j) ensures 'b' in needle {
      assert needle[4 - j] == LG.needle[4];
    }
    forall i | 0 <= i <= |SAMSUNG.needle| && IsAt(SAMSUNG.needle, needle, i) ensures 'b' !in needle {
      assert forall k :: 0 <= k < |needle| ==> needle[k] == SAMSUNG.needle[i + k];
    }
  }

  lemma MatchesOne(r: Rule, own: Rule)
    requires |r.needle| >= 7 && own in {SAMSUNG, LG}
    ensures |Matched({SAMSUNG.needle, LG.needle}, r)| <= 1
    ensures Matched({SAMSUNG.needle, LG.needle}, own) == {own.needle}
  {
    hide Contains;
    NothingInCommon(r.needle);
    NothingInCommon(own.needle);
    ContainsItself(own.needle);
    var names := {SAMSUNG.needle, LG.needle};
    assert SAMSUNG.needle[0] != LG.needle[0];
    if Contains(SAMSUNG.needle, r.needle) {
      assert Matched(names, r) == {SAMSUNG.needle};
    } else if Contains(LG.needle, r.needle) {
      assert Matched(names, r) == {LG.needle};
    } else {
      assert Matched(names, r) == {};
    }
  }

  lemma ContainsItself(s: string)
    ensures Contains(s, s)
  {
    assert IsAt(s, s, 0);
  }

  /** It does matter for the source's own table, all of whose texts have at least seven letters: a sample of one
      name from each of two of its rows is a tie between two televisions. */
  lemma OrderCanMatter(rules: seq<Rule>)
    requires SAMSUNG in rules && LG in rules
    requires forall r :: r in rules ==> |r.needle| >= 7 && r.tier >= 1
    ensures !OrderIrrelevant(rules, {SAMSUNG.needle, LG.needle})
  {
    hide Matched, IsHint, Reordered;
    var names := {SAMSUNG.needle, LG.needle};
    forall r | r in rules ensures |Matched(names, r)| <= 1 {
      MatchesOne(r, LG);
    }
    MatchesOne(SAMSUNG, SAMSUNG);
    MatchesOne(LG, LG);
    assert Top(rules, names, SAMSUNG) && Top(rules, names, LG);
    OrderIrrelevantIff(rules, names);
    assert SAMSUNG.shown[0] != LG.shown[0];
  }

  method HintFromQnames(rules: seq<Rule>, qnames: seq<string>) returns (hint: Option<string>)
    ensures IsHint(rules, Lowered(qnames), hint)
  {
    var matches: map<nat, set<string>> := map[];
    for k := 0 to |qnames|
      invariant Counted(rules, Lowered(qnames[..k]), matches)
    {
      var ql := Lower(qnames[k]);
      OneMore(qnames, k);
      if qnames[k] == "" {
        continue;
      }
      matches := CountName(rules, Lowered(qnames[..k]), matches, ql);
    }
    assert qnames[..|qnames|] == qnames;
    hint := PickBest(rules, Lowered(qnames), matches);
  }

  /** `matches` holds, for each rule that fired, the distinct names it matched. */
  ghost predicate Counted(rules: seq<Rule>, names: set<string>, matches: map<nat, set<string>>) {
    && (forall i :: i in matches ==> i < |rules|)
    && (forall i :: 0 <= i < |rules| ==> Counts(rules[i], names, matches, i))
  }

  predicate Counts(r: Rule, names: set<string>, matches: map<nat, set<string>>, i: nat) {
    if i in matches then matches[i] == Matched(names, r) && matches[i] != {} else Matched(names, r) == {}
  }

  lemma OneMore(qnames: seq<string>, k: nat)
    requires k < |qnames|
    ensures Lowered(qnames[..k + 1]) == Lowered(qnames[..k]) + if qnames[k] == "" then {} else {Lower(qnames[k])}
  {
  }

  lemma MatchedOneMore(names: set<string>, ql: string, r: Rule)
    ensures Matched(names + {ql}, r) == Matched(names, r) + if Contains(ql, r.needle) then {ql} else {}
  {
  }

  method CountName(rules: seq<Rule>, ghost names: set<string>, before: map<nat, set<string>>, ql: string)
    returns (matches: map<nat, set<string>>)
    requires Counted(rules, names, before)
    ensures Counted(rules, names + {ql}, matches)
  {
    hide Matched, Contains;
    matches := before;
    for i := 0 to |rules|
      invariant forall j :: j in matches ==> j < |rules|
      invariant forall j :: 0 <= j < i ==> Counts(rules[j], names + {ql}, matches, j)
      invariant forall j :: i <= j < |rules| ==> Counts(rules[j], names, matches, j)
    {
      MatchedOneMore(names, ql, rules[i]);
      if Contains(ql, rules[i].needle) {
        matches := matches[i := (if i in matches then matches[i] else {}) + {ql}];
      }
    }
  }

  lemma AheadIsTransitive(rules: seq<Rule>, names: set<string>, i: nat, j: nat, k: nat)
    requires i < |rules| && j < |rules| && k < |rules|
    ensures Ahead(rules, names, i, j) && Ahead(rules, names, j, k) ==> Ahead(rules, names, i, k)
    ensures i != j ==> Ahead(rules, names, i, j) || Ahead(rules, names, j, i)
  {
    hide Matched;
  }

  method PickBest(rules: seq<Rule>, ghost names: set<string>, matches: map<nat, set<string>>)
    returns (hint: Option<string>)
    requires Counted(rules, names, matches)
    ensures IsHint(rules, names, hint)
  {
    if matches == map[] {
      return None;
    }
    hide Matched, Ahead, Counts;
    var first :| first in matches;
    var best, todo := first, matches.Keys - {first};
    while todo != {}
      invariant todo <= matches.Keys && best in matches && best !in todo
      invariant forall j :: j in matches && j !in todo && j != best ==> Ahead(rules, names, best, j)
      decreases |todo|
    {
      var idx :| idx in todo;
      todo := todo - {idx};
      var tier, count := rules[idx].tier, |matches[idx]|;
      AheadIsTransitive(rules, names, idx, best, idx);
      if tier < rules[best].tier || (tier == rules[best].tier && (count > |matches[best]| || (count == |matches[best]| && idx < best))) {
        forall j | j in matches && j !in todo && j != idx ensures Ahead(rules, names, idx, j) {
          AheadIsTransitive(rules, names, idx, best, j);
        }
        best := idx;
      }
    }
    assert Best(rules, names, best);
    return Some(rules[best].shown);
  }

}
