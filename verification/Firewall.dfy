/** The router's packet filter as the SSH stage sees it: the FORWARD chain it shares with the user, its own chain
    and its address set; and what a packet meets there. */
module Firewall {
  import opened Records
  import opened Text
  import opened Sorting
  import opened Selections

  datatype Proto = Tcp | Udp | OtherProto

  /** A rule of FORWARD: the jump to our chain, or a rule of the user or the firmware. */
  datatype ForwardRule = Jump | UserRule(tag: int)

  /** MAC, one of our protocol and port pairs, and a destination in our address set: dropped. */
  datatype DropRule = DropRule(mac: string, proto: Proto, port: int)

  datatype Tables = Tables(forward: seq<ForwardRule>, chain: Option<seq<DropRule>>, ipset: Option<set<string>>)

  datatype Packet = Packet(mac: string, dst: string, proto: Proto, port: int)

  datatype Verdict = Accept | Drop

  /** What the user's rules, the networks and the chain policy say; nothing of it is ours. */
  datatype World = World(judge: (int, Packet) -> Option<Verdict>, inNet: (string, string) -> bool, policy: Verdict)

  // ---- what a packet meets ----------------------------------------------------------------------

  predicate InSet(w: World, nets: set<string>, dst: string) {
    exists net :: net in nets && w.inNet(net, dst)
  }

  predicate Hits(w: World, r: DropRule, nets: set<string>, p: Packet) {
    r.mac == p.mac && r.proto == p.proto && r.port == p.port && InSet(w, nets, p.dst)
  }

  predicate DroppedByChain(w: World, t: Tables, p: Packet) {
    t.chain.Some? && t.ipset.Some? && exists r :: r in t.chain.value && Hits(w, r, t.ipset.value, p)
  }

  /** First match wins. */
  function VerdictFrom(w: World, rules: seq<ForwardRule>, dropped: bool, p: Packet): Verdict {
    if rules == [] then w.policy
    else if rules[0].Jump? then
      if dropped then Drop else VerdictFrom(w, rules[1..], dropped, p)
    else if w.judge(rules[0].tag, p).Some? then w.judge(rules[0].tag, p).value
    else VerdictFrom(w, rules[1..], dropped, p)
  }

  function VerdictOf(w: World, t: Tables, p: Packet): Verdict {
    VerdictFrom(w, t.forward, DroppedByChain(w, t, p), p)
  }

  function UserRules(rules: seq<ForwardRule>): seq<ForwardRule> {
    Select(rules, (r: ForwardRule) => r.UserRule?)
  }

  function Jumps(rules: seq<ForwardRule>): nat {
    |Select(rules, (r: ForwardRule) => r.Jump?)|
  }

  /** The verdict of the user's own rules. */
  function UserVerdict(w: World, rules: seq<ForwardRule>, p: Packet): Verdict {
    VerdictFrom(w, UserRules(rules), false, p)
  }

  /** Some user rule in front of the first jump decides the packet. */
  predicate DecidedAhead(w: World, rules: seq<ForwardRule>, p: Packet) {
    rules != [] && rules[0].UserRule? && (w.judge(rules[0].tag, p).Some? || DecidedAhead(w, rules[1..], p))
  }

  lemma {:induction false} NotDroppedMeansUser(w: World, rules: seq<ForwardRule>, p: Packet)
    ensures VerdictFrom(w, rules, false, p) == UserVerdict(w, rules, p)
  {
    if rules != [] {
      NotDroppedMeansUser(w, rules[1..], p);
      assert rules == [rules[0]] + rules[1..];
      SelectCons(rules[0], rules[1..], (r: ForwardRule) => r.UserRule?);
      if rules[0].UserRule? {
        assert ([rules[0]] + UserRules(rules[1..]))[1..] == UserRules(rules[1..]);
      } else {
        assert UserRules(rules) == UserRules(rules[1..]);
      }
    }
  }

  /** With a jump somewhere: a packet our chain drops is dropped unless the user decided it ahead of the jump;
      every other packet gets the verdict of the user's own rules. */
  lemma {:induction false} Transparent(w: World, rules: seq<ForwardRule>, dropped: bool, p: Packet)
    requires Jump in rules
    ensures VerdictFrom(w, rules, dropped, p) ==
      if dropped && !DecidedAhead(w, rules, p) then Drop else UserVerdict(w, rules, p)
  {
    if !dropped {
      NotDroppedMeansUser(w, rules, p);
    } else if rules[0].UserRule? {
      assert rules == [rules[0]] + rules[1..];
      Transparent(w, rules[1..], dropped, p);
      SelectCons(rules[0], rules[1..], (r: ForwardRule) => r.UserRule?);
      assert ([rules[0]] + UserRules(rules[1..]))[1..] == UserRules(rules[1..]);
    }
  }

  // ---- the tables the stage aims for ---------------------------------------------------------------

  /** What `iptables -m mac --mac-source` accepts: six pairs of hexadecimal digits with colons between. */
  predicate Accepted(mac: string) {
    |mac| == 17 && forall i :: 0 <= i < 17 ==> if i % 3 == 2 then mac[i] == ':' else '0' <= mac[i] <= '9' || 'A' <= mac[i] <= 'F'
  }

  lemma AcceptedIs(mac: string)
    ensures Accepted(mac) <==> |mac| == 17 && forall i :: 0 <= i < 17 ==> mac[i] in (if i in {2, 5, 8, 11, 14} then ":" else "0123456789ABCDEF")
  {
    assert forall c: char :: c in "0123456789ABCDEF" <==> '0' <= c <= '9' || 'A' <= c <= 'F' by { HexDigits(); }
  }

  lemma HexDigits()
    ensures forall c: char :: c in "0123456789ABCDEF" <==> '0' <= c <= '9' || 'A' <= c <= 'F'
  {
    var digits := "0123456789ABCDEF";
    forall c: char | '0' <= c <= '9' ensures c in digits { assert digits[c as int - '0' as int] == c; }
    forall c: char | 'A' <= c <= 'F' ensures c in digits { assert digits[c as int - 'A' as int + 10] == c; }
  }

  function RulesOf(mac: string): seq<DropRule> {
    if Accepted(Upper(mac)) then
      [DropRule(Upper(mac), Tcp, 443), DropRule(Upper(mac), Udp, 443), DropRule(Upper(mac), Tcp, 853)]
    else []
  }

  function RulesFor(macs: seq<string>): seq<DropRule> {
    if macs == [] then [] else RulesOf(macs[0]) + RulesFor(macs[1..])
  }

  function Stripped(texts: seq<string>): seq<string> {
    if texts == [] then []
    else (if Strip(texts[0]) != "" then [Strip(texts[0])] else []) + Stripped(texts[1..])
  }

  function WithColons(macs: seq<string>): seq<string> {
    if macs == [] then []
    else (if ':' in macs[0] then [Lower(Strip(macs[0]))] else []) + WithColons(macs[1..])
  }

  /** The stripped lower-case MACs that contain a colon, in order, each once. */
  function CleanMacs(macs: seq<string>): seq<string> {
    SortedSet(WithColons(macs))
  }

  function Elements(list: seq<string>): set<string> {
    set ip | ip in list
  }

  /** The addresses that are not blank, stripped. */
  function Nets(ips: seq<string>): set<string> {
    set raw | raw in ips && Strip(raw) != "" :: Strip(raw)
  }

  lemma {:induction false} StrippedHolds(ips: seq<string>)
    ensures Elements(Stripped(ips)) == Nets(ips)
  {
    if ips != [] {
      hide Strip;
      StrippedHolds(ips[1..]);
      assert ips == [ips[0]] + ips[1..];
      assert Nets(ips) == Nets(ips[1..]) + if Strip(ips[0]) != "" then {Strip(ips[0])} else {};
    }
  }

  function WithJump(rules: seq<ForwardRule>): seq<ForwardRule> {
    if Jump in rules then rules else [Jump] + rules
  }

  function WithoutFirstJump(rules: seq<ForwardRule>): seq<ForwardRule> {
    if rules == [] then []
    else if rules[0].Jump? then rules[1..]
    else [rules[0]] + WithoutFirstJump(rules[1..])
  }

  /** After a whole push. */
  function Installed(t: Tables, macs: seq<string>, ips: seq<string>): Tables {
    Tables(WithJump(t.forward), Some(RulesFor(CleanMacs(macs))), Some(Nets(ips)))
  }

  /** After a whole tear-down: one jump goes; the chain goes with the last of them. */
  function TornDown(t: Tables): Tables {
    var rules := WithoutFirstJump(t.forward);
    Tables(rules, if Jump in rules then Some([]) else None, None)
  }

  /** As if we had never been there. */
  function Untouched(t: Tables): Tables {
    Tables(UserRules(t.forward), None, None)
  }

  /** What iptables and ipset themselves guarantee: no jump to a chain that is not there, no rule about a set that
      is not there. */
  predicate Kernel(t: Tables) {
    && (Jump in t.forward ==> t.chain.Some?)
    && (t.chain.Some? && t.chain.value != [] ==> t.ipset.Some?)
  }

  // ---- lemmas about them ------------------------------------------------------------------------------

  lemma {:induction false} JumpsOf(rules: seq<ForwardRule>)
    ensures Jumps(rules) > 0 <==> Jump in rules
    ensures Jumps(WithoutFirstJump(rules)) == if Jump in rules then Jumps(rules) - 1 else 0
    ensures Jump !in rules ==> WithoutFirstJump(rules) == rules
  {
    if rules != [] {
      JumpsOf(rules[1..]);
      assert rules == [rules[0]] + rules[1..];
      SelectCons(rules[0], WithoutFirstJump(rules[1..]), (r: ForwardRule) => r.Jump?);
    }
  }

  lemma {:induction false} UserRulesOf(rules: seq<ForwardRule>)
    ensures Jump !in rules ==> UserRules(rules) == rules
    ensures UserRules(WithoutFirstJump(rules)) == UserRules(rules)
  {
    if rules != [] {
      UserRulesOf(rules[1..]);
      assert rules == [rules[0]] + rules[1..];
      SelectCons(rules[0], WithoutFirstJump(rules[1..]), (r: ForwardRule) => r.UserRule?);
    }
  }

  lemma JumpsCount(rules: seq<ForwardRule>)
    ensures Jumps(rules) > 0 <==> Jump in rules
    ensures Jumps(rules) == 0 ==> UserRules(rules) == rules
    ensures Jumps(WithoutFirstJump(rules)) == if Jump in rules then Jumps(rules) - 1 else 0
    ensures UserRules(WithoutFirstJump(rules)) == UserRules(rules)
    ensures Jump !in rules ==> WithoutFirstJump(rules) == rules
  {
    JumpsOf(rules);
    UserRulesOf(rules);
  }

  lemma WithJumpCounts(rules: seq<ForwardRule>)
    ensures UserRules(WithJump(rules)) == UserRules(rules)
    ensures UserRules([Jump] + rules) == UserRules(rules) && Jumps([Jump] + rules) == Jumps(rules) + 1
    ensures Jumps(WithJump(rules)) == if Jumps(rules) == 0 then 1 else Jumps(rules)
  {
    SelectCons(Jump, rules, (r: ForwardRule) => r.UserRule?);
    SelectCons(Jump, rules, (r: ForwardRule) => r.Jump?);
    JumpsCount(rules);
  }

  /** A tear-down leaves the user's firewall and nothing else if and only if there was at most one jump; the
      chain's deletion is then never held up by a reference. */
  lemma TearDownRestoresIff(t: Tables)
    requires Kernel(t)
    ensures TornDown(t) == Untouched(t) <==> Jumps(t.forward) <= 1
  {
    JumpsCount(t.forward);
    JumpsCount(WithoutFirstJump(t.forward));
    JumpsCount(UserRules(t.forward));
    if Jumps(t.forward) > 1 {
      assert Jump in TornDown(t).forward && Jump !in Untouched(t).forward;
    }
  }

  /** A rule of the list belongs to one of the MACs and one of the three pairs. */
  lemma {:induction false} RulesForHas(macs: seq<string>, r: DropRule)
    ensures r in RulesFor(macs) <==>
      Accepted(r.mac) && (r.proto, r.port) in {(Tcp, 443), (Udp, 443), (Tcp, 853)} && exists m :: m in macs && Upper(m) == r.mac
  {
    if macs != [] {
      RulesForHas(macs[1..], r);
      assert macs == [macs[0]] + macs[1..];
      assert r in RulesOf(macs[0]) <==>
        Accepted(r.mac) && (r.proto, r.port) in {(Tcp, 443), (Udp, 443), (Tcp, 853)} && Upper(macs[0]) == r.mac;
      assert (exists m :: m in macs && Upper(m) == r.mac) <==> Upper(macs[0]) == r.mac || exists m :: m in macs[1..] && Upper(m) == r.mac;
    }
  }

  lemma {:induction false} WithColonsHas(macs: seq<string>, m: string)
    ensures m in WithColons(macs) <==> exists raw :: raw in macs && ':' in raw && m == Lower(Strip(raw))
  {
    if macs != [] {
      WithColonsHas(macs[1..], m);
      assert macs == [macs[0]] + macs[1..];
      if m in WithColons(macs) && m in WithColons(macs[1..]) {
        var raw :| raw in macs[1..] && ':' in raw && m == Lower(Strip(raw));
        assert raw in macs;
      }
      if raw :| raw in macs && ':' in raw && m == Lower(Strip(raw)) {
        assert raw == macs[0] || raw in macs[1..];
      }
    }
  }

  /** The packet is from a device of the list, to an address of the set, on 443 over TCP or UDP or 853 over TCP. */
  predicate Wanted(w: World, macs: seq<string>, ips: seq<string>, p: Packet) {
    && (exists m :: m in macs && ':' in m && Upper(Strip(m)) == p.mac)
    && Accepted(p.mac)
    && (exists raw :: raw in ips && Strip(raw) != "" && w.inNet(Strip(raw), p.dst))
    && (p.proto, p.port) in {(Tcp, 443), (Udp, 443), (Tcp, 853)}
  }

  lemma UpperOfLower(s: string)
    ensures Upper(Lower(s)) == Upper(s)
  {
  }

  lemma CleanMacsHold(macs: seq<string>, mac: string)
    ensures Ascending(CleanMacs(macs))
    ensures (exists m :: m in CleanMacs(macs) && Upper(m) == mac) <==> exists raw :: raw in macs && ':' in raw && Upper(Strip(raw)) == mac
  {
    if m :| m in CleanMacs(macs) && Upper(m) == mac {
      WithColonsHas(macs, m);
      var raw :| raw in macs && ':' in raw && m == Lower(Strip(raw));
      UpperOfLower(Strip(raw));
    }
    if raw :| raw in macs && ':' in raw && Upper(Strip(raw)) == mac {
      WithColonsHas(macs, Lower(Strip(raw)));
      UpperOfLower(Strip(raw));
    }
  }

  lemma InSetIs(w: World, ips: seq<string>, dst: string)
    ensures InSet(w, Nets(ips), dst) <==> exists raw :: raw in ips && Strip(raw) != "" && w.inNet(Strip(raw), dst)
  {
    hide Strip;
    if raw :| raw in ips && Strip(raw) != "" && w.inNet(Strip(raw), dst) {
      assert Strip(raw) in Nets(ips);
    }
  }

  /** After a push our chain drops exactly the wanted packets. */
  lemma InstalledDropsTheWanted(w: World, t: Tables, macs: seq<string>, ips: seq<string>, p: Packet)
    ensures DroppedByChain(w, Installed(t, macs, ips), p) <==> Wanted(w, macs, ips, p)
  {
    var r := DropRule(p.mac, p.proto, p.port);
    hide Accepted, Upper, Strip, CleanMacs;
    RulesForHas(CleanMacs(macs), r);
    CleanMacsHold(macs, p.mac);
    InSetIs(w, ips, p.dst);
    if DroppedByChain(w, Installed(t, macs, ips), p) {
      var hit :| hit in RulesFor(CleanMacs(macs)) && Hits(w, hit, Nets(ips), p);
      assert hit == r;
    }
  }

  /** After a push a packet is dropped by us exactly when it is wanted and the user has not decided it ahead of
      our jump, and gets the verdict of the user's own rules otherwise. */
  lemma PushIsTransparent(w: World, t: Tables, macs: seq<string>, ips: seq<string>, p: Packet)
    ensures VerdictOf(w, Installed(t, macs, ips), p) ==
      if Wanted(w, macs, ips, p) && !DecidedAhead(w, WithJump(t.forward), p) then Drop else UserVerdict(w, t.forward, p)
  {
    var after := Installed(t, macs, ips);
    InstalledDropsTheWanted(w, t, macs, ips, p);
    assert Jump in after.forward;
    Transparent(w, after.forward, DroppedByChain(w, after, p), p);
    WithJumpCounts(t.forward);
  }

  /** A jump that is there already is not moved to the top.  The push blocks every wanted packet if and only if
      no user rule ahead of the jump accepts one. */
  lemma BlocksAllWantedIff(w: World, t: Tables, macs: seq<string>, ips: seq<string>)
    ensures (forall p :: Wanted(w, macs, ips, p) ==> VerdictOf(w, Installed(t, macs, ips), p) == Drop) <==>
      forall p :: Wanted(w, macs, ips, p) && DecidedAhead(w, WithJump(t.forward), p) ==> UserVerdict(w, t.forward, p) == Drop
  {
    forall p ensures Wanted(w, macs, ips, p) ==>
        (VerdictOf(w, Installed(t, macs, ips), p) == Drop <==>
          (DecidedAhead(w, WithJump(t.forward), p) ==> UserVerdict(w, t.forward, p) == Drop))
    {
      PushIsTransparent(w, t, macs, ips, p);
    }
  }
}
