/** The ASUS "Block Internet Access" list: our entries merged with the user's, tick after tick. */
module BlockList {
  import opened Text
  import opened Nvram
  import opened Selections

  /** One device of the three parallel lists. */
  datatype Entry = Entry(mac: string, name: string, day: string)

  /** The NVRAM variables the stage writes. */
  datatype BlockNvram = BlockNvram(enable: string, macs: string, names: string, days: string)

  /** Lower case, colons for dashes, stripped; blank stands for no MAC. */
  function AsusNorm(mac: string): string {
    Strip(DashesToColons(Lower(mac)))
  }

  lemma BlankIsNoMac()
    ensures AsusNorm("") == ""
  {
  }

  // ---- the merge ---------------------------------------------------------------------------

  /** Normalised MACs, blanks dropped, first mention kept. */
  function Clean(macs: seq<string>): (r: seq<string>)
    ensures forall m :: m in r ==> m != "" && exists raw :: raw in macs && AsusNorm(raw) == m
    ensures forall i, j :: 0 <= i < j < |r| ==> r[i] != r[j]
  {
    if macs == [] then []
    else
      var init, raw := macs[..|macs| - 1], macs[|macs| - 1];
      assert macs == init + [raw];
      if AsusNorm(raw) == "" || AsusNorm(raw) in Clean(init) then Clean(init) else Clean(init) + [AsusNorm(raw)]
  }

  /** Every nonblank MAC of the list is in its cleaned form. */
  lemma {:induction false} CleanHasAll(macs: seq<string>)
    ensures forall raw :: raw in macs && AsusNorm(raw) != "" ==> AsusNorm(raw) in Clean(macs)
  {
    if macs != [] {
      assert macs == macs[..|macs| - 1] + [macs[|macs| - 1]];
      CleanHasAll(macs[..|macs| - 1]);
    }
  }

  function Norms(macs: seq<string>): set<string> {
    set raw | raw in macs && AsusNorm(raw) != "" :: AsusNorm(raw)
  }

  /** The user's entries: a MAC that is not blank and that we did not put there. */
  function Theirs(entries: seq<Entry>, prev: set<string>): seq<Entry> {
    Select(entries, (e: Entry) => AsusNorm(e.mac) != "" && AsusNorm(e.mac) !in prev)
  }

  function Label(labels: map<string, string>, m: string): string {
    if m in labels && labels[m] != "" then labels[m] else Upper(m)
  }

  predicate Has(entries: seq<Entry>, m: string) {
    exists i :: 0 <= i < |entries| && AsusNorm(entries[i].mac) == m
  }

  /** Our entries: every desired MAC the user has no entry for, blocked always. */
  function Ours(theirs: seq<Entry>, desired: seq<string>, labels: map<string, string>): (r: seq<Entry>)
    ensures forall e :: e in r ==> exists m :: m in desired && e.mac == Upper(m)
  {
    if desired == [] then []
    else
      var init, m := desired[..|desired| - 1], desired[|desired| - 1];
      assert desired == init + [m];
      Ours(theirs, init, labels) + if Has(theirs, m) then [] else [Entry(Upper(m), Label(labels, m), "")]
  }

  /** The entry is ours for this MAC, which no entry of the user's has: in capitals, under its label or else its MAC,
      without a schedule. */
  ghost predicate IsOurs(theirs: seq<Entry>, m: string, labels: map<string, string>, e: Entry) {
    && (forall t :: t in theirs ==> AsusNorm(t.mac) != m)
    && e.mac == Upper(m) && e.day == "" && e.name == if m in labels && labels[m] != "" then labels[m] else Upper(m)
  }

  lemma OneIsOurs(theirs: seq<Entry>, m: string, labels: map<string, string>, e: Entry)
    ensures IsOurs(theirs, m, labels, e) <==> !Has(theirs, m) && e == Entry(Upper(m), Label(labels, m), "")
  {
    hide AsusNorm, Upper;
    if t :| t in theirs && AsusNorm(t.mac) == m {
      var i :| 0 <= i < |theirs| && theirs[i] == t;
    }
  }

  /** There is one such entry for every desired MAC that no entry of the user's has, and nothing else. */
  lemma {:induction false} OursAre(theirs: seq<Entry>, desired: seq<string>, labels: map<string, string>, e: Entry)
    ensures e in Ours(theirs, desired, labels) <==> exists m :: m in desired && IsOurs(theirs, m, labels, e)
  {
    if desired != [] {
      hide IsOurs, Has, Upper, Label;
      var init, m := desired[..|desired| - 1], desired[|desired| - 1];
      OursAre(theirs, init, labels, e);
      OneIsOurs(theirs, m, labels, e);
      assert desired == init + [m];
    }
  }

  function Merged(entries: seq<Entry>, prev: set<string>, desired: seq<string>,
          labels: map<string, string>): seq<Entry> {
    var theirs := Theirs(entries, prev);
    theirs + Ours(theirs, Clean(desired), labels)
  }

  // ---- reading and writing NVRAM ---------------------------------------------------------------

  function Padded(parts: seq<string>, i: nat): string {
    if i < |parts| then parts[i] else ""
  }

  /** Decode, split, and pad the names and schedules to the MACs. */
  function Parse(nv: BlockNvram): seq<Entry> {
    var macs := Split(Decode(nv.macs), '>');
    var names, days := Split(Decode(nv.names), '>'), Split(Decode(nv.days), '>');
    if macs == [""] then [] else seq(|macs|, i requires 0 <= i < |macs| => Entry(macs[i], Padded(names, i), Padded(days, i)))
  }

  /** One entry per piece of the MAC list, with the name and the schedule at the same place, blank where those lists are
      shorter. */
  lemma ParseIs(nv: BlockNvram, i: nat)
    requires Decode(nv.macs) != "" && i < |Split(Decode(nv.macs), '>')|
    ensures
      var names, days := Split(Decode(nv.names), '>'), Split(Decode(nv.days), '>');
      |Parse(nv)| == |Split(Decode(nv.macs), '>')|
      && Parse(nv)[i].mac == Split(Decode(nv.macs), '>')[i]
      && (i < |names| ==> Parse(nv)[i].name == names[i]) && (i >= |names| ==> Parse(nv)[i].name == "")
      && (i < |days| ==> Parse(nv)[i].day == days[i]) && (i >= |days| ==> Parse(nv)[i].day == "")
  {
    hide Decode;
    SplitNeverBlank(Decode(nv.macs));
  }

  lemma SplitNeverBlank(s: string)
    requires s != ""
    ensures Split(s, '>') != [""]
  {
    if s[0] == '>' {
      assert |Split(s, '>')| > 1;
    } else {
      assert Split(s, '>')[0] != "";
    }
  }

  function MacsOf(entries: seq<Entry>): seq<string> { seq(|entries|, i requires 0 <= i < |entries| => entries[i].mac) }
  function NamesOf(entries: seq<Entry>): seq<string> { seq(|entries|,
          i requires 0 <= i < |entries| => entries[i].name) }
  function DaysOf(entries: seq<Entry>): seq<string> { seq(|entries|, i requires 0 <= i < |entries| => entries[i].day) }

  /** "0" for an empty list; otherwise the user's mode if it is on, else "2". */
  function NewEnable(old_: string, nonempty: bool): string {
    if !nonempty then "0" else if old_ == "1" || old_ == "2" then old_ else "2"
  }

  /** A mode of the user's that is on stays while anything is listed, every other becomes "2", and an empty list turns the
      feature off. */
  lemma ModeWritten(read: BlockNvram, prev: set<string>, desired: seq<string>, labels: map<string, string>)
    ensures
      var enable := Pushed(read, prev, desired, labels).enable;
      if Merged(Parse(read), prev, desired, labels) == [] then enable == "0"
      else if read.enable in {"1", "2"} then enable == read.enable
      else enable == "2"
  {
    hide Merged, Parse;
  }

  function Print(entries: seq<Entry>, oldEnable: string): BlockNvram {
    BlockNvram(NewEnable(oldEnable, entries != []), Join(MacsOf(entries), '>'), Join(NamesOf(entries), '>'), Join(DaysOf(entries), '>'))
  }

  /** `read` is what the router may return for `stored`. */
  predicate ReadsAs(stored: BlockNvram, read: BlockNvram) {
    read.enable == stored.enable && Encodes(stored.macs, read.macs) && Encodes(stored.names, read.names) && Encodes(stored.days, read.days)
  }

  function Pushed(read: BlockNvram, prev: set<string>, desired: seq<string>, labels: map<string, string>): BlockNvram {
    Print(Merged(Parse(read), prev, desired, labels), read.enable)
  }

  // ---- the loops ---------------------------------------------------------------------------------

  method CleanMacs(macs: seq<string>) returns (clean: seq<string>)
    ensures clean == Clean(macs)
  {
    clean := [];
    var seen: set<string> := {};
    for i := 0 to |macs|
      invariant clean == Clean(macs[..i])
      invariant seen == set m | m in clean
    {
      assert macs[..i + 1][..i] == macs[..i];
      var m := AsusNorm(macs[i]);
      if m != "" && m !in seen {
        seen := seen + {m};
        clean := clean + [m];
      }
    }
    assert macs[..|macs|] == macs;
  }

  /** Reads the triples, passes the user's through, appends ours, and writes everything back. */
  method ApplyManagedBlockedMacs(read: BlockNvram, desired: seq<string>, previouslyManaged: seq<string>,
          labels: map<string, string>)
    returns (written: BlockNvram, ours: seq<string>)
    ensures written == Pushed(read, Norms(previouslyManaged), desired, labels)
    ensures ours == Clean(desired)
  {
    ours := CleanMacs(desired);
    var theirs := PassThrough(Parse(read), Norms(previouslyManaged));
    var merged := AppendOurs(theirs, desired, ours, labels);
    written := Print(merged, read.enable);
  }

  method PassThrough(existing: seq<Entry>, prev: set<string>) returns (merged: seq<Entry>)
    ensures merged == Theirs(existing, prev)
  {
    merged := [];
    for i := 0 to |existing|
      invariant merged == Theirs(existing[..i], prev)
    {
      SelectSnoc(existing, i, (e: Entry) => AsusNorm(e.mac) != "" && AsusNorm(e.mac) !in prev);
      var normed := AsusNorm(existing[i].mac);
      if normed == "" || normed in prev {
        continue;
      }
      merged := merged + [existing[i]];
    }
    assert existing[..|existing|] == existing;
  }

  /** Appends the desired MACs that the list so far does not hold. */
  method AppendOurs(theirs: seq<Entry>, ghost desired: seq<string>, clean: seq<string>, labels: map<string, string>)
    returns (merged: seq<Entry>)
    requires clean == Clean(desired)
    ensures merged == theirs + Ours(theirs, clean, labels)
  {
    merged := theirs;
    for i := 0 to |clean|
      invariant merged == theirs + Ours(theirs, clean[..i], labels)
    {
      AppendStep(theirs, desired, i, labels);
      if !Has(merged, clean[i]) {
        merged := merged + [Entry(Upper(clean[i]), Label(labels, clean[i]), "")];
      }
    }
    assert clean[..|clean|] == clean;
  }

  /** A normalised MAC: printing it in capitals and reading it back gives it again. */
  ghost predicate MacText(m: string) {
    Trimmed(m) && Canonical(m) && ListField(Upper(m))
  }

  lemma NormIsNormal(raw: string)
    ensures Trimmed(AsusNorm(raw)) && Canonical(AsusNorm(raw))
  {
    StripTrims(DashesToColons(Lower(raw)));
  }

  lemma CapitalsReadBack(m: string)
    requires Trimmed(m) && Canonical(m)
    ensures AsusNorm(Upper(m)) == m
  {
  }

  /** While ours are being appended, only the user's entries can already hold the next desired MAC. */
  lemma CleanNotYetOurs(theirs: seq<Entry>, desired: seq<string>, i: nat, labels: map<string, string>)
    requires i < |Clean(desired)|
    ensures Has(theirs + Ours(theirs, Clean(desired)[..i], labels), Clean(desired)[i]) <==> Has(theirs, Clean(desired)[i])
  {
    var clean := Clean(desired);
    var ours := Ours(theirs, clean[..i], labels);
    var all := theirs + ours;
    assert forall k :: 0 <= k < |theirs| ==> all[k] == theirs[k];
    forall k | |theirs| <= k < |all| ensures AsusNorm(all[k].mac) != clean[i] {
      assert all[k] == ours[k - |theirs|] && all[k] in ours;
      var m :| m in clean[..i] && all[k].mac == Upper(m);
      assert m in clean;
      var raw :| raw in desired && AsusNorm(raw) == m;
      NormIsNormal(raw);
      CapitalsReadBack(m);
    }
  }

  /** One turn of the append loop. */
  lemma AppendStep(theirs: seq<Entry>, desired: seq<string>, i: nat, labels: map<string, string>)
    requires i < |Clean(desired)|
    ensures
      var clean := Clean(desired);
      var sofar := theirs + Ours(theirs, clean[..i], labels);
      theirs + Ours(theirs, clean[..i + 1], labels) ==
        if Has(sofar, clean[i]) then sofar else sofar + [Entry(Upper(clean[i]), Label(labels, clean[i]), "")]
  {
    var clean := Clean(desired);
    assert clean[..i + 1][..i] == clean[..i];
    CleanNotYetOurs(theirs, desired, i, labels);
    var ours := Ours(theirs, clean[..i], labels);
    var one := [Entry(Upper(clean[i]), Label(labels, clean[i]), "")];
    assert theirs + (ours + one) == theirs + ours + one;
    assert ours + [] == ours;
  }
}
