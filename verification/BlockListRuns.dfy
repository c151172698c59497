/** The block list over whole runs of ticks, through NVRAM and back. */
module BlockListRuns {
  import opened Text
  import opened Nvram
  import opened Selections
  import opened BlockList

  // ---- through NVRAM and back ---------------------------------------------------------------------

  ghost predicate SoundEntry(e: Entry) {
    ListField(e.mac) && ListField(e.name) && ListField(e.day)
  }

  /** Whatever text the router returns, the parsed fields are sound. */
  lemma ParsedFieldsAreSound(nv: BlockNvram, e: Entry)
    requires e in Parse(nv)
    ensures SoundEntry(e)
  {
    var macs, names, days := Split(Decode(nv.macs), '>'), Split(Decode(nv.names), '>'), Split(Decode(nv.days), '>');
    var i :| 0 <= i < |macs| && e == Entry(macs[i], Padded(names, i), Padded(days, i));
    DecodedPieces(nv.macs, '>', i);
    if i < |names| { DecodedPieces(nv.names, '>', i); }
    if i < |days| { DecodedPieces(nv.days, '>', i); }
    assert ListField("");
  }

  /** `again` is `theirs + ours` with the names of ours possibly garbled. */
  predicate Rereads(theirs: seq<Entry>, ours: seq<Entry>, again: seq<Entry>) {
    && |again| == |theirs| + |ours|
    && again[..|theirs|] == theirs
    && (forall i :: 0 <= i < |ours| ==> again[|theirs| + i].mac == ours[i].mac)
  }

  lemma TextsOfConcat(a: seq<Entry>, b: seq<Entry>)
    ensures MacsOf(a + b) == MacsOf(a) + MacsOf(b)
    ensures NamesOf(a + b) == NamesOf(a) + NamesOf(b)
    ensures DaysOf(a + b) == DaysOf(a) + DaysOf(b)
  {
  }

  lemma FieldsOf(a: seq<Entry>)
    requires forall e :: e in a ==> SoundEntry(e)
    ensures forall u :: u in MacsOf(a) ==> ListField(u)
    ensures forall u :: u in NamesOf(a) ==> ListField(u)
    ensures forall u :: u in DaysOf(a) ==> ListField(u)
  {
    forall i | 0 <= i < |a| ensures SoundEntry(a[i]) { assert a[i] in a; }
  }

  lemma MacsAreFields(theirs: seq<Entry>, ours: seq<Entry>)
    requires forall e :: e in theirs ==> SoundEntry(e)
    requires forall e :: e in ours ==> ListField(e.mac)
    ensures forall u :: u in MacsOf(theirs + ours) ==> ListField(u)
  {
    hide ListField;
    var all := theirs + ours;
    forall u | u in MacsOf(all) ensures ListField(u) {
      var i :| 0 <= i < |all| && u == all[i].mac;
      assert all[i] in all && (all[i] in theirs || all[i] in ours);
    }
  }

  lemma EmptyListReadsBack(oldEnable: string, read: BlockNvram)
    requires ReadsAs(Print([], oldEnable), read)
    ensures Parse(read) == []
  {
  }

  /** A printed list with sound user entries in front reads back with those entries untouched, and with every
      MAC in place, whatever labels ours carry and however the router encodes the separators. */
  lemma PrintedListReadsBack(theirs: seq<Entry>, ours: seq<Entry>, oldEnable: string, read: BlockNvram)
    requires forall e :: e in theirs ==> SoundEntry(e) && e.mac != ""
    requires forall e :: e in ours ==> ListField(e.mac) && e.mac != ""
    requires ReadsAs(Print(theirs + ours, oldEnable), read)
    ensures Rereads(theirs, ours, Parse(read))
    ensures ours == [] ==> Parse(read) == theirs
  {
    hide Decode, Encodes, ListField, Split, Join;
    var all := theirs + ours;
    TextsOfConcat(theirs, ours);
    FieldsOf(theirs);
    if all == [] {
      EmptyListReadsBack(oldEnable, read);
    } else {
      MacsAreFields(theirs, ours);
      assert MacsOf(all) + [] == MacsOf(all);
      ListReadsBack(MacsOf(all), [], read.macs);
      ListReadsBack(NamesOf(theirs), NamesOf(ours), read.names);
      ListReadsBack(DaysOf(theirs), DaysOf(ours), read.days);
      var macs, names, days := Split(Decode(read.macs), '>'), Split(Decode(read.names), '>'), Split(Decode(read.days), '>');
      assert macs == MacsOf(all);
      assert all[0] in all && macs[0] != "";
      ParallelListsAlign(theirs, ours, macs, names, days);
      var again := Parse(read);
      forall i | 0 <= i < |theirs| ensures again[i] == theirs[i] {
        assert again[i] == Entry(macs[i], Padded(names, i), Padded(days, i));
      }
    }
  }

  lemma ParallelListsAlign(theirs: seq<Entry>, ours: seq<Entry>, macs: seq<string>, names: seq<string>,
          days: seq<string>)
    requires macs == MacsOf(theirs + ours)
    requires |theirs| <= |names| && names[..|theirs|] == NamesOf(theirs)
    requires |theirs| <= |days| && days[..|theirs|] == DaysOf(theirs)
    ensures forall i :: 0 <= i < |theirs| ==> Entry(macs[i], Padded(names, i), Padded(days, i)) == theirs[i]
    ensures forall i :: 0 <= i < |ours| ==> macs[|theirs| + i] == ours[i].mac
  {
  }

  // ---- one tick ------------------------------------------------------------------------------------

  ghost predicate PrintableMacs(desired: seq<string>) {
    forall m :: m in Clean(desired) ==> MacText(m)
  }

  lemma OursAreOurs(theirs: seq<Entry>, desired: seq<string>, labels: map<string, string>)
    requires PrintableMacs(desired)
    ensures forall e :: e in Ours(theirs, Clean(desired), labels) ==>
      ListField(e.mac) && e.mac != "" && AsusNorm(e.mac) in Norms(desired)
  {
    forall e | e in Ours(theirs, Clean(desired), labels)
      ensures ListField(e.mac) && e.mac != "" && AsusNorm(e.mac) in Norms(desired)
    {
      var m :| m in Clean(desired) && e.mac == Upper(m);
      CapitalsReadBack(m);
      var raw :| raw in desired && AsusNorm(raw) == m;
    }
  }

  /** The entries the next tick finds: the user's as they are now, then only MACs we asked for. */
  predicate Follows(existing: seq<Entry>, prev: set<string>, desired: seq<string>, next: seq<Entry>) {
    var theirs := Theirs(existing, prev);
    && |theirs| <= |next| && next[..|theirs|] == theirs
    && (forall i :: |theirs| <= i < |next| ==> AsusNorm(next[i].mac) in Norms(desired))
    && (desired == [] ==> next == theirs)
  }

  lemma TheirsAreSound(read: BlockNvram, prev: set<string>)
    ensures forall e :: e in Theirs(Parse(read), prev) ==> SoundEntry(e) && e.mac != ""
  {
    hide Parse, AsusNorm, ListField;
    forall e | e in Theirs(Parse(read), prev) ensures SoundEntry(e) && e.mac != "" {
      ParsedFieldsAreSound(read, e);
      BlankIsNoMac();
    }
  }

  lemma RereadFollows(existing: seq<Entry>, prev: set<string>, desired: seq<string>, ours: seq<Entry>, next: seq<Entry>)
    requires Rereads(Theirs(existing, prev), ours, next)
    requires forall e :: e in ours ==> AsusNorm(e.mac) in Norms(desired)
    requires desired == [] ==> ours == []
    ensures Follows(existing, prev, desired, next)
  {
    hide AsusNorm, Norms, Theirs;
    var theirs := Theirs(existing, prev);
    forall i | |theirs| <= i < |next| ensures AsusNorm(next[i].mac) in Norms(desired) {
      assert next[|theirs| + (i - |theirs|)].mac == ours[i - |theirs|].mac && ours[i - |theirs|] in ours;
    }
  }

  /** Writing to NVRAM and reading back, in whatever encoding, amounts to just that. */
  lemma NextReadFollows(read: BlockNvram, prev: set<string>, desired: seq<string>, labels: map<string, string>,
          again: BlockNvram)
    requires PrintableMacs(desired) && ReadsAs(Pushed(read, prev, desired, labels), again)
    ensures Follows(Parse(read), prev, desired, Parse(again))
  {
    hide Parse, Print, ListField, Encodes, AsusNorm, Norms, Theirs, Rereads, Follows;
    var theirs := Theirs(Parse(read), prev);
    var ours := Ours(theirs, Clean(desired), labels);
    TheirsAreSound(read, prev);
    OursAreOurs(theirs, desired, labels);
    PrintedListReadsBack(theirs, ours, read.enable, again);
    RereadFollows(Parse(read), prev, desired, ours, Parse(again));
  }

  // ---- what the router then blocks -----------------------------------------------------------------

  /** The normalised nonblank texts. */
  function NonBlank(texts: seq<string>): (r: seq<string>)
    ensures forall m :: m in r <==> m != "" && exists u :: u in texts && AsusNorm(u) == m
  {
    if texts == [] then []
    else
      var init, u := texts[..|texts| - 1], texts[|texts| - 1];
      assert texts == init + [u];
      NonBlank(init) + if AsusNorm(u) != "" then [AsusNorm(u)] else []
  }

  lemma {:induction false} NonBlankHas(texts: seq<string>)
    ensures forall m :: m in NonBlank(texts) <==> m != "" && exists u :: u in texts && AsusNorm(u) == m
  {
    if texts != [] {
      hide AsusNorm;
      var init, u := texts[..|texts| - 1], texts[|texts| - 1];
      NonBlankHas(init);
      assert texts == init + [u];
      forall m ensures m in NonBlank(texts) <==> m != "" && exists x :: x in texts && AsusNorm(x) == m {
        assert m == AsusNorm(u) ==> u in texts;
        assert (exists x :: x in init && AsusNorm(x) == m) ==> exists x :: x in texts && AsusNorm(x) == m;
      }
    }
  }

  function Blocked(read: BlockNvram): seq<string> {
    if read.enable == "0" || read.enable == "" then [] else NonBlank(Split(Decode(read.macs), '>'))
  }

  method GetBlockedMacs(read: BlockNvram) returns (blocked: seq<string>)
    ensures blocked == Blocked(read)
    ensures read.enable in {"0", ""} ==> blocked == []
    ensures read.enable !in {"0", ""} ==> forall m :: m in blocked <==> m != "" && exists u :: u in Split(Decode(read.macs), '>') && AsusNorm(u) == m
  {
    NonBlankHas(Split(Decode(read.macs), '>'));
    if read.enable == "0" || read.enable == "" { return []; }
    DecodeGtFirst(read.macs);
    var texts := Split(ReplaceEntity(ReplaceEntity(read.macs, '2', '>'), '0', '<'), '>');
    blocked := [];
    for i := 0 to |texts|
      invariant blocked == NonBlank(texts[..i])
    {
      assert texts[..i + 1][..i] == texts[..i];
      var m := AsusNorm(texts[i]);
      if m != "" { blocked := blocked + [m]; }
    }
    assert texts[..|texts|] == texts;
  }

  lemma BlockedIsParsed(read: BlockNvram, m: string)
    requires m != ""
    ensures m in NonBlank(Split(Decode(read.macs), '>')) <==> exists i :: 0 <= i < |Parse(read)| && AsusNorm(Parse(read)[i].mac) == m
  {
    var macs := Split(Decode(read.macs), '>');
    BlankIsNoMac();
    if macs != [""] {
      assert |Parse(read)| == |macs| && forall i :: 0 <= i < |macs| ==> Parse(read)[i].mac == macs[i];
    }
  }

  lemma OursCover(theirs: seq<Entry>, clean: seq<string>, labels: map<string, string>, m: string)
    requires m in clean
    ensures Has(theirs, m) || exists i :: 0 <= i < |Ours(theirs, clean, labels)| && Ours(theirs, clean, labels)[i].mac == Upper(m)
  {
    if !Has(theirs, m) {
      OursHasAll(theirs, clean, labels, m);
    }
  }

  /** After a push the router blocks exactly the desired MACs and those of the user's entries, however it stores
      the list. */
  lemma BlocksExactlyDesiredAndTheirs(read: BlockNvram, prev: set<string>, desired: seq<string>,
          labels: map<string, string>, again: BlockNvram, m: string)
    requires PrintableMacs(desired) && ReadsAs(Pushed(read, prev, desired, labels), again)
    ensures m in Blocked(again) <==> m in Norms(desired) || (m != "" && Has(Theirs(Parse(read), prev), m))
  {
    hide Parse, Print, Split, Decode, Encodes, Join, AsusNorm, ListField;
    var theirs := Theirs(Parse(read), prev);
    var ours := Ours(theirs, Clean(desired), labels);
    TheirsAreSound(read, prev);
    OursAreOurs(theirs, desired, labels);
    PrintedListReadsBack(theirs, ours, read.enable, again);
    EnableIsOn(theirs + ours, read.enable);
    if m != "" {
      BlockedIsParsed(again, m);
      if m in Norms(desired) {
        CleanHasAll(desired);
        OursCover(theirs, Clean(desired), labels, m);
        CleanReadsBack(desired, m);
      }
      RereadHas(theirs, ours, Parse(again), m);
    }
  }

  lemma EnableIsOn(all: seq<Entry>, oldEnable: string)
    ensures var e := Print(all, oldEnable).enable; (e == "0" || e == "") <==> all == []
  {
  }

  lemma CleanReadsBack(desired: seq<string>, m: string)
    requires m in Clean(desired)
    ensures AsusNorm(Upper(m)) == m
  {
    var raw :| raw in desired && AsusNorm(raw) == m;
    NormIsNormal(raw);
    CapitalsReadBack(m);
  }

  lemma RereadHas(theirs: seq<Entry>, ours: seq<Entry>, again: seq<Entry>, m: string)
    requires Rereads(theirs, ours, again)
    ensures Has(again, m) <==> Has(theirs, m) || Has(ours, m)
  {
    hide AsusNorm;
    assert forall i :: 0 <= i < |theirs| ==> again[i] == theirs[i];
    if Has(again, m) {
      var i :| 0 <= i < |again| && AsusNorm(again[i].mac) == m;
      if i >= |theirs| {
        assert again[|theirs| + (i - |theirs|)].mac == ours[i - |theirs|].mac;
      }
    }
    if Has(ours, m) {
      var i :| 0 <= i < |ours| && AsusNorm(ours[i].mac) == m;
      assert again[|theirs| + i].mac == ours[i].mac;
    }
  }

  // ---- runs of entry lists ---------------------------------------------------------------------------

  /** The managed list tick `k` starts from: what the tick before it persisted. */
  function ManagedAt(managed: set<string>, desired: seq<seq<string>>, k: nat): set<string>
    requires k <= |desired|
  {
    if k == 0 then managed else Norms(desired[k - 1])
  }

  predicate StepAt(managed: set<string>, existing: seq<seq<Entry>>, desired: seq<seq<string>>, k: nat)
    requires |existing| == |desired| && k + 1 < |existing|
  {
    Follows(existing[k], ManagedAt(managed, desired, k), desired[k], existing[k + 1])
  }

  /** Tick `k` finds `existing[k]` and asks for `desired[k]`. */
  predicate EntryRun(managed: set<string>, existing: seq<seq<Entry>>, desired: seq<seq<string>>) {
    |existing| == |desired| && forall k :: 0 <= k < |existing| - 1 ==> StepAt(managed, existing, desired, k)
  }

  /** The entry's MAC is not blank, was not ours to begin with, and is never asked for. */
  predicate NeverOurs(managed: set<string>, desired: seq<seq<string>>, e: Entry) {
    AsusNorm(e.mac) != "" && AsusNorm(e.mac) !in managed && forall k :: 0 <= k < |desired| ==> AsusNorm(e.mac) !in Norms(desired[k])
  }

  function Untouched(managed: set<string>, desired: seq<seq<string>>): Entry -> bool {
    (e: Entry) => NeverOurs(managed, desired, e)
  }

  /** One tick keeps a selection of entries that leaves out ours. */
  lemma StepKeepsSelected(existing: seq<Entry>, prev: set<string>, desired: seq<string>, next: seq<Entry>,
          p: Entry -> bool)
    requires Follows(existing, prev, desired, next)
    requires forall e :: p(e) ==> AsusNorm(e.mac) != "" && AsusNorm(e.mac) !in prev && AsusNorm(e.mac) !in Norms(desired)
    ensures Select(next, p) == Select(existing, p)
  {
    var theirs := Theirs(existing, prev);
    var tail := next[|theirs|..];
    assert next == theirs + tail;
    SelectConcat(theirs, tail, p);
    SelectNone(tail, p);
    SelectAgain(existing, (e: Entry) => AsusNorm(e.mac) != "" && AsusNorm(e.mac) !in prev, p, p);
  }

  lemma {:induction false} UntouchedStay(managed: set<string>, existing: seq<seq<Entry>>, desired: seq<seq<string>>,
          k: nat)
    requires EntryRun(managed, existing, desired) && k < |existing|
    ensures Select(existing[k], Untouched(managed, desired)) == Select(existing[0], Untouched(managed, desired))
  {
    if k > 0 {
      UntouchedStay(managed, existing, desired, k - 1);
      assert StepAt(managed, existing, desired, k - 1);
      StepKeepsSelected(existing[k - 1], ManagedAt(managed, desired, k - 1), desired[k - 1], existing[k], Untouched(managed, desired));
    }
  }

  /** If no user entry's MAC is ever asked for, every entry a tick finds is blank, ours or the user's own. */
  lemma {:induction false} OnlyKnownEntries(managed: set<string>, existing: seq<seq<Entry>>,
          desired: seq<seq<string>>, k: nat, e: Entry)
    requires EntryRun(managed, existing, desired) && k < |existing| && e in existing[k]
    requires forall u :: u in Theirs(existing[0], managed) ==> NeverOurs(managed, desired, u)
    ensures AsusNorm(e.mac) == "" || AsusNorm(e.mac) in ManagedAt(managed, desired, k) || NeverOurs(managed, desired, e)
  {
    hide AsusNorm, Norms;
    if k == 0 {
      assert AsusNorm(e.mac) != "" && AsusNorm(e.mac) !in managed ==> e in Theirs(existing[0], managed);
    } else {
      assert StepAt(managed, existing, desired, k - 1);
      var theirs := Theirs(existing[k - 1], ManagedAt(managed, desired, k - 1));
      var i :| 0 <= i < |existing[k]| && existing[k][i] == e;
      if i < |theirs| {
        assert existing[k][..|theirs|][i] == e && e in theirs;
        OnlyKnownEntries(managed, existing, desired, k - 1, e);
      }
    }
  }

  lemma LastTickIsUsers(managed: set<string>, existing: seq<seq<Entry>>, desired: seq<seq<string>>, k: nat)
    requires EntryRun(managed, existing, desired) && k < |existing|
    requires forall u :: u in Theirs(existing[0], managed) ==> NeverOurs(managed, desired, u)
    ensures Theirs(existing[k], ManagedAt(managed, desired, k)) == Theirs(existing[0], managed)
  {
    var prev := ManagedAt(managed, desired, k);
    UntouchedStay(managed, existing, desired, k);
    forall e | e in existing[k]
      ensures (AsusNorm(e.mac) != "" && AsusNorm(e.mac) !in prev) <==> NeverOurs(managed, desired, e)
    {
      OnlyKnownEntries(managed, existing, desired, k, e);
    }
    SelectAlike(existing[k], (e: Entry) => AsusNorm(e.mac) != "" && AsusNorm(e.mac) !in prev, Untouched(managed, desired));
    forall e | e in existing[0]
      ensures (AsusNorm(e.mac) != "" && AsusNorm(e.mac) !in managed) <==> NeverOurs(managed, desired, e)
    {
      assert AsusNorm(e.mac) != "" && AsusNorm(e.mac) !in managed ==> e in Theirs(existing[0], managed);
    }
    SelectAlike(existing[0], (e: Entry) => AsusNorm(e.mac) != "" && AsusNorm(e.mac) !in managed, Untouched(managed, desired));
  }

  // ---- settling ----------------------------------------------------------------------------------------

  function NotDesired(desired: seq<string>): Entry -> bool {
    (e: Entry) => AsusNorm(e.mac) != "" && AsusNorm(e.mac) !in Norms(desired)
  }

  /** From one tick to the next the user's part only loses entries that share a desired MAC. */
  lemma TheirsNext(existing: seq<Entry>, prev: set<string>, desired: seq<string>, next: seq<Entry>)
    requires Follows(existing, prev, desired, next)
    ensures Theirs(next, Norms(desired)) == Select(Theirs(existing, prev), NotDesired(desired))
  {
    var p := NotDesired(desired);
    var theirs := Theirs(existing, prev);
    var tail := next[|theirs|..];
    assert next == theirs + tail;
    SelectConcat(theirs, tail, p);
    SelectNone(tail, p);
    SelectAlike(next, (e: Entry) => AsusNorm(e.mac) != "" && AsusNorm(e.mac) !in Norms(desired), p);
  }

  lemma {:induction false} TheirsSettle(managed: set<string>, existing: seq<seq<Entry>>, desired: seq<seq<string>>,
          wanted: seq<string>, k: nat)
    requires EntryRun(managed, existing, desired) && 1 <= k < |existing|
    requires forall j :: 0 <= j < |desired| ==> desired[j] == wanted
    ensures Theirs(existing[k], Norms(wanted)) == Theirs(existing[1], Norms(wanted))
  {
    if k > 1 {
      TheirsSettle(managed, existing, desired, wanted, k - 1);
      assert StepAt(managed, existing, desired, k - 1);
      TheirsNext(existing[k - 1], Norms(wanted), wanted, existing[k]);
      SelectAll(Theirs(existing[k - 1], Norms(wanted)), NotDesired(wanted));
    }
  }

  // ---- runs through NVRAM ---------------------------------------------------------------------------------

  /** One tick: what it reads, and what the reconciler asks for. */
  datatype Tick = Tick(read: BlockNvram, desired: seq<string>, labels: map<string, string>)

  function Existing(ticks: seq<Tick>): seq<seq<Entry>> {
    seq(|ticks|, k requires 0 <= k < |ticks| => Parse(ticks[k].read))
  }

  function Desired(ticks: seq<Tick>): seq<seq<string>> {
    seq(|ticks|, k requires 0 <= k < |ticks| => ticks[k].desired)
  }

  function WrittenAt(managed: set<string>, ticks: seq<Tick>, k: nat): BlockNvram
    requires k < |ticks|
  {
    Pushed(ticks[k].read, ManagedAt(managed, Desired(ticks), k), ticks[k].desired, ticks[k].labels)
  }

  /** Each tick reads, in some encoding, what the one before it wrote. */
  ghost predicate IsRun(managed: set<string>, ticks: seq<Tick>) {
    && (forall k :: 0 <= k < |ticks| ==> PrintableMacs(ticks[k].desired))
    && (forall k :: 0 < k < |ticks| ==> ReadsPrevious(managed, ticks, k))
  }

  predicate ReadsPrevious(managed: set<string>, ticks: seq<Tick>, k: nat)
    requires 0 < k < |ticks|
  {
    ReadsAs(WrittenAt(managed, ticks, k - 1), ticks[k].read)
  }

  lemma TickIsStep(managed: set<string>, ticks: seq<Tick>, k: nat)
    requires k + 1 < |ticks| && PrintableMacs(ticks[k].desired) && ReadsPrevious(managed, ticks, k + 1)
    ensures StepAt(managed, Existing(ticks), Desired(ticks), k)
  {
    hide Parse, Pushed, Norms, Follows;
    var t := ticks[k];
    NextReadFollows(t.read, ManagedAt(managed, Desired(ticks), k), t.desired, t.labels, ticks[k + 1].read);
  }

  lemma RunIsEntryRun(managed: set<string>, ticks: seq<Tick>)
    requires IsRun(managed, ticks)
    ensures EntryRun(managed, Existing(ticks), Desired(ticks))
  {
    forall k | 0 <= k < |ticks| - 1 ensures StepAt(managed, Existing(ticks), Desired(ticks), k) {
      assert ReadsPrevious(managed, ticks, k + 1);
      TickIsStep(managed, ticks, k);
    }
  }

  /** The user's own entries keep MAC text, name, schedule and order through every run of ticks. */
  lemma UserEntriesSurvive(managed: set<string>, ticks: seq<Tick>, k: nat)
    requires IsRun(managed, ticks) && k < |ticks|
    ensures
      var own := Untouched(managed, Desired(ticks));
      Select(Parse(ticks[k].read), own) == Select(Parse(ticks[0].read), own)
  {
    RunIsEntryRun(managed, ticks);
    UntouchedStay(managed, Existing(ticks), Desired(ticks), k);
  }

  /** A final tick with nothing desired leaves exactly the user's entries, when no user MAC was ever desired. */
  lemma EmptyTickCleansUp(managed: set<string>, ticks: seq<Tick>, after: BlockNvram)
    requires IsRun(managed, ticks) && |ticks| > 0 && ticks[|ticks| - 1].desired == []
    requires ReadsAs(WrittenAt(managed, ticks, |ticks| - 1), after)
    requires forall u :: u in Theirs(Parse(ticks[0].read), managed) ==> NeverOurs(managed, Desired(ticks), u)
    ensures Parse(after) == Theirs(Parse(ticks[0].read), managed)
  {
    hide Parse, Pushed;
    var n := |ticks| - 1;
    RunIsEntryRun(managed, ticks);
    EmptyTickWrites(ticks[n].read, ManagedAt(managed, Desired(ticks), n), ticks[n].labels, after);
    LastTickIsUsers(managed, Existing(ticks), Desired(ticks), n);
  }

  lemma EmptyTickWrites(read: BlockNvram, prev: set<string>, labels: map<string, string>, after: BlockNvram)
    requires ReadsAs(Pushed(read, prev, [], labels), after)
    ensures Parse(after) == Theirs(Parse(read), prev)
  {
    NextReadFollows(read, prev, [], labels, after);
  }

  /** Every tick asks for the same. */
  predicate Constant(ticks: seq<Tick>, desired: seq<string>, labels: map<string, string>) {
    forall k :: 0 <= k < |ticks| ==> ticks[k].desired == desired && ticks[k].labels == labels
  }

  /** With constant demands what is written, MACs, names, schedules and mode, is the same from the second
      tick on. */
  lemma {:induction false} SettlesAfterTwoTicks(managed: set<string>, ticks: seq<Tick>, desired: seq<string>,
          labels: map<string, string>, k: nat)
    requires IsRun(managed, ticks) && Constant(ticks, desired, labels) && 1 <= k < |ticks|
    ensures WrittenAt(managed, ticks, k) == WrittenAt(managed, ticks, 1)
  {
    hide Parse, Pushed;
    if k > 1 {
      SettlesAfterTwoTicks(managed, ticks, desired, labels, k - 1);
      RunIsEntryRun(managed, ticks);
      TheirsSettle(managed, Existing(ticks), Desired(ticks), desired, k);
      TheirsSettle(managed, Existing(ticks), Desired(ticks), desired, k - 1);
      SameAsBefore(managed, ticks, desired, labels, k);
    }
  }

  lemma SameAsBefore(managed: set<string>, ticks: seq<Tick>, desired: seq<string>, labels: map<string, string>, k: nat)
    requires 0 < k < |ticks| && Constant(ticks, desired, labels) && ReadsPrevious(managed, ticks, k)
    requires Theirs(Parse(ticks[k].read), Norms(desired)) == Theirs(Parse(ticks[k - 1].read), ManagedAt(managed, Desired(ticks), k - 1))
    ensures WrittenAt(managed, ticks, k) == WrittenAt(managed, ticks, k - 1)
  {
  }

  /** It is already the same from the first tick on when no user entry shares a desired MAC. */
  lemma SettlesAfterOneTick(managed: set<string>, ticks: seq<Tick>, desired: seq<string>, labels: map<string, string>,
          k: nat)
    requires IsRun(managed, ticks) && Constant(ticks, desired, labels) && k < |ticks|
    requires forall e :: e in Theirs(Parse(ticks[0].read), managed) ==> AsusNorm(e.mac) !in Norms(desired)
    ensures WrittenAt(managed, ticks, k) == WrittenAt(managed, ticks, 0)
  {
    hide Parse, Pushed;
    if k >= 1 {
      SettlesAfterTwoTicks(managed, ticks, desired, labels, k);
      RunIsEntryRun(managed, ticks);
      assert StepAt(managed, Existing(ticks), Desired(ticks), 0);
      TheirsNext(Parse(ticks[0].read), managed, desired, Parse(ticks[1].read));
      SelectAll(Theirs(Parse(ticks[0].read), managed), NotDesired(desired));
      SameAsBefore(managed, ticks, desired, labels, 1);
    }
  }

  // ---- runs in which the user edits the list as well -----------------------------------------------------

  /** `left[k]` is how the router returns what tick `k` wrote; before the next tick the user may edit it. */
  ghost predicate IsEditedRun(managed: set<string>, ticks: seq<Tick>, left: seq<BlockNvram>) {
    |left| == |ticks| && forall k :: 0 <= k < |ticks| ==>
      PrintableMacs(ticks[k].desired) && ReadsAs(WrittenAt(managed, ticks, k), left[k])
  }

  /** Between tick `k` and the next the user does not touch the entries of the selection. */
  predicate UserLeaves(ticks: seq<Tick>, left: seq<BlockNvram>, p: Entry -> bool, k: nat)
    requires |left| == |ticks| && k + 1 < |ticks|
  {
    Select(Parse(ticks[k + 1].read), p) == Select(Parse(left[k]), p)
  }

  lemma TickKeepsSelected(managed: set<string>, ticks: seq<Tick>, left: seq<BlockNvram>, p: Entry -> bool, k: nat)
    requires IsEditedRun(managed, ticks, left) && k < |ticks|
    requires forall e :: p(e) ==> NeverOurs(managed, Desired(ticks), e)
    ensures Select(Parse(ticks[k].read), p) == Select(Parse(left[k]), p)
  {
    hide Parse, Pushed, Follows, Norms, AsusNorm, PrintableMacs, ReadsAs, Select;
    var t, prev := ticks[k], ManagedAt(managed, Desired(ticks), k);
    NextReadFollows(t.read, prev, t.desired, t.labels, left[k]);
    assert Desired(ticks)[k] == t.desired;
    forall e | p(e) ensures AsusNorm(e.mac) != "" && AsusNorm(e.mac) !in prev && AsusNorm(e.mac) !in Norms(t.desired) {
      assert NeverOurs(managed, Desired(ticks), e);
      assert k > 0 ==> AsusNorm(e.mac) !in Norms(Desired(ticks)[k - 1]);
    }
    StepKeepsSelected(Parse(t.read), prev, t.desired, Parse(left[k]), p);
  }

  /** Entries never asked for and not edited by the user survive, whatever the user does to others between the
      ticks: MAC text, name, schedule and order. */
  lemma {:induction false} EntriesSurviveEdits(managed: set<string>, ticks: seq<Tick>, left: seq<BlockNvram>,
          p: Entry -> bool, k: nat)
    requires IsEditedRun(managed, ticks, left) && k < |ticks|
    requires forall e :: p(e) ==> NeverOurs(managed, Desired(ticks), e)
    requires forall j :: 0 <= j < |ticks| - 1 ==> UserLeaves(ticks, left, p, j)
    ensures Select(Parse(ticks[k].read), p) == Select(Parse(left[k]), p) == Select(Parse(ticks[0].read), p)
  {
    hide Parse, WrittenAt, ReadsAs, PrintableMacs, NeverOurs, Select;
    TickKeepsSelected(managed, ticks, left, p, k);
    if k > 0 {
      EntriesSurviveEdits(managed, ticks, left, p, k - 1);
      assert UserLeaves(ticks, left, p, k - 1);
    }
  }

  /** One tick later an entry the user had before is still taken for the user's if and only if its MAC was not
      asked for. */
  lemma SharedEntryBecomesOursIff(existing: seq<Entry>, managed: set<string>, desired: seq<string>, next: seq<Entry>,
          e: Entry)
    requires Follows(existing, managed, desired, next) && e in Theirs(existing, managed)
    ensures e in Theirs(next, Norms(desired)) <==> AsusNorm(e.mac) !in Norms(desired)
  {
    hide AsusNorm, Norms, Follows;
    TheirsNext(existing, managed, desired, next);
  }

  /** A user entry whose MAC is also desired is kept by one tick and gone after the next: the second tick
      takes it for one of ours and writes its own entry instead. */
  lemma SharedEntryBecomesOurs(existing: seq<Entry>, managed: set<string>, desired: seq<string>,
          labels: map<string, string>, next: seq<Entry>, e: Entry)
    requires Follows(existing, managed, desired, next)
    requires e in existing && AsusNorm(e.mac) != "" && AsusNorm(e.mac) !in managed && AsusNorm(e.mac) in Norms(desired)
    ensures e in Merged(existing, managed, desired, labels) && e in next
    ensures e !in Theirs(next, Norms(desired))
    ensures Entry(Upper(AsusNorm(e.mac)), Label(labels, AsusNorm(e.mac)), "") in Merged(next, Norms(desired), desired, labels)
  {
    var first, theirs, m := Theirs(existing, managed), Theirs(next, Norms(desired)), AsusNorm(e.mac);
    assert e in first && e in next[..|first|];
    CleanHasAll(desired);
    forall i | 0 <= i < |theirs| ensures AsusNorm(theirs[i].mac) != m { assert theirs[i] in theirs; }
    OursHasAll(theirs, Clean(desired), labels, m);
  }

  lemma {:induction false} OursHasAll(theirs: seq<Entry>, desired: seq<string>, labels: map<string, string>, m: string)
    requires m in desired && !Has(theirs, m)
    ensures Entry(Upper(m), Label(labels, m), "") in Ours(theirs, desired, labels)
  {
    var init, last := desired[..|desired| - 1], desired[|desired| - 1];
    assert desired == init + [last];
    if m in init {
      OursHasAll(theirs, init, labels, m);
    }
  }
}
