/** Which upstream tools a configured server exposes: every tool except those
    in its list of disabled ones. */
module ToolPolicy {
  import opened Wrappers
  import opened Sorting
  import opened JsonText

  type Disabled = Option<seq<string>>

  predicate IsToolEnabled(disabled: Disabled, tool: string) {
    disabled.None? || |disabled.value| == 0 || tool !in disabled.value
  }

  function Listed(disabled: Disabled): seq<string> {
    match disabled case None => [] case Some(names) => names
  }

  predicate Distinct(names: seq<string>) {
    forall i, j :: 0 <= i < j < |names| ==> names[i] != names[j]
  }

  // ---------- Switching tools off and on ----------

  /** The elements of a set in the order they were first added. */
  function Add(names: seq<string>, name: string): seq<string> {
    if name in names then names else names + [name]
  }

  function AddAll(names: seq<string>, more: seq<string>): seq<string> {
    if more == [] then names else Add(AddAll(names, more[..|more| - 1]), more[|more| - 1])
  }

  function Keep(names: seq<string>, remove: seq<string>): seq<string> {
    if names == [] then []
    else (if names[0] in remove then [] else [names[0]]) + Keep(names[1..], remove)
  }

  function WithDisabled(disabled: Disabled, names: seq<string>): seq<string> {
    Sort(AddAll(AddAll([], Listed(disabled)), names))
  }

  function EnableTools(disabled: Disabled, names: seq<string>): seq<string> {
    Sort(Keep(Listed(disabled), names))
  }

  function Apply(disabledTools: seq<string>): Disabled {
    if |disabledTools| == 0 then None else Some(disabledTools)
  }

  /** One run of the enable or disable command. */
  datatype Toggle = Toggle(enable: bool, names: seq<string>)

  function After(disabled: Disabled, toggle: Toggle): Disabled {
    Apply(if toggle.enable then EnableTools(disabled, toggle.names) else WithDisabled(disabled, toggle.names))
  }

  function AfterAll(disabled: Disabled, toggles: seq<Toggle>): Disabled {
    if toggles == [] then disabled
    else After(AfterAll(disabled, toggles[..|toggles| - 1]), toggles[|toggles| - 1])
  }

  class Server {
    const id: string
    const name: string
    const baseUrl: string
    var disabledTools: Disabled

    constructor (id: string, name: string, baseUrl: string)
      ensures this.id == id && this.name == name && this.baseUrl == baseUrl && disabledTools == None
    {
      this.id, this.name, this.baseUrl, disabledTools := id, name, baseUrl, None;
    }

    method DisableTools(toolNames: seq<string>) returns (next: seq<string>)
      ensures next == WithDisabled(disabledTools, toolNames)
    {
      var disabled: seq<string> := AddAll([], Listed(disabledTools));
      ghost var start := disabled;
      for i := 0 to |toolNames|
        invariant disabled == AddAll(start, toolNames[..i])
      {
        assert toolNames[..i + 1][..i] == toolNames[..i];
        if toolNames[i] !in disabled { disabled := disabled + [toolNames[i]]; }
      }
      assert toolNames[..|toolNames|] == toolNames;
      next := Sort(disabled);
    }

    /** Afterwards exactly the given tools are off; the field holds their list,
        and is removed rather than left empty. */
    method ApplyDisabledTools(names: seq<string>)
      modifies this`disabledTools
      ensures forall tool :: IsToolEnabled(disabledTools, tool) <==> tool !in names
      ensures Listed(disabledTools) == names && disabledTools != Some([])
    {
      if |names| == 0 { disabledTools := None; } else { disabledTools := Some(names); }
    }

    /** The command: afterwards a named tool is as asked, every other as before. */
    method Switch(toggle: Toggle)
      modifies this`disabledTools
      ensures disabledTools == After(old(disabledTools), toggle)
      ensures forall tool :: IsToolEnabled(disabledTools, tool) <==>
                (if tool in toggle.names then toggle.enable else IsToolEnabled(old(disabledTools), tool))
    {
      var next;
      if toggle.enable {
        next := EnableTools(disabledTools, toggle.names);
      } else {
        next := DisableTools(toggle.names);
      }
      ToggleSetsNamedTools(disabledTools, toggle);
      ApplyDisabledTools(next);
    }
  }

  // ---------- What switching does ----------

  lemma {:induction false} AddAllIsUnion(names: seq<string>, more: seq<string>)
    ensures forall n :: n in AddAll(names, more) <==> n in names || n in more
    ensures Distinct(names) ==> Distinct(AddAll(names, more))
  {
    if more != [] {
      AddAllIsUnion(names, more[..|more| - 1]);
      assert more == more[..|more| - 1] + [more[|more| - 1]];
    }
  }

  lemma {:induction false} KeepIsDifference(names: seq<string>, remove: seq<string>)
    ensures forall n :: n in Keep(names, remove) <==> n in names && n !in remove
    ensures Distinct(names) ==> Distinct(Keep(names, remove))
  {
    if names != [] {
      KeepIsDifference(names[1..], remove);
      assert names == [names[0]] + names[1..];
    }
  }

  lemma SortKeepsElements(names: seq<string>)
    ensures Sorted(Sort(names))
    ensures forall n :: n in Sort(names) <==> n in names
    ensures Distinct(names) ==> Distinct(Sort(names))
  {
    hide Sort, Sorted;
    SortSorts(names);
    var sorted := Sort(names);
    forall n ensures n in sorted <==> n in names {
      assert n in multiset(sorted) <==> n in multiset(names);
    }
    if Distinct(names) {
      DistinctIffMultiplicityOne(names);
      DistinctIffMultiplicityOne(sorted);
    }
  }

  lemma {:induction false} DistinctIffMultiplicityOne(names: seq<string>)
    ensures Distinct(names) <==> forall n :: multiset(names)[n] <= 1
  {
    if names != [] {
      var rest := names[1..];
      DistinctIffMultiplicityOne(rest);
      assert names == [names[0]] + rest;
      if Distinct(names) {
        assert names[0] !in rest;
        assert Distinct(rest);
      }
      if forall n :: multiset(names)[n] <= 1 {
        assert forall n :: multiset(rest)[n] <= multiset(names)[n];
        assert multiset(names)[names[0]] == 1 + multiset(rest)[names[0]];
        assert names[0] !in rest;
      }
    }
  }

  /** A command leaves the named tools as asked and every other as it was. */
  lemma ToggleSetsNamedTools(disabled: Disabled, toggle: Toggle)
    ensures forall tool :: IsToolEnabled(After(disabled, toggle), tool) <==>
              if tool in toggle.names then toggle.enable else IsToolEnabled(disabled, tool)
  {
    hide Sort, Keep, AddAll;
    if toggle.enable {
      KeepIsDifference(Listed(disabled), toggle.names);
      SortKeepsElements(Keep(Listed(disabled), toggle.names));
    } else {
      AddAllIsUnion([], Listed(disabled));
      AddAllIsUnion(AddAll([], Listed(disabled)), toggle.names);
      SortKeepsElements(AddAll(AddAll([], Listed(disabled)), toggle.names));
    }
  }

  /** The state a tool should be in: what the last command naming it asked for. */
  predicate Decided(enabled: bool, toggles: seq<Toggle>, tool: string) {
    if toggles == [] then enabled
    else
      var last := toggles[|toggles| - 1];
      if tool in last.names then last.enable else Decided(enabled, toggles[..|toggles| - 1], tool)
  }

  /** Over any run of commands, the last one naming a tool decides. */
  lemma {:induction false} LastToggleDecides(disabled: Disabled, toggles: seq<Toggle>, tool: string)
    ensures IsToolEnabled(AfterAll(disabled, toggles), tool) <==>
            Decided(IsToolEnabled(disabled, tool), toggles, tool)
  {
    hide After, IsToolEnabled;
    if toggles != [] {
      var before := toggles[..|toggles| - 1];
      LastToggleDecides(disabled, before, tool);
      ToggleSetsNamedTools(AfterAll(disabled, before), toggles[|toggles| - 1]);
    }
  }

  /** The form in which the commands leave the list. */
  predicate Canonical(disabled: Disabled) {
    disabled.Some? ==> disabled.value != [] && Sorted(disabled.value) && Distinct(disabled.value)
  }

  lemma ToggleKeepsCanonical(disabled: Disabled, toggle: Toggle)
    requires Canonical(disabled)
    ensures Canonical(After(disabled, toggle))
  {
    hide Sort, Keep, AddAll, Sorted;
    if toggle.enable {
      KeepIsDifference(Listed(disabled), toggle.names);
      SortKeepsElements(Keep(Listed(disabled), toggle.names));
    } else {
      AddAllIsUnion([], Listed(disabled));
      AddAllIsUnion(AddAll([], Listed(disabled)), toggle.names);
      SortKeepsElements(AddAll(AddAll([], Listed(disabled)), toggle.names));
    }
  }

  lemma SameElementsSameMultiset(a: seq<string>, b: seq<string>)
    requires Distinct(a) && Distinct(b)
    requires forall n :: n in a <==> n in b
    ensures multiset(a) == multiset(b)
  {
    DistinctIffMultiplicityOne(a);
    DistinctIffMultiplicityOne(b);
    forall n ensures multiset(a)[n] == multiset(b)[n] {
      assert n in multiset(a) <==> n in a;
      assert n in multiset(b) <==> n in b;
    }
  }

  /** In canonical form the stored list is determined by which tools are on:
      runs of commands that agree on every tool leave the same record. */
  lemma SamePolicySameRecord(a: Disabled, b: Disabled)
    requires Canonical(a) && Canonical(b)
    ensures a == b <==> forall tool :: IsToolEnabled(a, tool) <==> IsToolEnabled(b, tool)
  {
    hide Sorted;
    if forall tool :: IsToolEnabled(a, tool) <==> IsToolEnabled(b, tool) {
      forall tool ensures tool in Listed(a) <==> tool in Listed(b) {
        assert IsToolEnabled(a, tool) <==> tool !in Listed(a);
        assert IsToolEnabled(b, tool) <==> tool !in Listed(b);
      }
      SameElementsSameMultiset(Listed(a), Listed(b));
      EmptyIsSorted();
      SortedIsUnique(Listed(a), Listed(b));
    }
  }

  lemma EmptyIsSorted()
    ensures Sorted([])
  {
  }

  lemma {:induction false} RunsKeepCanonical(disabled: Disabled, toggles: seq<Toggle>)
    requires Canonical(disabled)
    ensures Canonical(AfterAll(disabled, toggles))
  {
    hide Canonical, After;
    if toggles != [] {
      RunsKeepCanonical(disabled, toggles[..|toggles| - 1]);
      ToggleKeepsCanonical(AfterAll(disabled, toggles[..|toggles| - 1]), toggles[|toggles| - 1]);
    }
  }

  /** Two runs of commands leave the very same record exactly when they decide
      the same about every tool, however they got there. */
  lemma SameDecisionsSameRecord(disabled: Disabled, a: seq<Toggle>, b: seq<Toggle>)
    requires Canonical(disabled)
    ensures AfterAll(disabled, a) == AfterAll(disabled, b) <==>
            forall tool :: Decided(IsToolEnabled(disabled, tool), a, tool) <==> Decided(IsToolEnabled(disabled, tool), b, tool)
  {
    hide Canonical, IsToolEnabled, Decided, AfterAll;
    RunsKeepCanonical(disabled, a);
    RunsKeepCanonical(disabled, b);
    SamePolicySameRecord(AfterAll(disabled, a), AfterAll(disabled, b));
    forall tool
      ensures IsToolEnabled(AfterAll(disabled, a), tool) <==> Decided(IsToolEnabled(disabled, tool), a, tool)
      ensures IsToolEnabled(AfterAll(disabled, b), tool) <==> Decided(IsToolEnabled(disabled, tool), b, tool)
    {
      LastToggleDecides(disabled, a, tool);
      LastToggleDecides(disabled, b, tool);
    }
  }

  // ---------- The fingerprint ----------

  /** A server as the fingerprint sees it. */
  datatype Entry = Entry(id: string, name: string, baseUrl: string, disabledTools: Disabled)

  datatype Snapshot = Snapshot(id: string, name: string, baseUrl: string, disabledTools: seq<string>)

  function SnapshotOf(server: Entry): Snapshot {
    Snapshot(server.id, server.name, server.baseUrl, Sort(Listed(server.disabledTools)))
  }

  function SnapshotsOf(servers: seq<Entry>): (r: seq<Snapshot>)
    ensures |r| == |servers| && forall i :: 0 <= i < |servers| ==> r[i] == SnapshotOf(servers[i])
  {
    seq(|servers|, i requires 0 <= i < |servers| => SnapshotOf(servers[i]))
  }

  function PrintSnapshot(s: Snapshot): (r: string)
    ensures r != "" && r[0] == '{'
  {
    "{\"id\":" + (Quote(s.id)
    + (",\"name\":" + (Quote(s.name)
    + (",\"baseUrl\":" + (Quote(s.baseUrl)
    + (",\"disabledTools\":" + (List(Quote, s.disabledTools)
    + "}")))))))
  }

  function ToolPolicyFingerprint(servers: seq<Entry>): string {
    List(PrintSnapshot, SnapshotsOf(servers))
  }

  lemma DropPrefix(p: string, x: string, y: string)
    requires p + x == p + y
    ensures x == y
  {
    assert (p + x)[|p|..] == x && (p + y)[|p|..] == y;
  }

  /** The printed record with text behind it, one field at a time. */
  function Printed(s: Snapshot, x: string): string {
    "{\"id\":" + (Quote(s.id) + AfterId(s, x))
  }

  function AfterId(s: Snapshot, x: string): string {
    ",\"name\":" + (Quote(s.name) + AfterName(s, x))
  }

  function AfterName(s: Snapshot, x: string): string {
    ",\"baseUrl\":" + (Quote(s.baseUrl) + AfterBaseUrl(s, x))
  }

  function AfterBaseUrl(s: Snapshot, x: string): string {
    ",\"disabledTools\":" + (List(Quote, s.disabledTools) + ("}" + x))
  }

  lemma PrintedIs(s: Snapshot, x: string)
    ensures PrintSnapshot(s) + x == Printed(s, x)
  {
    hide Quote, List;
  }

  lemma SnapshotTellsApart(a: Snapshot, b: Snapshot, x: string, y: string)
    requires PrintSnapshot(a) + x == PrintSnapshot(b) + y
    ensures a == b && x == y
  {
    PrintedIs(a, x);
    PrintedIs(b, y);
    PrintedTellsApart(a, b, x, y);
  }

  lemma PrintedTellsApart(a: Snapshot, b: Snapshot, x: string, y: string)
    requires Printed(a, x) == Printed(b, y)
    ensures a == b && x == y
  {
    hide Quote, List, AfterId, AfterName, AfterBaseUrl;
    DropPrefix("{\"id\":", Quote(a.id) + AfterId(a, x), Quote(b.id) + AfterId(b, y));
    QuoteTellsApart(a.id, b.id, AfterId(a, x), AfterId(b, y));
    AfterIdTellsApart(a, b, x, y);
  }

  lemma AfterIdTellsApart(a: Snapshot, b: Snapshot, x: string, y: string)
    requires AfterId(a, x) == AfterId(b, y)
    ensures a.name == b.name && a.baseUrl == b.baseUrl && a.disabledTools == b.disabledTools && x == y
  {
    hide Quote, List;
    DropPrefix(",\"name\":", Quote(a.name) + AfterName(a, x), Quote(b.name) + AfterName(b, y));
    QuoteTellsApart(a.name, b.name, AfterName(a, x), AfterName(b, y));
    DropPrefix(",\"baseUrl\":", Quote(a.baseUrl) + AfterBaseUrl(a, x), Quote(b.baseUrl) + AfterBaseUrl(b, y));
    QuoteTellsApart(a.baseUrl, b.baseUrl, AfterBaseUrl(a, x), AfterBaseUrl(b, y));
    AfterBaseUrlTellsApart(a, b, x, y);
  }

  lemma AfterBaseUrlTellsApart(a: Snapshot, b: Snapshot, x: string, y: string)
    requires AfterBaseUrl(a, x) == AfterBaseUrl(b, y)
    ensures a.disabledTools == b.disabledTools && x == y
  {
    hide Quote, List;
    DropPrefix(",\"disabledTools\":", List(Quote, a.disabledTools) + ("}" + x), List(Quote, b.disabledTools) + ("}" + y));
    QuoteIsPrefixCode();
    ListTellsApart(Quote, a.disabledTools, b.disabledTools, "}" + x, "}" + y);
    DropPrefix("}", x, y);
  }

  lemma PrintSnapshotIsPrefixCode()
    ensures PrefixCode(PrintSnapshot)
  {
    hide PrintSnapshot;
    forall a, b, x, y | PrintSnapshot(a) + x == PrintSnapshot(b) + y ensures a == b && x == y {
      SnapshotTellsApart(a, b, x, y);
    }
  }

  /** The same text exactly for the same snapshots, whatever characters the
      names contain. */
  lemma FingerprintIsInjective(a: seq<Entry>, b: seq<Entry>)
    ensures ToolPolicyFingerprint(a) == ToolPolicyFingerprint(b) <==> SnapshotsOf(a) == SnapshotsOf(b)
  {
    hide PrintSnapshot, List;
    if ToolPolicyFingerprint(a) == ToolPolicyFingerprint(b) {
      PrintSnapshotIsPrefixCode();
      ListTellsApart(PrintSnapshot, SnapshotsOf(a), SnapshotsOf(b), "", "");
    }
  }

  predicate SameServer(a: Entry, b: Entry) {
    && a.id == b.id && a.name == b.name && a.baseUrl == b.baseUrl
    && multiset(Listed(a.disabledTools)) == multiset(Listed(b.disabledTools))
  }

  lemma SnapshotEqual(a: Entry, b: Entry)
    ensures SnapshotOf(a) == SnapshotOf(b) <==> SameServer(a, b)
  {
    hide Sort, Sorted;
    SortSorts(Listed(a.disabledTools));
    SortSorts(Listed(b.disabledTools));
    if SameServer(a, b) {
      SortedIsUnique(Sort(Listed(a.disabledTools)), Sort(Listed(b.disabledTools)));
    }
  }

  lemma SameServerSamePolicy(a: Entry, b: Entry, tool: string)
    requires SameServer(a, b)
    ensures IsToolEnabled(a.disabledTools, tool) <==> IsToolEnabled(b.disabledTools, tool)
  {
    var la, lb := Listed(a.disabledTools), Listed(b.disabledTools);
    assert tool in multiset(la) <==> tool in la;
    assert tool in multiset(lb) <==> tool in lb;
  }

  /** Equal fingerprints mean the same servers in the same places with the same
      disabled tools, up to the order in which those are listed, and conversely. */
  lemma EqualFingerprintsIff(a: seq<Entry>, b: seq<Entry>)
    ensures ToolPolicyFingerprint(a) == ToolPolicyFingerprint(b) <==>
            |a| == |b| && forall i :: 0 <= i < |a| ==> SameServer(a[i], b[i])
  {
    hide ToolPolicyFingerprint, SnapshotOf, SameServer;
    FingerprintIsInjective(a, b);
    forall i | 0 <= i < |a| && i < |b| ensures SnapshotsOf(a)[i] == SnapshotsOf(b)[i] <==> SameServer(a[i], b[i]) {
      SnapshotEqual(a[i], b[i]);
    }
  }

  /** So no change to what is exposed goes unnoticed; and between lists the
      commands leave behind, nothing else is noticed. */
  lemma FingerprintWatchesThePolicy(a: seq<Entry>, b: seq<Entry>)
    requires |a| == |b|
    requires forall i :: 0 <= i < |a| ==> a[i].id == b[i].id && a[i].name == b[i].name && a[i].baseUrl == b[i].baseUrl
    requires forall i :: 0 <= i < |a| ==> Canonical(a[i].disabledTools) && Canonical(b[i].disabledTools)
    ensures ToolPolicyFingerprint(a) == ToolPolicyFingerprint(b) <==>
            forall i, tool :: 0 <= i < |a| ==>
              (IsToolEnabled(a[i].disabledTools, tool) <==> IsToolEnabled(b[i].disabledTools, tool))
  {
    hide ToolPolicyFingerprint, IsToolEnabled, Canonical;
    EqualFingerprintsIff(a, b);
    forall i | 0 <= i < |a|
      ensures SameServer(a[i], b[i]) <==>
              forall tool :: IsToolEnabled(a[i].disabledTools, tool) <==> IsToolEnabled(b[i].disabledTools, tool)
    {
      SamePolicySameRecord(a[i].disabledTools, b[i].disabledTools);
      if SameServer(a[i], b[i]) {
        forall tool { SameServerSamePolicy(a[i], b[i], tool); }
      }
    }
  }

  lemma EqualFingerprintsSamePolicy(a: seq<Entry>, b: seq<Entry>, i: nat, tool: string)
    requires ToolPolicyFingerprint(a) == ToolPolicyFingerprint(b) && i < |a|
    ensures |b| == |a|
    ensures IsToolEnabled(a[i].disabledTools, tool) <==> IsToolEnabled(b[i].disabledTools, tool)
  {
    hide ToolPolicyFingerprint, IsToolEnabled;
    EqualFingerprintsIff(a, b);
    SameServerSamePolicy(a[i], b[i], tool);
  }
}
