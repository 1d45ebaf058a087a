/**
 * The asset postprocessor: for every imported or moved asset it runs the
 * import rules in order and creates or updates the asset's Addressables
 * entry; it also prunes empty groups and names the per-story groups.
 *
 * The Addressables settings are modelled as plain records: a list of group
 * slots (None for a slot Unity reports as null), the entries keyed by the
 * asset's GUID, and the default group. An entry names its group; the GUID of
 * an asset is represented by its import path.
 */
module Importer {
  import opened Text
  import opened PathTokens
  import opened ImportRule

  datatype Group = Group(name: string, isDefault: bool, readOnly: bool)

  /** An entry: the asset's current path ("" once the asset is gone), its group, address and labels. */
  datatype Entry = Entry(assetPath: string, group: string, address: string, labels: set<string>)

  datatype Settings = Settings(groups: seq<Option<Group>>, entries: map<string, Entry>, defaultGroup: Group)

  predicate NoNullGroups(groups: seq<Option<Group>>) {
    forall k :: 0 <= k < |groups| ==> groups[k].Some?
  }

  // ---------------------------------------------------------------------
  // Group lookup
  // ---------------------------------------------------------------------

  /** The outcome of List.Find over the group slots: Faulted when a null slot is dereferenced first. */
  datatype Lookup = Found(group: Group) | Missing | Faulted

  function FindGroup(groups: seq<Option<Group>>, name: string): Lookup
    decreases |groups|
  {
    if groups == [] then Missing
    else if groups[0].None? then Faulted
    else if groups[0].value.name == name then Found(groups[0].value)
    else FindGroup(groups[1..], name)
  }

  /** `k` is the first slot holding a group called `name`. */
  predicate FirstNamed(groups: seq<Option<Group>>, name: string, k: int) {
    0 <= k < |groups| && groups[k].Some? && groups[k].value.name == name &&
    forall j :: 0 <= j < k ==> groups[j].Some? && groups[j].value.name != name
  }

  /** Over null-free slots the search finds the first group of that name, or reports that there is none. */
  lemma {:induction false} FindGroupFacts(groups: seq<Option<Group>>, name: string)
    requires NoNullGroups(groups)
    ensures !FindGroup(groups, name).Faulted?
    ensures FindGroup(groups, name).Missing? <==> forall k :: 0 <= k < |groups| ==> groups[k].value.name != name
    ensures FindGroup(groups, name).Found? ==>
      exists k :: FirstNamed(groups, name, k) && groups[k] == Some(FindGroup(groups, name).group)
    decreases |groups|
  {
    if groups != [] && groups[0].value.name != name {
      FindGroupFacts(groups[1..], name);
      if FindGroup(groups, name).Missing? {
        forall k | 0 <= k < |groups|
          ensures groups[k].value.name != name
        {
          if k > 0 {
            assert groups[k] == groups[1..][k - 1];
          }
        }
      }
      if FindGroup(groups, name).Found? {
        var k :| FirstNamed(groups[1..], name, k) && groups[1..][k] == Some(FindGroup(groups, name).group);
        assert FirstNamed(groups, name, k + 1) by {
          forall j | 0 <= j < k + 1
            ensures groups[j].Some? && groups[j].value.name != name
          {
            if j > 0 {
              assert groups[j] == groups[1..][j - 1];
            }
          }
        }
      }
    } else if groups != [] {
      assert FirstNamed(groups, name, 0);
    }
  }

  /** TryGetGroup: a blank name selects the default group, any other the group named by the trimmed name. */
  function TryGetGroup(s: Settings, groupName: Option<string>): Lookup {
    if groupName.None? || IsBlank(groupName.value) then Found(s.defaultGroup)
    else FindGroup(s.groups, Trim(groupName.value))
  }

  lemma TryGetGroupFacts(s: Settings, groupName: Option<string>)
    requires NoNullGroups(s.groups)
    ensures groupName.None? || IsBlank(groupName.value) ==> TryGetGroup(s, groupName) == Found(s.defaultGroup)
    ensures !TryGetGroup(s, groupName).Faulted?
    ensures TryGetGroup(s, groupName).Missing? <==>
      groupName.Some? && !IsBlank(groupName.value) &&
      forall k :: 0 <= k < |s.groups| ==> s.groups[k].value.name != Trim(groupName.value)
    ensures TryGetGroup(s, groupName).Found? && groupName.Some? && !IsBlank(groupName.value) ==>
      TryGetGroup(s, groupName).group.name == Trim(groupName.value) &&
      Some(TryGetGroup(s, groupName).group) in s.groups
  {
    if groupName.Some? && !IsBlank(groupName.value) {
      FindGroupFacts(s.groups, Trim(groupName.value));
    }
  }

  // ---------------------------------------------------------------------
  // Creating or updating one entry
  // ---------------------------------------------------------------------

  /** Where the entry goes: the group list afterwards and the name of the entry's group. */
  datatype Placement = Placement(groups: seq<Option<Group>>, target: string)

  /** The group step: the group found, a group created under the requested name, or nothing. */
  function PlaceGroup(s: Settings, groupName: Option<string>, allowGroupCreation: bool): Option<Placement> {
    match TryGetGroup(s, groupName)
    case Found(g) => Some(Placement(s.groups, g.name))
    case Missing =>
      if allowGroupCreation then
        Some(Placement(s.groups + [Some(Group(groupName.GetOr(""), false, false))], groupName.GetOr("")))
      else None
    case Faulted => None
  }

  /** The entry of the asset in its target group: an existing one is moved, a new one is addressed by its path. */
  function EntryFor(entries: map<string, Entry>, assetPath: string, target: string): Entry {
    if assetPath in entries then entries[assetPath].(group := target)
    else Entry(assetPath, target, assetPath, {})
  }

  /** The label step: Replace clears the set first, then every rule label is added. */
  function MergeLabels(current: set<string>, mode: LabelWriteMode, labels: seq<string>): set<string> {
    (if mode == Replace then {} else current) + set l | l in labels
  }

  /** An entry's address is recomputed only when it is empty or still a path, or the rule asks for it. */
  predicate AddressCondition(address: string, rule: RuleSpec) {
    address == [] || StartsWith(address, "Assets/") || rule.simplified || !IsBlank(rule.addressReplacement)
  }

  /** The settings after one rule has been applied to one asset, and whether the entry is reported. */
  datatype Outcome = Outcome(settings: Settings, recorded: bool)

  /** CreateOrUpdateAddressableAssetEntry over the settings as values. */
  function UpdateEntry(s: Settings, rule: RuleSpec, assetPath: string, allowGroupCreation: bool,
                       rx: RegexEngine): Outcome
    requires NoNullGroups(s.groups) && RuleTerminates(rule, assetPath)
  {
    match PlaceGroup(s, RuleGroup(rule, assetPath, rx), allowGroupCreation)
    case None => Outcome(s, false)
    case Some(pl) =>
      var e0 := EntryFor(s.entries, assetPath, pl.target);
      var e := e0.(labels := MergeLabels(e0.labels, rule.labelMode, Labels(rule.labelRefs)));
      if AddressCondition(e.address, rule) then
        var newPath := RuleAddress(rule, assetPath, rx);
        Outcome(Settings(pl.groups, s.entries[assetPath := e.(address := newPath)], s.defaultGroup),
                e.address != newPath)
      else
        Outcome(Settings(pl.groups, s.entries[assetPath := e], s.defaultGroup), true)
  }

  /** The entry an asset has before the update, as EntryFor finds or creates it. */
  function PriorEntry(s: Settings, assetPath: string): Entry {
    if assetPath in s.entries then s.entries[assetPath] else Entry(assetPath, "", assetPath, {})
  }

  /**
   * The group step: without a group and without permission to create one,
   * nothing changes and no entry is produced; otherwise the group list keeps
   * its slots (one is appended for a created group) and the entry joins the
   * group found or created.
   */
  lemma UpdateEntryGroup(s: Settings, rule: RuleSpec, assetPath: string, allowGroupCreation: bool, rx: RegexEngine)
    requires NoNullGroups(s.groups) && RuleTerminates(rule, assetPath)
    ensures var o := UpdateEntry(s, rule, assetPath, allowGroupCreation, rx);
      var lookup := TryGetGroup(s, RuleGroup(rule, assetPath, rx));
      && NoNullGroups(o.settings.groups)
      && o.settings.defaultGroup == s.defaultGroup
      && (lookup.Missing? && !allowGroupCreation ==> o == Outcome(s, false))
      && (lookup.Found? ==> o.settings.groups == s.groups && o.settings.entries[assetPath].group == lookup.group.name)
      && (lookup.Missing? && allowGroupCreation ==>
            RuleGroup(rule, assetPath, rx).Some? &&
            o.settings.groups == s.groups + [Some(Group(RuleGroup(rule, assetPath, rx).value, false, false))] &&
            o.settings.entries[assetPath].group == RuleGroup(rule, assetPath, rx).value)
  {
    TryGetGroupFacts(s, RuleGroup(rule, assetPath, rx));
    var o := UpdateEntry(s, rule, assetPath, allowGroupCreation, rx);
    assert NoNullGroups(o.settings.groups) by {
      var pl := PlaceGroup(s, RuleGroup(rule, assetPath, rx), allowGroupCreation);
      if pl.Some? {
        assert forall k :: 0 <= k < |pl.value.groups| ==> pl.value.groups[k].Some?;
      }
    }
  }

  /** Only the asset's own entry changes; all other entries are kept as they were. */
  lemma UpdateEntryFrame(s: Settings, rule: RuleSpec, assetPath: string, allowGroupCreation: bool, rx: RegexEngine)
    requires NoNullGroups(s.groups) && RuleTerminates(rule, assetPath)
    ensures var o := UpdateEntry(s, rule, assetPath, allowGroupCreation, rx);
      o.settings.entries - {assetPath} == s.entries - {assetPath}
  {
  }

  /**
   * The label step: with Replace the entry carries exactly the rule's labels;
   * with Add the labels it had (none for a new entry) together with the rule's.
   */
  lemma UpdateEntryLabels(s: Settings, rule: RuleSpec, assetPath: string, allowGroupCreation: bool, rx: RegexEngine)
    requires NoNullGroups(s.groups) && RuleTerminates(rule, assetPath)
    requires PlaceGroup(s, RuleGroup(rule, assetPath, rx), allowGroupCreation).Some?
    ensures var o := UpdateEntry(s, rule, assetPath, allowGroupCreation, rx);
      assetPath in o.settings.entries &&
      (rule.labelMode == Replace ==> o.settings.entries[assetPath].labels == set l | l in Labels(rule.labelRefs)) &&
      (rule.labelMode == Add ==>
        o.settings.entries[assetPath].labels == PriorEntry(s, assetPath).labels + set l | l in Labels(rule.labelRefs))
  {
  }

  /**
   * The address step: when the condition does not hold the address is left
   * as it was and the entry is reported; when it holds the address becomes
   * the rule's address, and the entry is reported exactly when that differs
   * from the address it had (the label changes are kept either way).
   */
  lemma UpdateEntryAddress(s: Settings, rule: RuleSpec, assetPath: string, allowGroupCreation: bool, rx: RegexEngine)
    requires NoNullGroups(s.groups) && RuleTerminates(rule, assetPath)
    requires PlaceGroup(s, RuleGroup(rule, assetPath, rx), allowGroupCreation).Some?
    ensures var o := UpdateEntry(s, rule, assetPath, allowGroupCreation, rx);
      var prior := PriorEntry(s, assetPath).address;
      assetPath in o.settings.entries &&
      (!AddressCondition(prior, rule) ==> o.settings.entries[assetPath].address == prior && o.recorded) &&
      (AddressCondition(prior, rule) ==>
        o.settings.entries[assetPath].address == RuleAddress(rule, assetPath, rx) &&
        (o.recorded <==> prior != RuleAddress(rule, assetPath, rx)))
  {
  }

  /** The group step twice: a group found stays found, and a group created under a trimmed name is found next time. */
  lemma PlaceGroupTwice(s: Settings, groupName: Option<string>, allowGroupCreation: bool)
    requires NoNullGroups(s.groups)
    requires groupName.Some? ==> Trim(groupName.value) == groupName.value
    requires PlaceGroup(s, groupName, allowGroupCreation).Some?
    ensures var pl := PlaceGroup(s, groupName, allowGroupCreation).value;
      NoNullGroups(pl.groups) &&
      PlaceGroup(Settings(pl.groups, s.entries, s.defaultGroup), groupName, allowGroupCreation) == Some(pl)
  {
    TryGetGroupFacts(s, groupName);
    var pl := PlaceGroup(s, groupName, allowGroupCreation).value;
    var s' := Settings(pl.groups, s.entries, s.defaultGroup);
    assert NoNullGroups(pl.groups) by {
      assert forall k :: 0 <= k < |pl.groups| ==> pl.groups[k].Some?;
    }
    if TryGetGroup(s, groupName).Missing? {
      var n := groupName.value;
      FindGroupFacts(s.groups, n);
      FindGroupFacts(pl.groups, n);
      assert FirstNamed(pl.groups, n, |s.groups|);
      TryGetGroupFacts(s', groupName);
    }
  }

  /**
   * Applying the same rule twice to the same asset leaves the settings as
   * applying it once, provided a group the rule creates is looked up under the
   * same name next time (its name has no surrounding white space).
   */
  lemma {:induction false} UpdateEntryTwice(s: Settings, rule: RuleSpec, assetPath: string, allowGroupCreation: bool,
                                            rx: RegexEngine)
    requires NoNullGroups(s.groups) && RuleTerminates(rule, assetPath)
    requires RuleGroup(rule, assetPath, rx).Some? ==>
      Trim(RuleGroup(rule, assetPath, rx).value) == RuleGroup(rule, assetPath, rx).value
    ensures var once := UpdateEntry(s, rule, assetPath, allowGroupCreation, rx).settings;
      NoNullGroups(once.groups) &&
      UpdateEntry(once, rule, assetPath, allowGroupCreation, rx).settings == once
  {
    var groupName := RuleGroup(rule, assetPath, rx);
    UpdateEntryGroup(s, rule, assetPath, allowGroupCreation, rx);
    UpdateEntryTwiceEntries(s, rule, assetPath, allowGroupCreation, rx);
    var once := UpdateEntry(s, rule, assetPath, allowGroupCreation, rx).settings;
    var twice := UpdateEntry(once, rule, assetPath, allowGroupCreation, rx).settings;
    var pl := PlaceGroup(s, groupName, allowGroupCreation);
    if pl.Some? {
      PlaceGroupTwice(s, groupName, allowGroupCreation);
      assert once.groups == pl.value.groups;
      assert PlaceGroup(once, groupName, allowGroupCreation) == pl by {
        assert TryGetGroup(once, groupName) ==
          TryGetGroup(Settings(pl.value.groups, s.entries, s.defaultGroup), groupName);
      }
      assert twice.groups == once.groups;
    }
    assert twice == Settings(twice.groups, twice.entries, twice.defaultGroup);
  }

  /**
   * The group step again on the list it produced: some group is placed again,
   * and the entry's group name is the same as the first time.
   */
  lemma PlaceGroupAgain(s: Settings, groupName: Option<string>, allowGroupCreation: bool,
                        entries: map<string, Entry>)
    requires NoNullGroups(s.groups)
    requires PlaceGroup(s, groupName, allowGroupCreation).Some?
    ensures var pl := PlaceGroup(s, groupName, allowGroupCreation).value;
      var again := PlaceGroup(Settings(pl.groups, entries, s.defaultGroup), groupName, allowGroupCreation);
      NoNullGroups(pl.groups) && again.Some? && again.value.target == pl.target
  {
    TryGetGroupFacts(s, groupName);
    var pl := PlaceGroup(s, groupName, allowGroupCreation).value;
    var s' := Settings(pl.groups, entries, s.defaultGroup);
    assert NoNullGroups(pl.groups) by {
      assert forall k :: 0 <= k < |pl.groups| ==> pl.groups[k].Some?;
    }
    TryGetGroupFacts(s', groupName);
    if TryGetGroup(s, groupName).Found? {
      assert TryGetGroup(s', groupName) == TryGetGroup(s, groupName);
    } else {
      var n := groupName.value;
      if Trim(n) == n {
        FindGroupFacts(pl.groups, n);
        assert FirstNamed(pl.groups, n, |s.groups|);
      }
    }
  }

  /**
   * Applying the same rule twice to the same asset leaves every entry as
   * applying it once: its group, address and labels are not changed again,
   * whatever the group name looks like.
   */
  lemma {:induction false} UpdateEntryTwiceEntries(s: Settings, rule: RuleSpec, assetPath: string,
                                                   allowGroupCreation: bool, rx: RegexEngine)
    requires NoNullGroups(s.groups) && RuleTerminates(rule, assetPath)
    ensures var once := UpdateEntry(s, rule, assetPath, allowGroupCreation, rx).settings;
      NoNullGroups(once.groups) &&
      UpdateEntry(once, rule, assetPath, allowGroupCreation, rx).settings.entries == once.entries
  {
    UpdateEntryGroup(s, rule, assetPath, allowGroupCreation, rx);
    if PlaceGroup(s, RuleGroup(rule, assetPath, rx), allowGroupCreation).Some? {
      UpdateEntryTwicePlaced(s, rule, assetPath, allowGroupCreation, rx);
    }
  }

  lemma UpdateEntryTwicePlaced(s: Settings, rule: RuleSpec, assetPath: string, allowGroupCreation: bool,
                               rx: RegexEngine)
    requires NoNullGroups(s.groups) && RuleTerminates(rule, assetPath)
    requires PlaceGroup(s, RuleGroup(rule, assetPath, rx), allowGroupCreation).Some?
    ensures var once := UpdateEntry(s, rule, assetPath, allowGroupCreation, rx).settings;
      NoNullGroups(once.groups) &&
      UpdateEntry(once, rule, assetPath, allowGroupCreation, rx).settings.entries == once.entries
  {
    var groupName := RuleGroup(rule, assetPath, rx);
    UpdateEntryGroup(s, rule, assetPath, allowGroupCreation, rx);
    var once := UpdateEntry(s, rule, assetPath, allowGroupCreation, rx).settings;
    var pl := PlaceGroup(s, groupName, allowGroupCreation);
    PlaceGroupAgain(s, groupName, allowGroupCreation, once.entries);
    assert once.groups == pl.value.groups;
    var again := PlaceGroup(once, groupName, allowGroupCreation);
    assert again.Some? && again.value.target == pl.value.target;
    var e := once.entries[assetPath];
    var ls := Labels(rule.labelRefs);
    assert EntryFor(once.entries, assetPath, pl.value.target) == e;
    assert MergeLabels(e.labels, rule.labelMode, ls) == e.labels;
    assert e.(labels := MergeLabels(e.labels, rule.labelMode, ls)) == e;
    UpdateEntryAddress(s, rule, assetPath, allowGroupCreation, rx);
    assert once.entries[assetPath := e] == once.entries;
  }

  /**
   * The group list is not idempotent when the rule's group name carries
   * surrounding white space and group creation is on: the lookup trims the
   * name but the created group keeps it, so a second application creates a
   * second group of the same name.
   */
  lemma UntrimmedGroupCreatedTwice(s: Settings, rule: RuleSpec, assetPath: string, rx: RegexEngine)
    requires NoNullGroups(s.groups) && RuleTerminates(rule, assetPath)
    requires RuleGroup(rule, assetPath, rx).Some?
    requires !IsBlank(RuleGroup(rule, assetPath, rx).value)
    requires Trim(RuleGroup(rule, assetPath, rx).value) != RuleGroup(rule, assetPath, rx).value
    requires TryGetGroup(s, RuleGroup(rule, assetPath, rx)).Missing?
    ensures var n := RuleGroup(rule, assetPath, rx).value;
      var once := UpdateEntry(s, rule, assetPath, true, rx).settings;
      NoNullGroups(once.groups) &&
      UpdateEntry(once, rule, assetPath, true, rx).settings.groups ==
        s.groups + [Some(Group(n, false, false)), Some(Group(n, false, false))]
  {
    var groupName := RuleGroup(rule, assetPath, rx);
    var n := groupName.value;
    UpdateEntryGroup(s, rule, assetPath, true, rx);
    var once := UpdateEntry(s, rule, assetPath, true, rx).settings;
    TryGetGroupFacts(s, groupName);
    TryGetGroupFacts(once, groupName);
    assert once.groups == s.groups + [Some(Group(n, false, false))];
    assert forall k :: 0 <= k < |once.groups| ==> once.groups[k].value.name != Trim(n) by {
      forall k | 0 <= k < |once.groups| ensures once.groups[k].value.name != Trim(n) {
        if k < |s.groups| {
          assert once.groups[k] == s.groups[k];
        }
      }
    }
    UpdateEntryGroup(once, rule, assetPath, true, rx);
  }

  // ---------------------------------------------------------------------
  // The rule loops of OnPostprocessAllAssets
  // ---------------------------------------------------------------------

  /** The settings as the loops leave them, and the assets whose entries were reported, in order. */
  datatype Run = Run(settings: Settings, added: seq<string>)

  /** Every rule that takes effect on the asset has expansions that come to an end. */
  predicate RulesTerminate(rules: seq<RuleSpec>, assetPath: string, rx: RegexEngine) {
    forall k :: 0 <= k < |rules| ==> (Applies(rules[k], assetPath, rx) ==> RuleTerminates(rules[k], assetPath))
  }

  /** One rule on one asset: skipped unless it matches and the extension is not excluded. */
  function ApplyRule(run: Run, rule: RuleSpec, assetPath: string, allowGroupCreation: bool, rx: RegexEngine): (r: Run)
    requires NoNullGroups(run.settings.groups)
    requires Applies(rule, assetPath, rx) ==> RuleTerminates(rule, assetPath)
    ensures NoNullGroups(r.settings.groups)
  {
    if !Applies(rule, assetPath, rx) then run
    else
      UpdateEntryGroup(run.settings, rule, assetPath, allowGroupCreation, rx);
      var o := UpdateEntry(run.settings, rule, assetPath, allowGroupCreation, rx);
      Run(o.settings, if o.recorded then run.added + [assetPath] else run.added)
  }

  /** The rules from index `from` on, in list order, on one asset; no rule stops the others. */
  function ApplyRules(run: Run, rules: seq<RuleSpec>, from: nat, assetPath: string, allowGroupCreation: bool,
                      rx: RegexEngine): (r: Run)
    requires NoNullGroups(run.settings.groups) && RulesTerminate(rules, assetPath, rx)
    ensures NoNullGroups(r.settings.groups)
    decreases |rules| - from
  {
    if from >= |rules| then run
    else ApplyRules(ApplyRule(run, rules[from], assetPath, allowGroupCreation, rx), rules, from + 1, assetPath,
                    allowGroupCreation, rx)
  }

  lemma ApplyRulesStep(run: Run, rules: seq<RuleSpec>, from: nat, assetPath: string, allowGroupCreation: bool,
                       rx: RegexEngine)
    requires NoNullGroups(run.settings.groups) && RulesTerminate(rules, assetPath, rx) && from < |rules|
    ensures Applies(rules[from], assetPath, rx) ==> RuleTerminates(rules[from], assetPath)
    ensures ApplyRules(run, rules, from, assetPath, allowGroupCreation, rx) ==
      ApplyRules(ApplyRule(run, rules[from], assetPath, allowGroupCreation, rx), rules, from + 1, assetPath,
                 allowGroupCreation, rx)
  {
  }

  /** All rules on the assets from index `from` on, asset after asset. */
  function ImportAll(run: Run, paths: seq<string>, from: nat, rules: seq<RuleSpec>, allowGroupCreation: bool,
                     rx: RegexEngine): (r: Run)
    requires NoNullGroups(run.settings.groups)
    requires forall i :: 0 <= i < |paths| ==> RulesTerminate(rules, paths[i], rx)
    ensures NoNullGroups(r.settings.groups)
    decreases |paths| - from
  {
    if from >= |paths| then run
    else ImportAll(ApplyRules(run, rules, 0, paths[from], allowGroupCreation, rx), paths, from + 1, rules,
                   allowGroupCreation, rx)
  }

  /** Reported assets are only ever appended: the list grows by the assets of this run, in order. */
  lemma {:induction false} ApplyRulesAdds(run: Run, rules: seq<RuleSpec>, from: nat, assetPath: string,
                                          allowGroupCreation: bool, rx: RegexEngine)
    requires NoNullGroups(run.settings.groups) && RulesTerminate(rules, assetPath, rx)
    ensures var r := ApplyRules(run, rules, from, assetPath, allowGroupCreation, rx);
      |run.added| <= |r.added| && r.added[..|run.added|] == run.added &&
      forall j :: |run.added| <= j < |r.added| ==> r.added[j] == assetPath
    decreases |rules| - from
  {
    if from < |rules| {
      var next := ApplyRule(run, rules[from], assetPath, allowGroupCreation, rx);
      ApplyRulesAdds(next, rules, from + 1, assetPath, allowGroupCreation, rx);
      var r := ApplyRules(run, rules, from, assetPath, allowGroupCreation, rx);
      assert r.added[..|next.added|][..|run.added|] == r.added[..|run.added|];
    }
  }

  /** Importing two lists one after the other is importing their concatenation. */
  lemma {:induction false} ImportAllAppend(run: Run, a: seq<string>, b: seq<string>, from: nat,
                                           rules: seq<RuleSpec>, allowGroupCreation: bool, rx: RegexEngine)
    requires NoNullGroups(run.settings.groups)
    requires forall i :: 0 <= i < |a| ==> RulesTerminate(rules, a[i], rx)
    requires forall i :: 0 <= i < |b| ==> RulesTerminate(rules, b[i], rx)
    requires from <= |a|
    ensures forall i :: 0 <= i < |a + b| ==> RulesTerminate(rules, (a + b)[i], rx)
    ensures ImportAll(run, a + b, from, rules, allowGroupCreation, rx) ==
            ImportAll(ImportAll(run, a, from, rules, allowGroupCreation, rx), b, 0, rules, allowGroupCreation, rx)
    decreases |a| - from
  {
    assert forall i :: 0 <= i < |a + b| ==> RulesTerminate(rules, (a + b)[i], rx) by {
      forall i | 0 <= i < |a + b|
        ensures RulesTerminate(rules, (a + b)[i], rx)
      {
        if i >= |a| {
          assert (a + b)[i] == b[i - |a|];
        }
      }
    }
    if from < |a| {
      assert (a + b)[from] == a[from];
      ImportAllAppend(ApplyRules(run, rules, 0, a[from], allowGroupCreation, rx), a, b, from + 1, rules,
                      allowGroupCreation, rx);
    } else {
      ImportAllShift(run, a, b, 0, rules, allowGroupCreation, rx);
    }
  }

  /** Past the first list, the import of a concatenation is the import of the second list. */
  lemma {:induction false} ImportAllShift(run: Run, a: seq<string>, b: seq<string>, j: nat,
                                          rules: seq<RuleSpec>, allowGroupCreation: bool, rx: RegexEngine)
    requires NoNullGroups(run.settings.groups)
    requires forall i :: 0 <= i < |a + b| ==> RulesTerminate(rules, (a + b)[i], rx)
    requires forall i :: 0 <= i < |b| ==> RulesTerminate(rules, b[i], rx)
    ensures ImportAll(run, a + b, |a| + j, rules, allowGroupCreation, rx) ==
            ImportAll(run, b, j, rules, allowGroupCreation, rx)
    decreases |b| - j
  {
    if j < |b| {
      assert (a + b)[|a| + j] == b[j];
      ImportAllShift(ApplyRules(run, rules, 0, b[j], allowGroupCreation, rx), a, b, j + 1, rules,
                     allowGroupCreation, rx);
    }
  }

  // ---------------------------------------------------------------------
  // RemoveEmptyGroup
  // ---------------------------------------------------------------------

  /** FindMissingAssetEntry: the group's entries whose asset is gone are removed from the settings. */
  function DropMissing(entries: map<string, Entry>, name: string): map<string, Entry> {
    map k | k in entries && !(entries[k].group == name && entries[k].assetPath == []) :: entries[k]
  }

  predicate HasNoEntries(entries: map<string, Entry>, name: string) {
    forall k :: k in entries ==> entries[k].group != name
  }

  /**
   * The removal predicate: a null slot goes, and so does a group that is left
   * without entries once its missing ones are dropped, unless it is the
   * default group. Read-only groups are decided the same way.
   */
  predicate Removable(g: Option<Group>, entries: map<string, Entry>) {
    g.None? || (HasNoEntries(DropMissing(entries, g.value.name), g.value.name) && !g.value.isDefault)
  }

  /** The group list after RemoveAll, which keeps the order of the groups it keeps. */
  function KeptGroups(groups: seq<Option<Group>>, entries: map<string, Entry>): seq<Option<Group>>
    decreases |groups|
  {
    if groups == [] then []
    else
      var last := groups[|groups| - 1];
      KeptGroups(groups[..|groups| - 1], entries) + (if Removable(last, entries) then [] else [last])
  }

  /** The entries after the missing ones of the first `n` group slots are dropped, slot by slot. */
  function DropUpTo(entries: map<string, Entry>, groups: seq<Option<Group>>, n: nat): map<string, Entry>
    requires n <= |groups|
  {
    if n == 0 then entries
    else
      var d := DropUpTo(entries, groups, n - 1);
      if groups[n - 1].Some? then DropMissing(d, groups[n - 1].value.name) else d
  }

  /**
   * Whether a group is removed depends on the entries of that group only:
   * it is removed exactly when it is not the default group and each of its
   * entries has lost its asset.
   */
  lemma RemovableMeaning(g: Group, entries: map<string, Entry>)
    ensures Removable(Some(g), entries) <==>
      !g.isDefault && forall k :: k in entries && entries[k].group == g.name ==> entries[k].assetPath == []
  {
    if !g.isDefault && forall k :: k in entries && entries[k].group == g.name ==> entries[k].assetPath == [] {
      var d := DropMissing(entries, g.name);
      forall k | k in d
        ensures d[k].group != g.name
      {
        assert d[k] == entries[k];
      }
    }
    if Removable(Some(g), entries) {
      var d := DropMissing(entries, g.name);
      forall k | k in entries && entries[k].group == g.name
        ensures entries[k].assetPath == []
      {
        assert k !in d;
      }
    }
  }

  /** Read-only status plays no part in the removal decision. */
  lemma RemovalIgnoresReadOnly(g: Group, readOnly: bool, entries: map<string, Entry>)
    ensures Removable(Some(g.(readOnly := readOnly)), entries) == Removable(Some(g), entries)
  {
  }

  /** The kept groups are exactly the slots the predicate spares, and none of them is null. */
  lemma {:induction false} KeptGroupsMembers(groups: seq<Option<Group>>, entries: map<string, Entry>)
    ensures forall g :: g in KeptGroups(groups, entries) <==> g in groups && !Removable(g, entries)
    ensures NoNullGroups(KeptGroups(groups, entries))
    decreases |groups|
  {
    if groups != [] {
      var init := groups[..|groups| - 1];
      KeptGroupsMembers(init, entries);
      assert groups == init + [groups[|groups| - 1]];
      var kept := KeptGroups(groups, entries);
      assert forall k :: 0 <= k < |kept| ==> kept[k] in kept;
    }
  }

  /** Dropping missing entries only removes entries, and only entries whose asset is gone. */
  lemma {:induction false} DropUpToFacts(entries: map<string, Entry>, groups: seq<Option<Group>>, n: nat)
    requires n <= |groups|
    ensures var d := DropUpTo(entries, groups, n);
      (forall k :: k in d ==> k in entries && d[k] == entries[k]) &&
      (forall k :: k in entries && k !in d ==> entries[k].assetPath == [])
  {
    if n > 0 {
      DropUpToFacts(entries, groups, n - 1);
    }
  }

  /** The removal decision is the same before and after other groups' missing entries are dropped. */
  lemma RemovableAfterDrops(g: Option<Group>, entries: map<string, Entry>, groups: seq<Option<Group>>, n: nat)
    requires n <= |groups|
    ensures Removable(g, DropUpTo(entries, groups, n)) == Removable(g, entries)
  {
    if g.Some? {
      DropUpToFacts(entries, groups, n);
      RemovableMeaning(g.value, entries);
      RemovableMeaning(g.value, DropUpTo(entries, groups, n));
    }
  }

  /**
   * Pruning twice prunes no more than once: every group the first pass keeps
   * is kept by the second, run over the entries the first pass left.
   */
  lemma RemoveEmptyGroupIdempotent(groups: seq<Option<Group>>, entries: map<string, Entry>)
    ensures var kept := KeptGroups(groups, entries);
      KeptGroups(kept, DropUpTo(entries, groups, |groups|)) == kept
  {
    PrunedLeavesNothingRemovable(groups, entries);
    KeptAllSpared(KeptGroups(groups, entries), DropUpTo(entries, groups, |groups|));
  }

  /** A list whose every slot is spared is kept whole. */
  lemma {:induction false} KeptAllSpared(kept: seq<Option<Group>>, entries: map<string, Entry>)
    requires forall g :: g in kept ==> !Removable(g, entries)
    ensures KeptGroups(kept, entries) == kept
    decreases |kept|
  {
    if kept != [] {
      var init, last := kept[..|kept| - 1], kept[|kept| - 1];
      InitMembers(kept);
      KeptAllSpared(init, entries);
      assert last in kept;
      assert init + [last] == kept;
    }
  }

  lemma InitMembers(s: seq<Option<Group>>)
    requires s != []
    ensures forall g :: g in s[..|s| - 1] ==> g in s
  {
  }

  /** After pruning, no group that is left would be removed by another pass. */
  lemma PrunedLeavesNothingRemovable(groups: seq<Option<Group>>, entries: map<string, Entry>)
    ensures forall g :: g in KeptGroups(groups, entries) ==> !Removable(g, DropUpTo(entries, groups, |groups|))
  {
    KeptGroupsMembers(groups, entries);
    forall g | g in KeptGroups(groups, entries)
      ensures !Removable(g, DropUpTo(entries, groups, |groups|))
    {
      RemovableAfterDrops(g, entries, groups, |groups|);
    }
  }

  /** The default group is never removed. */
  lemma DefaultGroupKept(groups: seq<Option<Group>>, entries: map<string, Entry>, g: Group)
    requires g.isDefault && Some(g) in groups
    ensures Some(g) in KeptGroups(groups, entries)
  {
    KeptGroupsMembers(groups, entries);
  }

  // ---------------------------------------------------------------------
  // Story groups
  // ---------------------------------------------------------------------

  /** The group a story folder's file goes to when the folder is imported: split on '/' only. */
  function StoryGroupOnCreate(assetPath: string): string {
    var parts := Split(assetPath, {'/'});
    "StoryAssets_" + parts[|parts| - 1]
  }

  /** The group removed when an asset is deleted: only for story paths, split on both separators. */
  function StoryGroupOnDelete(assetPath: string): Option<string> {
    if Contains(assetPath, "StoryAssets") then
      var parts := Split(assetPath, {'\\', '/'});
      Some("StoryAssets_" + parts[|parts| - 1])
    else None
  }

  /** A separator that does not occur in the text does not change how it splits. */
  lemma {:induction false} SplitIgnoresAbsent(s: string, seps: set<char>, extra: set<char>)
    requires NoneOf(s, extra)
    ensures Split(s, seps + extra) == Split(s, seps)
    decreases |s|
  {
    if s != [] {
      SplitIgnoresAbsent(s[1..], seps, extra);
      SplitStep(s, seps);
      SplitStep(s, seps + extra);
    }
  }

  /**
   * For a story path written with forward slashes (as the folder import
   * writes them), the group deleted with the asset is the group created for it.
   */
  lemma StoryNamesAgree(assetPath: string)
    requires Contains(assetPath, "StoryAssets") && NoneOf(assetPath, {'\\'})
    ensures StoryGroupOnDelete(assetPath) == Some(StoryGroupOnCreate(assetPath))
  {
    SplitIgnoresAbsent(assetPath, {'/'}, {'\\'});
    assert {'/'} + {'\\'} == {'\\', '/'};
  }

  /** The story group of a file is named after the file itself. */
  lemma StoryGroupOfFile(dir: string, name: string)
    requires dir == [] || dir[|dir| - 1] == '/'
    requires NoneOf(name, {'/'})
    ensures StoryGroupOnCreate(dir + name) == "StoryAssets_" + name
  {
    SplitLast(dir, name, {'/'});
  }

  // ---------------------------------------------------------------------
  // The settings object and the postprocessor's steps
  // ---------------------------------------------------------------------

  /** The label loop: Replace clears the entry's labels, then each label of the rule is added in turn. */
  method MergeRuleLabels(current: set<string>, mode: LabelWriteMode, ruleLabels: seq<string>)
    returns (labels: set<string>)
    ensures labels == MergeLabels(current, mode, ruleLabels)
  {
    labels := if mode == Replace then {} else current;
    ghost var cleared := labels;
    var i := 0;
    while i < |ruleLabels|
      invariant 0 <= i <= |ruleLabels|
      invariant labels == cleared + set l | l in ruleLabels[..i]
    {
      assert ruleLabels[..i + 1] == ruleLabels[..i] + [ruleLabels[i]];
      labels := labels + {ruleLabels[i]};
      i := i + 1;
    }
    assert ruleLabels[..i] == ruleLabels;
  }

  /** The rules' values, in list order. */
  function SpecsOf(rules: seq<AddressableImportRule>): (specs: seq<RuleSpec>)
    reads set r | r in rules
    ensures |specs| == |rules| && forall k :: 0 <= k < |rules| ==> specs[k] == rules[k].Spec()
  {
    if rules == [] then [] else [rules[0].Spec()] + SpecsOf(rules[1..])
  }

  /** Rules whose values are unchanged still have the same list of values. */
  lemma SpecsOfAgree(rules: seq<AddressableImportRule>, specs: seq<RuleSpec>)
    requires |specs| == |rules| && forall k :: 0 <= k < |rules| ==> rules[k].Spec() == specs[k]
    ensures SpecsOf(rules) == specs
  {
  }

  /** The Addressables settings, whose group list and entries the postprocessor updates in place. */
  class Catalog {
    var groups: seq<Option<Group>>
    var entries: map<string, Entry>
    const defaultGroup: Group

    constructor(groups: seq<Option<Group>>, entries: map<string, Entry>, defaultGroup: Group)
      ensures this.groups == groups && this.entries == entries && this.defaultGroup == defaultGroup
    {
      this.groups := groups;
      this.entries := entries;
      this.defaultGroup := defaultGroup;
    }

    function Snapshot(): Settings
      reads this
    {
      Settings(groups, entries, defaultGroup)
    }

    /**
     * The group step of CreateOrUpdateAddressableAssetEntry: TryGetGroup, and
     * when it fails, a new group of that name if creation is allowed. Returns
     * the name of the entry's group, or None when there is no group to use.
     */
    method PlaceInGroup(groupName: Option<string>, allowGroupCreation: bool) returns (target: Option<string>)
      requires NoNullGroups(groups)
      modifies this`groups
      ensures target.None? ==> groups == old(groups)
      ensures PlaceGroup(old(Snapshot()), groupName, allowGroupCreation) ==
        if target.None? then None else Some(Placement(groups, target.value))
    {
      var lookup := TryGetGroup(Snapshot(), groupName);
      TryGetGroupFacts(Snapshot(), groupName);
      if lookup.Found? {
        target := Some(lookup.group.name);
      } else if allowGroupCreation {
        var name := groupName.GetOr("");
        groups := groups + [Some(Group(name, false, false))];
        target := Some(name);
      } else {
        target := None;
      }
    }

    /**
     * CreateOrUpdateAddressableAssetEntry: find or create the group, move or
     * create the entry, merge the labels and recompute the address. Returns
     * whether the entry is reported. The rule has been matched first, so its
     * pattern is already trimmed.
     */
    method CreateOrUpdateEntry(rule: AddressableImportRule, assetPath: string, allowGroupCreation: bool,
                               rx: RegexEngine) returns (recorded: bool)
      requires NoNullGroups(groups)
      requires rule.path == Trim(rule.path)
      requires RuleTerminates(rule.Spec(), assetPath)
      modifies this, rule`addressReplacement
      ensures rule.Spec() == old(rule.Spec()) && rule.path == old(rule.path)
      ensures Snapshot() == UpdateEntry(old(Snapshot()), old(rule.Spec()), assetPath, allowGroupCreation, rx).settings
      ensures recorded == UpdateEntry(old(Snapshot()), old(rule.Spec()), assetPath, allowGroupCreation, rx).recorded
    {
      ghost var spec := rule.Spec();
      ghost var s0 := Snapshot();
      var groupName := rule.ParseGroupReplacement(assetPath, rx);
      assert groupName == RuleGroup(spec, assetPath, rx);
      var target := PlaceInGroup(groupName, allowGroupCreation);
      if target.None? {
        return false;
      }

      var entry := EntryFor(entries, assetPath, target.value);
      var labels := MergeRuleLabels(entry.labels, rule.labelMode, Labels(rule.labelRefs));
      entry := entry.(labels := labels);
      assert entry.address == EntryFor(s0.entries, assetPath, target.value).address;

      recorded := true;
      if entry.address == [] || StartsWith(entry.address, "Assets/") || rule.simplified ||
         !IsBlank(rule.addressReplacement.GetOr("")) {
        assert AddressCondition(entry.address, spec);
        var newPath := rule.ParseAddressReplacement(assetPath, rx);
        assert newPath == RuleAddress(spec, assetPath, rx);
        if entry.address == newPath {
          recorded := false;
        } else {
          entry := entry.(address := newPath);
        }
      } else {
        assert !AddressCondition(entry.address, spec);
      }
      entries := entries[assetPath := entry];
    }

    /** One rule on one asset: match it, check the extension, and create or update the entry. */
    method ApplyRuleTo(rule: AddressableImportRule, assetPath: string, added: seq<string>, allowGroupCreation: bool,
                       rx: RegexEngine) returns (added': seq<string>)
      requires NoNullGroups(groups)
      requires Applies(rule.Spec(), assetPath, rx) ==> RuleTerminates(rule.Spec(), assetPath)
      modifies this, rule`path, rule`addressReplacement
      ensures NoNullGroups(groups)
      ensures rule.Spec() == old(rule.Spec())
      ensures rule.path == Trim(old(rule.path))
      ensures Run(Snapshot(), added') ==
        ApplyRule(Run(old(Snapshot()), added), old(rule.Spec()), assetPath, allowGroupCreation, rx)
    {
      ghost var spec := rule.Spec();
      ghost var pattern := rule.path;
      TrimIdempotent(pattern);
      added' := added;
      var matched := rule.Match(assetPath, rx);
      assert matched == Matches(spec.pattern, spec.matchType, assetPath, rx);
      if matched && GetExtension(assetPath) !in rule.excludeExt {
        var recorded := CreateOrUpdateEntry(rule, assetPath, allowGroupCreation, rx);
        if recorded {
          added' := added + [assetPath];
        }
        UpdateEntryGroup(old(Snapshot()), spec, assetPath, allowGroupCreation, rx);
      }
    }

    /** Every rule, in list order, on one asset; no rule stops the ones after it. */
    method ApplyRulesTo(rules: seq<AddressableImportRule>, assetPath: string, added: seq<string>,
                        allowGroupCreation: bool, rx: RegexEngine) returns (added': seq<string>)
      requires NoNullGroups(groups)
      requires RulesTerminate(SpecsOf(rules), assetPath, rx)
      modifies this, rules
      ensures NoNullGroups(groups)
      ensures forall k :: 0 <= k < |rules| ==> rules[k].Spec() == old(rules[k].Spec())
      ensures Run(Snapshot(), added') ==
        ApplyRules(Run(old(Snapshot()), added), old(SpecsOf(rules)), 0, assetPath, allowGroupCreation, rx)
    {
      ghost var specs := SpecsOf(rules);
      ghost var goal := ApplyRules(Run(Snapshot(), added), specs, 0, assetPath, allowGroupCreation, rx);
      added' := added;
      var j := 0;
      while j < |rules|
        invariant 0 <= j <= |rules|
        invariant NoNullGroups(groups)
        invariant forall k :: 0 <= k < |rules| ==> rules[k].Spec() == specs[k]
        invariant ApplyRules(Run(Snapshot(), added'), specs, j, assetPath, allowGroupCreation, rx) == goal
      {
        ghost var run := Run(Snapshot(), added');
        ApplyRulesStep(run, specs, j, assetPath, allowGroupCreation, rx);
        added' := ApplyRuleTo(rules[j], assetPath, added', allowGroupCreation, rx);
        assert Run(Snapshot(), added') == ApplyRule(run, specs[j], assetPath, allowGroupCreation, rx);
        j := j + 1;
      }
    }

    /**
     * The loop over one list of asset paths: every rule, in order, on every
     * asset. The assets whose entries are reported are appended to `added0`.
     */
    method ImportAssets(paths: seq<string>, rules: seq<AddressableImportRule>, added0: seq<string>,
                        allowGroupCreation: bool, rx: RegexEngine) returns (added: seq<string>)
      requires NoNullGroups(groups)
      requires forall i :: 0 <= i < |paths| ==> RulesTerminate(SpecsOf(rules), paths[i], rx)
      modifies this, rules
      ensures NoNullGroups(groups)
      ensures forall k :: 0 <= k < |rules| ==> rules[k].Spec() == old(rules[k].Spec())
      ensures Run(Snapshot(), added) ==
        ImportAll(Run(old(Snapshot()), added0), paths, 0, old(SpecsOf(rules)), allowGroupCreation, rx)
    {
      ghost var specs := SpecsOf(rules);
      ghost var goal := ImportAll(Run(Snapshot(), added0), paths, 0, specs, allowGroupCreation, rx);
      added := added0;
      var i := 0;
      while i < |paths|
        invariant 0 <= i <= |paths|
        invariant NoNullGroups(groups)
        invariant forall k :: 0 <= k < |rules| ==> rules[k].Spec() == specs[k]
        invariant ImportAll(Run(Snapshot(), added), paths, i, specs, allowGroupCreation, rx) == goal
      {
        SpecsOfAgree(rules, specs);
        ghost var run := Run(Snapshot(), added);
        assert RulesTerminate(specs, paths[i], rx);
        added := ApplyRulesTo(rules, paths[i], added, allowGroupCreation, rx);
        assert Run(Snapshot(), added) == ApplyRules(run, specs, 0, paths[i], allowGroupCreation, rx);
        assert ImportAll(run, paths, i, specs, allowGroupCreation, rx) ==
               ImportAll(Run(Snapshot(), added), paths, i + 1, specs, allowGroupCreation, rx);
        i := i + 1;
      }
    }

    /** FindMissingAssetEntry: the group's entries whose asset is gone are removed. */
    method FindMissingAssetEntry(group: Group)
      modifies this`entries
      ensures entries == DropMissing(old(entries), group.name)
    {
      var members := set k | k in entries && entries[k].group == group.name;
      if members == {} {
        forall k | k in entries
          ensures entries[k].group != group.name
        {
          assert k in members <==> entries[k].group == group.name;
        }
        assert entries == DropMissing(entries, group.name);
        return;
      }
      ghost var e0 := entries;
      while members != {}
        invariant members <= e0.Keys
        invariant forall k :: k in members ==> e0[k].group == group.name
        invariant entries == map k | k in e0 && (k in members || !(e0[k].group == group.name && e0[k].assetPath == [])) :: e0[k]
        decreases members
      {
        var k :| k in members;
        if entries[k].assetPath == [] {
          entries := entries - {k};
        }
        members := members - {k};
      }
    }

    /**
     * RemoveEmptyGroup: every slot is visited in order; a null slot is
     * removed, and a group is removed when, once its missing entries are
     * dropped, it has none left and it is not the default group.
     */
    method RemoveEmptyGroup()
      modifies this`groups, this`entries
      ensures groups == KeptGroups(old(groups), old(entries))
      ensures entries == DropUpTo(old(entries), old(groups), |old(groups)|)
    {
      ghost var e0 := entries;
      var all := groups;
      var kept: seq<Option<Group>> := [];
      var i := 0;
      while i < |all|
        invariant 0 <= i <= |all|
        invariant all == old(groups) && e0 == old(entries)
        invariant entries == DropUpTo(e0, all, i)
        invariant kept == KeptGroups(all[..i], e0)
      {
        var slot := all[i];
        var remove: bool;
        RemovableAfterDrops(slot, e0, all, i);
        if slot.None? {
          remove := true;
        } else {
          FindMissingAssetEntry(slot.value);
          remove := HasNoEntries(entries, slot.value.name) && !slot.value.isDefault;
        }
        assert remove == Removable(slot, e0);
        if !remove {
          kept := kept + [slot];
        }
        assert all[..i + 1][..i] == all[..i];
        i := i + 1;
      }
      assert all[..i] == all;
      groups := kept;
    }

    /**
     * DelectedAddressableAssetEntry: when a story asset is deleted, the first
     * group named after it is removed from the group list.
     */
    method DeleteStoryGroup(assetPath: string)
      requires NoNullGroups(groups)
      modifies this`groups
      ensures NoNullGroups(groups)
      ensures StoryGroupOnDelete(assetPath).None? ==> groups == old(groups)
      ensures StoryGroupOnDelete(assetPath).Some? && FindGroup(old(groups), StoryGroupOnDelete(assetPath).value).Missing? ==>
        groups == old(groups)
      ensures StoryGroupOnDelete(assetPath).Some? && FindGroup(old(groups), StoryGroupOnDelete(assetPath).value).Found? ==>
        exists k :: FirstNamed(old(groups), StoryGroupOnDelete(assetPath).value, k) &&
                    groups == old(groups)[..k] + old(groups)[k + 1..]
    {
      var groupName := StoryGroupOnDelete(assetPath);
      if groupName.Some? {
        var name := groupName.value;
        FindGroupFacts(groups, name);
        var k := 0;
        while k < |groups| && groups[k].value.name != name
          invariant 0 <= k <= |groups|
          invariant forall j :: 0 <= j < k ==> groups[j].value.name != name
        {
          k := k + 1;
        }
        if k < |groups| {
          assert FirstNamed(groups, name, k);
          groups := groups[..k] + groups[k + 1..];
        }
      }
    }

    /**
     * OnPostprocessAllAssets: nothing happens without rules; otherwise the
     * imported assets and then the moved ones go through the rules into one
     * list of reported assets, each deleted asset removes its story group and
     * switches group pruning on, and pruning runs when it is on. Null group
     * slots are excluded, so the loop that would remove them does nothing.
     */
    method OnPostprocess(imported: seq<string>, deleted: Option<seq<string>>, moved: Option<seq<string>>,
                         rules: seq<AddressableImportRule>, allowGroupCreation: bool, removeEmptyGroups: bool,
                         rx: RegexEngine) returns (added: seq<string>, removeEmptyGroups': bool)
      requires NoNullGroups(groups)
      requires forall i :: 0 <= i < |imported| ==> RulesTerminate(SpecsOf(rules), imported[i], rx)
      requires moved.Some? ==> forall i :: 0 <= i < |moved.value| ==> RulesTerminate(SpecsOf(rules), moved.value[i], rx)
      modifies this, rules
      ensures NoNullGroups(groups)
      ensures rules == [] ==> added == [] && removeEmptyGroups' == removeEmptyGroups && Snapshot() == old(Snapshot())
      ensures rules != [] ==> removeEmptyGroups' == (removeEmptyGroups || deleted.Some?)
      ensures rules != [] ==> forall i :: 0 <= i < |imported + moved.GetOr([])| ==>
        RulesTerminate(old(SpecsOf(rules)), (imported + moved.GetOr([]))[i], rx)
      ensures rules != [] ==>
        added == ImportAll(Run(old(Snapshot()), []), imported + moved.GetOr([]), 0, old(SpecsOf(rules)),
                           allowGroupCreation, rx).added
      ensures rules != [] && removeEmptyGroups' ==> forall g :: g in groups ==> !Removable(g, entries)
    {
      added := [];
      removeEmptyGroups' := removeEmptyGroups;
      if rules == [] {
        return;
      }
      ghost var specs := SpecsOf(rules);
      ghost var s0 := Snapshot();
      var paths := moved.GetOr([]);
      ImportAllAppend(Run(s0, []), imported, paths, 0, specs, allowGroupCreation, rx);
      added := ImportAssets(imported, rules, added, allowGroupCreation, rx);
      if moved.Some? {
        SpecsOfAgree(rules, specs);
        added := ImportAssets(moved.value, rules, added, allowGroupCreation, rx);
      }
      if deleted.Some? {
        removeEmptyGroups' := true;
        var i := 0;
        while i < |deleted.value|
          invariant 0 <= i <= |deleted.value|
          invariant NoNullGroups(groups)
          invariant added == ImportAll(Run(s0, []), imported + paths, 0, specs, allowGroupCreation, rx).added
        {
          DeleteStoryGroup(deleted.value[i]);
          i := i + 1;
        }
      }
      if removeEmptyGroups' {
        ghost var g1 := groups;
        ghost var e1 := entries;
        RemoveEmptyGroup();
        PrunedLeavesNothingRemovable(g1, e1);
        KeptGroupsMembers(g1, e1);
      }
    }
  }
}
