/** From the flat view back to a tree, with the upgrade of unset modification policies (configMapToConfig). */
module ConfigRebuild {
  import opened Wrappers
  import opened Paths
  import opened ConfigTree
  import opened ConfigMap

  function Key(kind: Kind, path: string): string {
    Prefix(kind) + path
  }

  lemma KeyRooted(kind: Kind, names: seq<string>)
    ensures Key(kind, Rooted(names)) == FqPath(kind, names)
  {
  }

  lemma StepRooted(kind: Kind, names: seq<string>, name: string)
    ensures Slashed(Rooted(names), name) == Rooted(names + [name])
    ensures Key(kind, Slashed(Rooted(names), name)) == ChildKey(names, kind, name)
  {
    RootedAppend(names, name);
  }

  // ---------- Termination: paths grow, and a finite map has a longest key ----------

  ghost function Longest(keys: set<string>): (n: nat)
    ensures forall s | s in keys :: |s| <= n
  {
    if keys == {} then 0
    else
      var s :| s in keys;
      var rest := Longest(keys - {s});
      assert keys == (keys - {s}) + {s};
      if |s| > rest then |s| else rest
  }

  ghost function Slack(m: FlatMap, path: string): (n: nat)
    ensures Key(GroupKind, path) in m ==> n == Longest(m.Keys) + 1 - |Key(GroupKind, path)| && n > 0
    ensures Key(GroupKind, path) !in m ==> n == 0
  {
    if Key(GroupKind, path) in m then
      assert Key(GroupKind, path) in m.Keys;
      Longest(m.Keys) + 1 - |Key(GroupKind, path)|
    else 0
  }

  lemma SlackShrinks(m: FlatMap, path: string)
    requires Key(GroupKind, path) in m
    ensures forall k: string :: Slack(m, Slashed(path, k)) < Slack(m, path)
  {
  }

  // ---------- Upgrade of unset modification policies ----------

  function UpgradedModPolicy(upgrade: bool, modPolicy: string): string {
    if upgrade && modPolicy == "" then NEW_MOD_POLICY else modPolicy
  }

  function UpgradedValue(upgrade: bool, v: ConfigValue): ConfigValue {
    v.(modPolicy := UpgradedModPolicy(upgrade, v.modPolicy))
  }

  function UpgradedPolicy(upgrade: bool, p: ConfigPolicy): ConfigPolicy {
    p.(modPolicy := UpgradedModPolicy(upgrade, p.modPolicy))
  }

  function UpgradedElement(upgrade: bool, e: Element): Element {
    e.(modPolicy := UpgradedModPolicy(upgrade, e.modPolicy))
  }

  /** The whole tree with "Admins" wherever no modification policy is set. */
  function Upgraded(upgrade: bool, g: ConfigGroup): ConfigGroup
    decreases g
  {
    ConfigGroup(g.version,
                map k | k in g.groups :: Upgraded(upgrade, g.groups[k]),
                UpgradedValues(upgrade, g.values),
                UpgradedPolicies(upgrade, g.policies),
                UpgradedModPolicy(upgrade, g.modPolicy))
  }

  // ---------- Rebuilding ----------

  predicate HasValue(m: FlatMap, path: string) {
    path in m && m[path].node.ValueNode?
  }

  predicate HasPolicy(m: FlatMap, path: string) {
    path in m && m[path].node.PolicyNode?
  }

  predicate HasGroup(m: FlatMap, path: string) {
    path in m && m[path].node.GroupNode?
  }

  predicate NeedsUpgrade(m: FlatMap) {
    ORDERER_CAPABILITIES in m
  }

  predicate ValuesPresent(m: FlatMap, path: string, names: set<string>) {
    forall k | k in names :: HasValue(m, Key(ValueKind, Slashed(path, k)))
  }

  predicate PoliciesPresent(m: FlatMap, path: string, names: set<string>) {
    forall k | k in names :: HasPolicy(m, Key(PolicyKind, Slashed(path, k)))
  }

  function ValuesAt(m: FlatMap, path: string, names: set<string>): (r: map<string, ConfigValue>)
    requires ValuesPresent(m, path, names)
    ensures r.Keys == names
  {
    map k | k in names :: m[Key(ValueKind, Slashed(path, k))].node.value
  }

  function PoliciesAt(m: FlatMap, path: string, names: set<string>): (r: map<string, ConfigPolicy>)
    requires PoliciesPresent(m, path, names)
    ensures r.Keys == names
  {
    map k | k in names :: m[Key(PolicyKind, Slashed(path, k))].node.policy
  }

  function UpgradedValues(upgrade: bool, values: map<string, ConfigValue>): (r: map<string, ConfigValue>)
    ensures r.Keys == values.Keys
  {
    map k | k in values :: UpgradedValue(upgrade, values[k])
  }

  function UpgradedPolicies(upgrade: bool, policies: map<string, ConfigPolicy>): (r: map<string, ConfigPolicy>)
    ensures r.Keys == policies.Keys
  {
    map k | k in policies :: UpgradedPolicy(upgrade, policies[k])
  }

  /** The result once all children are known. */
  function Assemble(m: FlatMap, path: string, g: ConfigGroup, groups: map<string, ConfigGroup>): ConfigGroup
    requires ValuesPresent(m, path, g.values.Keys) && PoliciesPresent(m, path, g.policies.Keys)
  {
    ConfigGroup(
      g.version,
      groups,
      UpgradedValues(NeedsUpgrade(m), ValuesAt(m, path, g.values.Keys)),
      UpgradedPolicies(NeedsUpgrade(m), PoliciesAt(m, path, g.policies.Keys)),
      UpgradedModPolicy(NeedsUpgrade(m), g.modPolicy))
  }

  /** The group at a path, assembled from the entries its names lead to; None when one is missing. */
  function Rebuild(m: FlatMap, path: string): Option<ConfigGroup>
    decreases Slack(m, path)
  {
    if !HasGroup(m, Key(GroupKind, path)) then None
    else
      SlackShrinks(m, path);
      var g := m[Key(GroupKind, path)].node.group;
      if exists k | k in g.groups :: Rebuild(m, Slashed(path, k)).None? then None
      else if !ValuesPresent(m, path, g.values.Keys) || !PoliciesPresent(m, path, g.policies.Keys) then None
      else
        Some(Assemble(m, path, g, map k | k in g.groups :: Rebuild(m, Slashed(path, k)).value))
  }

  lemma RebuildSome(m: FlatMap, path: string, groups: map<string, ConfigGroup>)
    requires HasGroup(m, Key(GroupKind, path))
    requires var g := m[Key(GroupKind, path)].node.group;
             && groups.Keys == g.groups.Keys
             && (forall k | k in g.groups :: Rebuild(m, Slashed(path, k)) == Some(groups[k]))
             && ValuesPresent(m, path, g.values.Keys) && PoliciesPresent(m, path, g.policies.Keys)
    ensures Rebuild(m, path) == Some(Assemble(m, path, m[Key(GroupKind, path)].node.group, groups))
  {
    hide Key, Slashed, Slack, HasValue, HasPolicy, ValuesAt, PoliciesAt, ValuesPresent, PoliciesPresent, UpgradedValues,
         UpgradedPolicies;
    var g := m[Key(GroupKind, path)].node.group;
    var r := Rebuild(m, path);
    assert r.Some?;
    assert r.value.groups == groups;
  }

  lemma NothingUpgraded(values: map<string, ConfigValue>, policies: map<string, ConfigPolicy>, modPolicy: string)
    ensures UpgradedValues(false, values) == values
    ensures UpgradedPolicies(false, policies) == policies
    ensures UpgradedModPolicy(false, modPolicy) == modPolicy
  {
  }

  lemma RebuildNone(m: FlatMap, path: string)
    requires HasGroup(m, Key(GroupKind, path))
    requires var g := m[Key(GroupKind, path)].node.group;
             || (exists k :: k in g.groups && Rebuild(m, Slashed(path, k)).None?)
             || !ValuesPresent(m, path, g.values.Keys) || !PoliciesPresent(m, path, g.policies.Keys)
    ensures Rebuild(m, path).None?
  {
    hide Key, Slashed, Slack, HasValue, HasPolicy, ValuesAt, PoliciesAt, ValuesPresent, PoliciesPresent, UpgradedValues,
         UpgradedPolicies;
  }

  /** recurseConfigMap: copies the group, overwrites its children in place, then fills in unset policies. */
  method RecurseConfigMap(path: string, configMap: FlatMap) returns (r: Option<ConfigGroup>)
    ensures r == Rebuild(configMap, path)
    decreases Slack(configMap, path), 1
  {
    var groupPath := Key(GroupKind, path);
    if groupPath !in configMap || !configMap[groupPath].node.GroupNode? {
      return None;
    }
    hide Rebuild, Key, Slashed, Slack, ValuesPresent, PoliciesPresent, ValuesAt, PoliciesAt, UpgradedValues,
         UpgradedPolicies, UpgradedModPolicy;
    var group := configMap[groupPath].node.group;
    var groups := RebuildGroups(path, configMap, group);
    var values := CopyValues(path, configMap, group);
    var policies := CopyPolicies(path, configMap, group);
    if groups.None? || values.None? || policies.None? {
      RebuildNone(configMap, path);
      return None;
    }
    RebuildSome(configMap, path, groups.value);
    var newConfigGroup := group.(groups := groups.value, values := values.value, policies := policies.value);
    if ORDERER_CAPABILITIES in configMap {
      newConfigGroup := UpgradeEmpty(newConfigGroup);
    } else {
      NothingUpgraded(newConfigGroup.values, newConfigGroup.policies, newConfigGroup.modPolicy);
    }
    return Some(newConfigGroup);
  }

  /** The loop over the child groups. */
  method RebuildGroups(path: string, configMap: FlatMap, group: ConfigGroup)
    returns (r: Option<map<string, ConfigGroup>>)
    requires HasGroup(configMap, Key(GroupKind, path))
    ensures r.None? ==> exists k :: k in group.groups && Rebuild(configMap, Slashed(path, k)).None?
    ensures r.Some? ==> && r.value.Keys == group.groups.Keys
                        && forall k | k in group.groups :: Rebuild(configMap, Slashed(path, k)) == Some(r.value[k])
    decreases Slack(configMap, path), 0
  {
    hide Rebuild, Key, Slashed, Slack, Longest;
    SlackShrinks(configMap, path);
    var groups := group.groups;
    var todo := group.groups.Keys;
    while todo != {}
      invariant todo <= group.groups.Keys == groups.Keys
      invariant forall k | k in group.groups && k !in todo :: Rebuild(configMap, Slashed(path, k)) == Some(groups[k])
    {
      var key :| key in todo;
      var updatedGroup := RecurseConfigMap(Slashed(path, key), configMap);
      if updatedGroup.None? {
        return None;
      }
      groups := groups[key := updatedGroup.value];
      todo := todo - {key};
    }
    return Some(groups);
  }

  method CopyValues(path: string, configMap: FlatMap, group: ConfigGroup) returns (r: Option<map<string, ConfigValue>>)
    ensures r == if !ValuesPresent(configMap, path, group.values.Keys) then None
                 else Some(ValuesAt(configMap, path, group.values.Keys))
  {
    var values := group.values;
    var todo := group.values.Keys;
    while todo != {}
      invariant todo <= group.values.Keys == values.Keys
      invariant forall k | k in group.values && k !in todo ::
                  && HasValue(configMap, Key(ValueKind, Slashed(path, k)))
                  && values[k] == configMap[Key(ValueKind, Slashed(path, k))].node.value
    {
      var key :| key in todo;
      var valuePath := Key(ValueKind, Slashed(path, key));
      if valuePath !in configMap || !configMap[valuePath].node.ValueNode? {
        return None;
      }
      values := values[key := configMap[valuePath].node.value];
      todo := todo - {key};
    }
    assert values == ValuesAt(configMap, path, group.values.Keys);
    return Some(values);
  }

  method CopyPolicies(path: string, configMap: FlatMap, group: ConfigGroup)
    returns (r: Option<map<string, ConfigPolicy>>)
    ensures r == if !PoliciesPresent(configMap, path, group.policies.Keys) then None
                 else Some(PoliciesAt(configMap, path, group.policies.Keys))
  {
    var policies := group.policies;
    var todo := group.policies.Keys;
    while todo != {}
      invariant todo <= group.policies.Keys == policies.Keys
      invariant forall k | k in group.policies && k !in todo ::
                  && HasPolicy(configMap, Key(PolicyKind, Slashed(path, k)))
                  && policies[k] == configMap[Key(PolicyKind, Slashed(path, k))].node.policy
    {
      var key :| key in todo;
      var policyPath := Key(PolicyKind, Slashed(path, key));
      if policyPath !in configMap || !configMap[policyPath].node.PolicyNode? {
        return None;
      }
      policies := policies[key := configMap[policyPath].node.policy];
      todo := todo - {key};
    }
    assert policies == PoliciesAt(configMap, path, group.policies.Keys);
    return Some(policies);
  }

  /** Sets every unset modification policy of the group, its values and its policies. */
  method UpgradeEmpty(group: ConfigGroup) returns (r: ConfigGroup)
    ensures r == group.(modPolicy := UpgradedModPolicy(true, group.modPolicy),
                        values := UpgradedValues(true, group.values),
                        policies := UpgradedPolicies(true, group.policies))
  {
    r := group;
    if r.modPolicy == "" {
      r := r.(modPolicy := NEW_MOD_POLICY);
    }
    var values := UpgradeEmptyValues(r.values);
    var policies := UpgradeEmptyPolicies(r.policies);
    r := r.(values := values, policies := policies);
  }

  method UpgradeEmptyValues(values: map<string, ConfigValue>) returns (r: map<string, ConfigValue>)
    ensures r == UpgradedValues(true, values)
  {
    r := values;
    var todo := values.Keys;
    while todo != {}
      invariant todo <= values.Keys == r.Keys
      invariant forall k | k in values ::
                  r[k] == if k in todo then values[k] else UpgradedValue(true, values[k])
    {
      var key :| key in todo;
      if r[key].modPolicy == "" {
        r := r[key := r[key].(modPolicy := NEW_MOD_POLICY)];
      }
      todo := todo - {key};
    }
  }

  method UpgradeEmptyPolicies(policies: map<string, ConfigPolicy>) returns (r: map<string, ConfigPolicy>)
    ensures r == UpgradedPolicies(true, policies)
  {
    r := policies;
    var todo := policies.Keys;
    while todo != {}
      invariant todo <= policies.Keys == r.Keys
      invariant forall k | k in policies ::
                  r[k] == if k in todo then policies[k] else UpgradedPolicy(true, policies[k])
    {
      var key :| key in todo;
      if r[key].modPolicy == "" {
        r := r[key := r[key].(modPolicy := NEW_MOD_POLICY)];
      }
      todo := todo - {key};
    }
  }

  // ---------- Round trip ----------

  /** A map holding a tree's flattening rebuilds to that tree, upgraded if the capabilities key is there. */
  lemma {:induction false} RebuildFlattened(m: FlatMap, base: seq<string>, g: ConfigGroup)
    requires base != [] && AllSlashFree(base) && ValidNames(g)
    requires SubMap(Flatten(base, g), m)
    ensures Rebuild(m, Rooted(base)) == Some(Upgraded(NeedsUpgrade(m), g))
    decreases g
  {
    hide Flatten, Rooted, FqPath, ChildKey, Key, Slashed, Rebuild, ValuesPresent, PoliciesPresent, ValuesAt, PoliciesAt;
    KeyRooted(GroupKind, base);
    OwnEntry(base, g);
    forall k | k in g.groups
      ensures Rebuild(m, Slashed(Rooted(base), k)) == Some(Upgraded(NeedsUpgrade(m), g.groups[k]))
    {
      ChildSubMap(base, g, k);
      RebuildFlattened(m, base + [k], g.groups[k]);
      StepRooted(GroupKind, base, k);
    }
    FlattenedLeaves(m, base, g);
    RebuildSome(m, Rooted(base), Upgraded(NeedsUpgrade(m), g).groups);
  }

  lemma FlattenedLeaves(m: FlatMap, base: seq<string>, g: ConfigGroup)
    requires base != [] && AllSlashFree(base) && ValidNames(g)
    requires SubMap(Flatten(base, g), m)
    ensures ValuesPresent(m, Rooted(base), g.values.Keys) && ValuesAt(m, Rooted(base), g.values.Keys) == g.values
    ensures PoliciesPresent(m, Rooted(base), g.policies.Keys)
    ensures PoliciesAt(m, Rooted(base), g.policies.Keys) == g.policies
  {
    hide Flatten, Rooted, FqPath, ChildKey, Key, Slashed;
    forall k | k in g.values
      ensures HasValue(m, Key(ValueKind, Slashed(Rooted(base), k)))
      ensures m[Key(ValueKind, Slashed(Rooted(base), k))].node.value == g.values[k]
    {
      LeafEntry(base, g, ValueKind, k);
      StepRooted(ValueKind, base, k);
    }
    forall k | k in g.policies
      ensures HasPolicy(m, Key(PolicyKind, Slashed(Rooted(base), k)))
      ensures m[Key(PolicyKind, Slashed(Rooted(base), k))].node.policy == g.policies[k]
    {
      LeafEntry(base, g, PolicyKind, k);
      StepRooted(PolicyKind, base, k);
    }
  }

  lemma {:induction false} UpgradedFalse(g: ConfigGroup)
    ensures Upgraded(false, g) == g
    decreases g
  {
    NothingUpgraded(g.values, g.policies, g.modPolicy);
    forall k | k in g.groups
      ensures Upgraded(false, g.groups[k]) == g.groups[k]
    {
      UpgradedFalse(g.groups[k]);
    }
    assert Upgraded(false, g).groups == g.groups;
  }

  /** Where the orderer capabilities value sits in the tree. */
  predicate HasCapabilities(root: string, g: ConfigGroup) {
    root == "Channel" && Present(g, Address(ValueKind, ["Orderer", "Capabilities"]))
  }

  lemma RootedThree(a: string, b: string, c: string)
    ensures Rooted([a, b, c]) == "/" + a + "/" + b + "/" + c
  {
    RootedAppend([], a);
    RootedAppend([a], b);
    RootedAppend([a, b], c);
    assert [] + [a] == [a] && [a] + [b] == [a, b] && [a, b] + [c] == [a, b, c];
  }

  lemma CapabilitiesKey()
    ensures ORDERER_CAPABILITIES == FqPath(ValueKind, ["Channel", "Orderer", "Capabilities"])
    ensures AllSlashFree(["Channel", "Orderer", "Capabilities"])
  {
    hide Rooted;
    RootedThree("Channel", "Orderer", "Capabilities");
    assert VALUE_PREFIX + ("/" + "Channel" + "/" + "Orderer" + "/" + "Capabilities") == ORDERER_CAPABILITIES;
    hide FqPath;
    assert SlashFree("Channel") && SlashFree("Orderer") && SlashFree("Capabilities");
  }

  lemma CapabilitiesIff(root: string, g: ConfigGroup)
    requires SlashFree(root) && ValidNames(g)
    ensures NeedsUpgrade(Flatten([root], g)) <==> HasCapabilities(root, g)
  {
    hide Flatten, FqPath, ValidNames, ValidConfigID;
    CapabilitiesKey();
    var names := ["Channel", "Orderer", "Capabilities"];
    if HasCapabilities(root, g) {
      FlattenHas([root], g, Address(ValueKind, ["Orderer", "Capabilities"]));
      assert [root] + ["Orderer", "Capabilities"] == names;
    }
    if NeedsUpgrade(Flatten([root], g)) {
      var a := FlattenFrom([root], g, ORDERER_CAPABILITIES);
      AddressNamesValid(g, a);
      FqPathInjective(a.kind, [root] + a.names, ValueKind, names);
      assert a.names == ([root] + a.names)[1..] == ["Orderer", "Capabilities"];
      assert root == ([root] + a.names)[0];
    }
  }

  /** No element of the tree is left without a modification policy. */
  predicate AllModPoliciesSet(g: ConfigGroup)
    decreases g
  {
    && g.modPolicy != ""
    && (forall k | k in g.groups :: AllModPoliciesSet(g.groups[k]))
    && (forall k | k in g.values :: g.values[k].modPolicy != "")
    && (forall k | k in g.policies :: g.policies[k].modPolicy != "")
  }

  lemma {:induction false} UpgradedLeavesNoneEmpty(g: ConfigGroup)
    ensures AllModPoliciesSet(Upgraded(true, g))
    decreases g
  {
    forall k | k in g.groups
      ensures AllModPoliciesSet(Upgraded(true, g.groups[k]))
    {
      UpgradedLeavesNoneEmpty(g.groups[k]);
    }
  }

  /** configMapToConfig */
  function ConfigMapToConfig(m: FlatMap, rootGroupKey: string): Option<ConfigGroup> {
    Rebuild(m, "/" + rootGroupKey)
  }

  /** Flattening and rebuilding gives the tree back, up to the upgrade of unset modification policies. */
  lemma RoundTrip(root: string, g: ConfigGroup)
    requires ValidConfigID(root) && ValidNames(g)
    ensures MapOf(Some(g), root).Some?
    ensures ConfigMapToConfig(MapOf(Some(g), root).value, root)
            == Some(if HasCapabilities(root, g) then Upgraded(true, g) else g)
    ensures HasCapabilities(root, g) ==> AllModPoliciesSet(Upgraded(true, g))
  {
    hide Flatten, Rebuild, Upgraded, ValidConfigID;
    ValidConfigIDIff(root);
    RebuildFlattened(Flatten([root], g), [root], g);
    assert Rooted([root]) == "/" + root;
    CapabilitiesIff(root, g);
    UpgradedFalse(g);
    UpgradedLeavesNoneEmpty(g);
  }

  // ---------- Maps that always rebuild ----------

  /** The prefix of a key tells what it holds. */
  ghost predicate WellKinded(m: FlatMap) {
    forall kind, names {:trigger FqPath(kind, names)} ::
      FqPath(kind, names) in m ==> m[FqPath(kind, names)].node.Kind() == kind
  }

  /** Every child that a group names is there. */
  ghost predicate Closed(m: FlatMap) {
    forall names, kind, k {:trigger ChildKey(names, kind, k)} ::
      HasGroup(m, FqPath(GroupKind, names)) && Lists(m[FqPath(GroupKind, names)].node.group, kind, k)
      ==> ChildKey(names, kind, k) in m
  }

  lemma FlattenWellKinded(base: seq<string>, g: ConfigGroup)
    requires base != [] && AllSlashFree(base) && ValidNames(g)
    ensures WellKinded(Flatten(base, g))
  {
    hide Flatten;
    var m := Flatten(base, g);
    forall kind, names | FqPath(kind, names) in m
      ensures m[FqPath(kind, names)].node.Kind() == kind
    {
      var a := FlattenFrom(base, g, FqPath(kind, names));
      FqPathKind(kind, names, a.kind, base + a.names);
    }
  }

  lemma FlattenClosed(base: seq<string>, g: ConfigGroup)
    requires base != [] && AllSlashFree(base) && ValidNames(g)
    ensures Closed(Flatten(base, g))
  {
    hide Flatten, FqPath;
    var m := Flatten(base, g);
    forall names, kind, k | HasGroup(m, FqPath(GroupKind, names)) && Lists(m[FqPath(GroupKind, names)].node.group, kind,
                                                                           k)
      ensures ChildKey(names, kind, k) in m
    {
      var a := FlattenFrom(base, g, FqPath(GroupKind, names));
      FqPathKind(GroupKind, names, a.kind, base + a.names);
      AtChild(g, a.names, kind, k);
      FlattenHas(base, g, Child(a.names, kind, k));
      assert base + (a.names + [k]) == base + a.names + [k];
      SameChildKey(names, base + a.names, kind, k);
    }
  }

  lemma SameChildKey(a: seq<string>, b: seq<string>, kind: Kind, k: string)
    requires Rooted(a) == Rooted(b)
    ensures ChildKey(a, kind, k) == FqPath(kind, b + [k])
  {
    FqPathAppend(kind, a, k);
    FqPathAppend(kind, b, k);
  }

  /** Rebuilding such a map never fails. */
  lemma {:induction false} RebuildSucceeds(m: FlatMap, names: seq<string>)
    requires WellKinded(m) && Closed(m) && FqPath(GroupKind, names) in m
    ensures Rebuild(m, Rooted(names)).Some?
    decreases Slack(m, Rooted(names))
  {
    var path := Rooted(names);
    KeyRooted(GroupKind, names);
    SlackShrinks(m, path);
    hide Rebuild, Slack, Rooted, FqPath, ChildKey, Key, Slashed;
    var g := m[FqPath(GroupKind, names)].node.group;
    forall k | k in g.groups
      ensures Rebuild(m, Slashed(path, k)).Some?
    {
      StepRooted(GroupKind, names, k);
      KeyRooted(GroupKind, names + [k]);
      RebuildSucceeds(m, names + [k]);
    }
    ClosedLeaves(m, names);
    RebuildSome(m, path, map k | k in g.groups :: Rebuild(m, Slashed(path, k)).value);
  }

  lemma ClosedLeaves(m: FlatMap, names: seq<string>)
    requires WellKinded(m) && Closed(m) && HasGroup(m, FqPath(GroupKind, names))
    ensures var g := m[FqPath(GroupKind, names)].node.group;
            ValuesPresent(m, Rooted(names), g.values.Keys) && PoliciesPresent(m, Rooted(names), g.policies.Keys)
  {
    hide Rooted, FqPath, ChildKey, Key, Slashed;
    var g := m[FqPath(GroupKind, names)].node.group;
    forall k | k in g.values
      ensures HasValue(m, Key(ValueKind, Slashed(Rooted(names), k)))
    {
      StepRooted(ValueKind, names, k);
      KeyRooted(ValueKind, names + [k]);
    }
    forall k | k in g.policies
      ensures HasPolicy(m, Key(PolicyKind, Slashed(Rooted(names), k)))
    {
      StepRooted(PolicyKind, names, k);
      KeyRooted(PolicyKind, names + [k]);
    }
  }

  /** What a successful result was assembled from. */
  lemma RebuildParts(m: FlatMap, path: string)
    requires Rebuild(m, path).Some?
    ensures HasGroup(m, Key(GroupKind, path))
    ensures var r, g := Rebuild(m, path).value, m[Key(GroupKind, path)].node.group;
            && ValuesPresent(m, path, g.values.Keys) && PoliciesPresent(m, path, g.policies.Keys)
            && r == Assemble(m, path, g, r.groups)
            && r.groups.Keys == g.groups.Keys
            && forall k | k in g.groups :: Rebuild(m, Slashed(path, k)) == Some(r.groups[k])
  {
    hide Key, Slashed, Slack, HasValue, HasPolicy, ValuesAt, PoliciesAt, ValuesPresent, PoliciesPresent, UpgradedValues,
         UpgradedPolicies;
  }

  lemma AssembleOwn(m: FlatMap, path: string, g: ConfigGroup, groups: map<string, ConfigGroup>)
    requires ValuesPresent(m, path, g.values.Keys) && PoliciesPresent(m, path, g.policies.Keys)
    requires groups.Keys == g.groups.Keys
    ensures Own(GroupNode(Assemble(m, path, g, groups))) == UpgradedElement(NeedsUpgrade(m), Own(GroupNode(g)))
  {
    hide Key, Slashed, ValuesPresent, PoliciesPresent, ValuesAt, PoliciesAt, UpgradedValues, UpgradedPolicies,
         NeedsUpgrade;
  }

  /** Every element of a rebuilt tree is the map's entry at its place, up to the upgrade. */
  lemma {:induction false} RebuildAt(m: FlatMap, names: seq<string>, a: Address)
    requires Rebuild(m, Rooted(names)).Some?
    requires Present(Rebuild(m, Rooted(names)).value, a)
    ensures var key := FqPath(a.kind, names + a.names);
            && key in m
            && m[key].node.Kind() == a.kind
            && OwnAt(Rebuild(m, Rooted(names)).value, a) == Some(UpgradedElement(NeedsUpgrade(m), Own(m[key].node)))
    decreases a.names
  {
    hide Rebuild, Rooted, FqPath, Key, Slashed;
    var path, r := Rooted(names), Rebuild(m, Rooted(names)).value;
    KeyRooted(GroupKind, names);
    RebuildParts(m, path);
    var g := m[FqPath(GroupKind, names)].node.group;
    if a.names == [] {
      assert names + a.names == names;
      AssembleOwn(m, path, g, r.groups);
    } else {
      var k, rest := a.names[0], Address(a.kind, a.names[1..]);
      StepRooted(a.kind, names, k);
      if |a.names| == 1 && !a.kind.GroupKind? {
        assert a.names == [k];
      } else {
        assert names + a.names == names + [k] + rest.names;
        RebuildAt(m, names + [k], rest);
      }
    }
  }
}
