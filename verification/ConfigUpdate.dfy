/** Authorisation of configuration updates (common/configtx/update.go). */
module ConfigUpdate {
  import opened Wrappers
  import opened Paths
  import opened ConfigTree
  import opened ConfigMap
  import opened ConfigRebuild
  import opened PolicyManager

  /** An unmarshalled ConfigUpdate. */
  datatype Update = Update(channelId: string, readSet: Option<ConfigGroup>, writeSet: Option<ConfigGroup>)

  /** A ConfigUpdateEnvelope: None stands for bytes that do not unmarshal. S is the type of signature sets. */
  datatype UpdateEnvelope<S> = UpdateEnvelope(update: Option<Update>, signedData: Option<S>)

  /** ValidatorImpl. The policies of type P are evaluated by a given function. */
  datatype Validator<!P, !S> = Validator(
    channelID: string,
    sequence: uint64,
    configMap: FlatMap,
    config: ConfigGroup,
    namespace: string,
    pm: Manager<P>,
    evaluate: (P, S) -> bool)
  {
    /** What NewValidatorImpl establishes. */
    ghost predicate Valid() {
      && ValidConfigID(namespace)
      && ValidNames(config)
      && SlashFree(namespace)
      && configMap == Flatten([namespace], config)
    }
  }

  // ---------- The checks ----------

  predicate VerifyReadSet(configMap: FlatMap, readSet: FlatMap) {
    forall key | key in readSet :: key in configMap && configMap[key].node.Version() == readSet[key].node.Version()
  }

  predicate InDelta(readSet: FlatMap, writeSet: FlatMap, key: string) {
    key in writeSet && !(key in readSet && readSet[key].node.Version() == writeSet[key].node.Version())
  }

  function DeltaSet(readSet: FlatMap, writeSet: FlatMap): FlatMap {
    map key | key in writeSet && InDelta(readSet, writeSet, key) :: writeSet[key]
  }

  method ComputeDeltaSet(readSet: FlatMap, writeSet: FlatMap) returns (result: FlatMap)
    ensures result == DeltaSet(readSet, writeSet)
  {
    result := map[];
    var todo := writeSet.Keys;
    while todo != {}
      invariant todo <= writeSet.Keys
      invariant forall s :: s in result <==> s in writeSet && s !in todo && InDelta(readSet, writeSet, s)
      invariant forall s | s in result :: result[s] == writeSet[s]
    {
      var key :| key in todo;
      todo := todo - {key};
      if key in readSet && readSet[key].node.Version() == writeSet[key].node.Version() {
        continue;
      }
      result := result[key := writeSet[key]];
    }
  }

  method ComputeUpdateResult(configMap: FlatMap, updatedConfig: FlatMap) returns (newConfigMap: FlatMap)
    ensures newConfigMap == configMap + updatedConfig
  {
    newConfigMap := map[];
    var todo := configMap.Keys;
    while todo != {}
      invariant todo <= configMap.Keys && newConfigMap.Keys == configMap.Keys - todo
      invariant forall s | s in newConfigMap :: newConfigMap[s] == configMap[s]
    {
      var key :| key in todo;
      newConfigMap := newConfigMap[key := configMap[key]];
      todo := todo - {key};
    }
    todo := updatedConfig.Keys;
    while todo != {}
      invariant todo <= updatedConfig.Keys && newConfigMap.Keys == configMap.Keys + (updatedConfig.Keys - todo)
      invariant forall s | s in newConfigMap ::
                  newConfigMap[s] == if s in updatedConfig && s !in todo then updatedConfig[s] else configMap[s]
    {
      var key :| key in todo;
      newConfigMap := newConfigMap[key := updatedConfig[key]];
      todo := todo - {key};
    }
  }

  predicate ValidModPolicy(modPolicy: string) {
    if modPolicy == "" then false
    else
      var trimmed := if modPolicy[0] == '/' then modPolicy[1..] else modPolicy;
      forall name | name in Split(trimmed, '/') :: ValidConfigID(name)
  }

  /** The policy that guards an element: relative names start at the manager of the element's group. */
  function PolicyForItem<P, S>(v: Validator<P, S>, item: Item): Lookup<P> {
    var modPolicy := item.node.ModPolicy();
    if |modPolicy| > 0 && modPolicy[0] != '/' && |item.path| != 0 then
      var manager := Walk(v.pm, item.path[1..]);
      if manager.None? then Rejected
      else if item.node.GroupNode? then
        var own := Walk(manager.value, [item.key]);
        if own.None? then Rejected else GetPolicy(own.value, modPolicy)
      else GetPolicy(manager.value, modPolicy)
    else GetPolicy(v.pm, modPolicy)
  }

  /** The existing element's own policy accepts the signatures. */
  predicate PolicySatisfied<P, S>(v: Validator<P, S>, item: Item, signedData: S) {
    var policy := PolicyForItem(v, item);
    policy.Found? && v.evaluate(policy.policy, signedData)
  }

  predicate VerifyDelta<P, S>(v: Validator<P, S>, key: string, value: Item, signedData: S) {
    && ValidModPolicy(value.node.ModPolicy())
    && if key !in v.configMap then value.node.Version() == 0
       else
         && value.node.Version() == Successor(v.configMap[key].node.Version())
         && PolicySatisfied(v, v.configMap[key], signedData)
  }

  predicate VerifyDeltaSet<P, S>(v: Validator<P, S>, deltaSet: FlatMap, signedData: S) {
    && |deltaSet| != 0
    && forall key | key in deltaSet :: VerifyDelta(v, key, deltaSet[key], signedData)
  }

  predicate VerifyFullProposedConfig(writeSet: FlatMap, fullProposedConfig: FlatMap) {
    forall key | key in writeSet :: key in fullProposedConfig
  }

  /** The read set, write set and signatures of an update that reaches the delta check. */
  datatype Sets<S> = Sets(read: FlatMap, write: FlatMap, signedData: S)

  function SetsOf<P, S>(v: Validator<P, S>, env: Option<UpdateEnvelope<S>>): Option<Sets<S>> {
    if env.None? || env.value.update.None? || env.value.update.value.channelId != v.channelID then None
    else
      var update := env.value.update.value;
      var readSet := MapOf(update.readSet, v.namespace);
      if readSet.None? || !VerifyReadSet(v.configMap, readSet.value) then None
      else
        var writeSet := MapOf(update.writeSet, v.namespace);
        if writeSet.None? || env.value.signedData.None? then None
        else Some(Sets(readSet.value, writeSet.value, env.value.signedData.value))
  }

  /** authorizeUpdate: the full proposed configuration, or None for an error. */
  function AuthorizeUpdate<P, S>(v: Validator<P, S>, env: Option<UpdateEnvelope<S>>): Option<FlatMap> {
    var sets := SetsOf(v, env);
    if sets.None? then None
    else
      var deltaSet := DeltaSet(sets.value.read, sets.value.write);
      if !VerifyDeltaSet(v, deltaSet, sets.value.signedData) then None
      else
        var fullProposedConfig := v.configMap + deltaSet;
        if !VerifyFullProposedConfig(sets.value.write, fullProposedConfig) then None
        else Some(fullProposedConfig)
  }

  // ---------- The checks as they run ----------

  /** Looking up the policy of the existing element crashes. */
  predicate DeltaPanics<P, S>(v: Validator<P, S>, key: string, value: Item) {
    && ValidModPolicy(value.node.ModPolicy())
    && key in v.configMap
    && value.node.Version() == Successor(v.configMap[key].node.Version())
    && PolicyForItem(v, v.configMap[key]).Panics?
  }

  predicate DeltaRefused<P, S>(v: Validator<P, S>, key: string, value: Item, signedData: S) {
    !VerifyDelta(v, key, value, signedData) && !DeltaPanics(v, key, value)
  }

  datatype Check = Passes | Fails | Crashes

  /** verifyDeltaSet, in whatever order the map is iterated: the first element that is not allowed decides. */
  method CheckDeltaSet<P, S>(v: Validator<P, S>, deltaSet: FlatMap, signedData: S) returns (r: Check)
    ensures r.Passes? <==> VerifyDeltaSet(v, deltaSet, signedData)
    ensures r.Fails? ==>
              |deltaSet| == 0 || exists key :: key in deltaSet && DeltaRefused(v, key, deltaSet[key], signedData)
    ensures r.Crashes? ==> exists key :: key in deltaSet && DeltaPanics(v, key, deltaSet[key])
  {
    hide ValidModPolicy, PolicyForItem;
    if |deltaSet| == 0 {
      return Fails;
    }
    var todo := deltaSet.Keys;
    while todo != {}
      invariant todo <= deltaSet.Keys
      invariant forall key | key in deltaSet && key !in todo :: VerifyDelta(v, key, deltaSet[key], signedData)
    {
      var key :| key in todo;
      todo := todo - {key};
      var value := deltaSet[key];
      if DeltaPanics(v, key, value) {
        return Crashes;
      }
      if !VerifyDelta(v, key, value, signedData) {
        return Fails;
      }
    }
    return Passes;
  }

  /** What authorizeUpdate does: return the full proposed configuration, return an error, or crash. */
  datatype Authorisation = Authorised(full: FlatMap) | Refused | Panicked

  method Authorize<P, S>(v: Validator<P, S>, env: Option<UpdateEnvelope<S>>) returns (r: Authorisation)
    ensures AuthorizeUpdate(v, env) == if r.Authorised? then Some(r.full) else None
    ensures r.Panicked? ==>
              && SetsOf(v, env).Some?
              && var delta := DeltaSet(SetsOf(v, env).value.read, SetsOf(v, env).value.write);
                 exists key :: key in delta && DeltaPanics(v, key, delta[key])
    ensures r.Refused? && SetsOf(v, env).Some? ==>
              var sets := SetsOf(v, env).value;
              var delta := DeltaSet(sets.read, sets.write);
              |delta| == 0 || exists key :: key in delta && DeltaRefused(v, key, delta[key], sets.signedData)
  {
    hide VerifyReadSet, MapOf, VerifyDeltaSet, DeltaPanics, DeltaRefused;
    if env.None? || env.value.update.None? || env.value.update.value.channelId != v.channelID {
      return Refused;
    }
    var update := env.value.update.value;
    var readSet := MapConfig(update.readSet, v.namespace);
    if readSet.None? || !VerifyReadSet(v.configMap, readSet.value) {
      return Refused;
    }
    var writeSet := MapConfig(update.writeSet, v.namespace);
    if writeSet.None? {
      return Refused;
    }
    var deltaSet := ComputeDeltaSet(readSet.value, writeSet.value);
    if env.value.signedData.None? {
      return Refused;
    }
    var checked := CheckDeltaSet(v, deltaSet, env.value.signedData.value);
    if checked.Crashes? {
      return Panicked;
    }
    if checked.Fails? {
      return Refused;
    }
    var fullProposedConfig := ComputeUpdateResult(v.configMap, deltaSet);
    FullConfigVerifies(v.configMap, readSet.value, writeSet.value);
    return Authorised(fullProposedConfig);
  }

  /** The lookup crashes exactly for elements whose mod_policy is the absolute path of the policy manager itself. */
  lemma PolicyPanicsIff<P, S>(v: Validator<P, S>, item: Item)
    ensures PolicyForItem(v, item).Panics? <==> item.node.ModPolicy() == "/" + v.pm.path
  {
    hide GetPolicy;
    var modPolicy := item.node.ModPolicy();
    GetPolicyPanicsIff(v.pm, modPolicy);
    assert ("/" + v.pm.path)[0] == '/';
    if |modPolicy| > 0 && modPolicy[0] != '/' && |item.path| != 0 {
      var manager := Walk(v.pm, item.path[1..]);
      if manager.Some? {
        var asked := if item.node.GroupNode? then Walk(manager.value, [item.key]) else manager;
        if asked.Some? {
          GetPolicyPanicsIff(asked.value, modPolicy);
          assert ("/" + asked.value.path)[0] == '/';
        }
      }
    }
  }

  /** Such an element is never changed again: no update with it in its delta is authorised. */
  lemma PanickingElementStays<P, S>(v: Validator<P, S>, env: Option<UpdateEnvelope<S>>, key: string)
    requires key in v.configMap && v.configMap[key].node.ModPolicy() == "/" + v.pm.path
    requires AuthorizeUpdate(v, env).Some?
    ensures AuthorizeUpdate(v, env).value[key] == v.configMap[key]
  {
    hide PolicyForItem, ValidModPolicy, SetsOf;
    PolicyPanicsIff(v, v.configMap[key]);
    AuthorizeIff(v, env);
  }

  // ---------- Rebuilding the result never fails ----------

  /** The check of the full configuration is implied by the check of the read set. */
  lemma FullConfigVerifies(configMap: FlatMap, readSet: FlatMap, writeSet: FlatMap)
    requires VerifyReadSet(configMap, readSet)
    ensures VerifyFullProposedConfig(writeSet, configMap + DeltaSet(readSet, writeSet))
  {
    forall key | key in writeSet
      ensures key in configMap + DeltaSet(readSet, writeSet)
    {
      if !InDelta(readSet, writeSet, key) {
        assert key in readSet;
      }
    }
  }

  /** authorizeUpdate fails only in its earlier checks. */
  lemma AuthorizeIff<P, S>(v: Validator<P, S>, env: Option<UpdateEnvelope<S>>)
    ensures AuthorizeUpdate(v, env).Some? <==>
            && SetsOf(v, env).Some?
            && var sets := SetsOf(v, env).value;
               VerifyDeltaSet(v, DeltaSet(sets.read, sets.write), sets.signedData)
  {
    if SetsOf(v, env).Some? {
      var sets := SetsOf(v, env).value;
      FullConfigVerifies(v.configMap, sets.read, sets.write);
    }
  }

  /** Laying part of one closed map over another keeps closure when nothing of the first is missing. */
  lemma OverlayClosed(m: FlatMap, w: FlatMap, d: FlatMap)
    requires WellKinded(m) && Closed(m) && WellKinded(w) && Closed(w)
    requires SubMap(d, w) && w.Keys <= (m + d).Keys
    ensures WellKinded(m + d) && Closed(m + d)
  {
    hide FqPath, ChildKey;
    var f := m + d;
    forall kind, names | FqPath(kind, names) in f
      ensures f[FqPath(kind, names)].node.Kind() == kind
    {
    }
    forall names, kind, k | HasGroup(f, FqPath(GroupKind, names)) && Lists(f[FqPath(GroupKind, names)].node.group, kind,
                                                                           k)
      ensures ChildKey(names, kind, k) in f
    {
      var key := FqPath(GroupKind, names);
      if key in d {
        assert HasGroup(w, key) && ChildKey(names, kind, k) in w;
      } else {
        assert HasGroup(m, key) && ChildKey(names, kind, k) in m;
      }
    }
  }

  lemma EmptyCoherent()
    ensures WellKinded(map[]) && Closed(map[])
  {
  }

  lemma MapOfCoherent(g: Option<ConfigGroup>, root: string)
    requires MapOf(g, root).Some?
    ensures WellKinded(MapOf(g, root).value) && Closed(MapOf(g, root).value)
  {
    hide Flatten;
    if g.None? {
      EmptyCoherent();
    } else {
      ValidConfigIDIff(root);
      FlattenWellKinded([root], g.value);
      FlattenClosed([root], g.value);
    }
  }

  lemma FullConfigCoherent<P, S>(v: Validator<P, S>, env: Option<UpdateEnvelope<S>>)
    requires v.Valid() && AuthorizeUpdate(v, env).Some?
    ensures WellKinded(AuthorizeUpdate(v, env).value) && Closed(AuthorizeUpdate(v, env).value)
    ensures FqPath(GroupKind, [v.namespace]) in AuthorizeUpdate(v, env).value
  {
    hide Flatten, WellKinded, Closed, FqPath, ValidModPolicy, VerifyDeltaSet;
    FlattenWellKinded([v.namespace], v.config);
    FlattenClosed([v.namespace], v.config);
    var update, sets := env.value.update.value, SetsOf(v, env).value;
    MapOfCoherent(update.writeSet, v.namespace);
    OverlayClosed(v.configMap, sets.write, DeltaSet(sets.read, sets.write));
    OwnEntry([v.namespace], v.config);
  }

  /** Once an update is authorised, turning the result back into a tree cannot fail. */
  lemma RebuildNeverFails<P, S>(v: Validator<P, S>, env: Option<UpdateEnvelope<S>>)
    requires v.Valid() && AuthorizeUpdate(v, env).Some?
    ensures ConfigMapToConfig(AuthorizeUpdate(v, env).value, v.namespace).Some?
  {
    assert Rooted([v.namespace]) == "/" + v.namespace;
    hide Rebuild, AuthorizeUpdate, WellKinded, Closed, FqPath, Flatten;
    FullConfigCoherent(v, env);
    RebuildSucceeds(AuthorizeUpdate(v, env).value, [v.namespace]);
  }

  // ---------- An update that can always be proposed ----------

  /** The update that raises the version of the root group, gives it a mod_policy, and changes nothing else. */
  function RootUpdate<P, S>(v: Validator<P, S>, modPolicy: string, signedData: S): Option<UpdateEnvelope<S>> {
    Some(UpdateEnvelope(Some(Update(v.channelID, Some(v.config), Some(Raised(v.config, modPolicy)))), Some(signedData)))
  }

  function Raised(g: ConfigGroup, modPolicy: string): ConfigGroup {
    g.(version := Successor(g.version), modPolicy := modPolicy)
  }

  lemma RaisedAt(g: ConfigGroup, modPolicy: string, a: Address)
    ensures var h := Raised(g, modPolicy);
            && (Present(h, a) <==> Present(g, a))
            && (a != Address(GroupKind, []) ==> At(h, a) == At(g, a))
            && (a == Address(GroupKind, []) ==> At(g, a) == Some(GroupNode(g)) && At(h, a) == Some(GroupNode(h)))
  {
  }

  lemma RaisedValid(g: ConfigGroup, modPolicy: string)
    requires ValidNames(g)
    ensures ValidNames(Raised(g, modPolicy))
  {
  }

  lemma RaisedFlatten(base: seq<string>, g: ConfigGroup, modPolicy: string)
    requires base != [] && AllSlashFree(base) && ValidNames(g)
    ensures ValidNames(Raised(g, modPolicy))
    ensures var root, h := FqPath(GroupKind, base), Raised(g, modPolicy);
            && root in Flatten(base, g) && Flatten(base, g)[root] == ItemOf(GroupNode(g), base)
            && DeltaSet(Flatten(base, g), Flatten(base, h)) == map[root := ItemOf(GroupNode(h), base)]
  {
    hide Flatten, FqPath, ValidNames, At, AllSlashFree;
    RaisedValid(g, modPolicy);
    var h, root, top := Raised(g, modPolicy), FqPath(GroupKind, base), Address(GroupKind, []);
    var r, w := Flatten(base, g), Flatten(base, h);
    assert base + [] == base;
    RaisedAt(g, modPolicy, top);
    FlattenHas(base, g, top);
    FlattenHas(base, h, top);
    forall key | key in w && InDelta(r, w, key)
      ensures key == root
    {
      var a := FlattenFrom(base, h, key);
      RaisedAt(g, modPolicy, a);
      FlattenHas(base, g, a);
    }
  }

  /** From every state the root group can be raised exactly when its policy accepts and the new one is well formed. */
  lemma RootUpdateIff<P, S>(v: Validator<P, S>, modPolicy: string, signedData: S)
    requires v.Valid()
    ensures var r, root := AuthorizeUpdate(v, RootUpdate(v, modPolicy, signedData)), FqPath(GroupKind, [v.namespace]);
            && (r.Some? <==>
                  ValidModPolicy(modPolicy)
                    && PolicySatisfied(v, ItemOf(GroupNode(v.config), [v.namespace]), signedData))
            && (r.Some? ==>
                 r.value == v.configMap[root := ItemOf(GroupNode(Raised(v.config, modPolicy)), [v.namespace])])
  {
    hide Flatten, FqPath, ValidNames, ValidModPolicy, PolicySatisfied, DeltaSet;
    var env := RootUpdate(v, modPolicy, signedData);
    RaisedFlatten([v.namespace], v.config, modPolicy);
    AuthorizeIff(v, env);
    assert SetsOf(v, env).Some?;
    var sets := SetsOf(v, env).value;
    var root := FqPath(GroupKind, [v.namespace]);
    assert DeltaSet(sets.read, sets.write) ==
             map[root := ItemOf(GroupNode(Raised(v.config, modPolicy)), [v.namespace])];
  }

  /** The mod_policy that later crashes is accepted like any other. */
  lemma PanickingModPolicyAccepted<P, S>(v: Validator<P, S>, signedData: S)
    requires v.Valid() && ValidConfigID(v.pm.path)
    requires PolicySatisfied(v, ItemOf(GroupNode(v.config), [v.namespace]), signedData)
    ensures AuthorizeUpdate(v, RootUpdate(v, "/" + v.pm.path, signedData)).Some?
  {
    ValidConfigIDIff(v.pm.path);
    assert ("/" + v.pm.path)[1..] == v.pm.path;
    SplitSlashFree(v.pm.path);
    hide Split, ValidConfigID, AuthorizeUpdate, PolicySatisfied;
    RootUpdateIff(v, "/" + v.pm.path, signedData);
  }
}
