/** The channel configuration as a state machine over accepted updates (common/configtx/validator.go). */
module ConfigValidator {
  import opened Wrappers
  import opened Paths
  import opened ConfigTree
  import opened ConfigMap
  import opened ConfigRebuild
  import opened PolicyManager
  import opened ConfigUpdate
  import opened ConfigCoverage

  datatype Config = Config(sequence: uint64, channelGroup: Option<ConfigGroup>)

  /** The last update is None when the envelope does not carry a ConfigUpdateEnvelope. */
  datatype ConfigEnvelope<S> = ConfigEnvelope(config: Option<Config>, lastUpdate: Option<UpdateEnvelope<S>>)

  /** NewValidatorImpl: None for an error. */
  function NewValidator<P, S>(channelID: string, config: Option<Config>, namespace: string, pm: Manager<P>,
                              evaluate: (P, S) -> bool): Option<Validator<P, S>>
  {
    if config.None? || config.value.channelGroup.None? || !ValidChannelID(channelID) then None
    else
      var configMap := MapOf(config.value.channelGroup, namespace);
      if configMap.None? then None
      else Some(Validator(channelID, config.value.sequence, configMap.value,
                          config.value.channelGroup.value, namespace, pm, evaluate))
  }

  function ProposeConfigUpdate<P, S>(v: Validator<P, S>, configtx: Option<UpdateEnvelope<S>>): Option<ConfigEnvelope<S>>
  {
    var configMap := AuthorizeUpdate(v, configtx);
    if configMap.None? then None
    else
      var channelGroup := ConfigMapToConfig(configMap.value, v.namespace);
      if channelGroup.None? then None
      else Some(ConfigEnvelope(Some(Config(Successor(v.sequence), channelGroup)), configtx))
  }

  predicate Validate<P, S>(v: Validator<P, S>, configEnv: Option<ConfigEnvelope<S>>) {
    && configEnv.Some?
    && configEnv.value.config.Some?
    && configEnv.value.config.value.sequence == Successor(v.sequence)
    && var configMap := AuthorizeUpdate(v, configEnv.value.lastUpdate);
       if configMap.None? then false
       else
         var channelGroup := ConfigMapToConfig(configMap.value, v.namespace);
         channelGroup.Some? && channelGroup == configEnv.value.config.value.channelGroup
  }

  /** A validator comes out of the constructor in a consistent state, exactly for valid names. */
  lemma NewValidatorIff<P, S>(channelID: string, config: Option<Config>, namespace: string, pm: Manager<P>,
                              evaluate: (P, S) -> bool)
    ensures var r := NewValidator(channelID, config, namespace, pm, evaluate);
            && (r.Some? <==> && config.Some? && config.value.channelGroup.Some? && ValidChannelID(channelID)
                             && ValidConfigID(namespace) && ValidNames(config.value.channelGroup.value))
            && (r.Some? ==>
                  && r.value.Valid() && r.value.config == config.value.channelGroup.value
                  && r.value.sequence == config.value.sequence && r.value.channelID == channelID
                  && r.value.namespace == namespace && r.value.pm == pm && r.value.evaluate == evaluate)
  {
    hide Flatten, ValidNames, ValidConfigID, ValidChannelID;
    ValidConfigIDIff(namespace);
  }

  /** A proposal exists exactly when the update is authorised, and it is then the one envelope that validates. */
  lemma ProposalIsWhatValidates<P, S>(v: Validator<P, S>, configtx: Option<UpdateEnvelope<S>>)
    requires v.Valid()
    ensures ProposeConfigUpdate(v, configtx).Some? <==> AuthorizeUpdate(v, configtx).Some?
    ensures ProposeConfigUpdate(v, configtx).Some? ==> Validate(v, ProposeConfigUpdate(v, configtx))
    ensures forall e: ConfigEnvelope<S> | e.lastUpdate == configtx && Validate(v, Some(e)) ::
              ProposeConfigUpdate(v, configtx) == Some(e)
  {
    hide AuthorizeUpdate, ConfigMapToConfig, Flatten;
    if AuthorizeUpdate(v, configtx).Some? {
      RebuildNeverFails(v, configtx);
    }
  }

  // ---------- The new tree can be the next state ----------

  predicate NamesValid(e: Element) {
    e.GroupElement? ==>
      forall k | k in e.groupNames + e.valueNames + e.policyNames :: ValidConfigID(k)
  }

  lemma {:induction false} ValidNamesFromElements(g: ConfigGroup)
    requires forall a :: Present(g, a) ==> NamesValid(OwnAt(g, a).value)
    ensures ValidNames(g)
    decreases g
  {
    hide ValidConfigID;
    assert Present(g, Address(GroupKind, []));
    forall k | k in g.groups
      ensures ValidNames(g.groups[k])
    {
      forall a | Present(g.groups[k], a)
        ensures NamesValid(OwnAt(g.groups[k], a).value)
      {
        SubtreeOwn(g, k, a);
        assert Present(g, Address(a.kind, [k] + a.names));
      }
      ValidNamesFromElements(g.groups[k]);
    }
  }

  lemma {:induction false} ElementNamesValid(g: ConfigGroup, a: Address)
    requires ValidNames(g) && Present(g, a)
    ensures NamesValid(OwnAt(g, a).value)
    decreases a.names
  {
    hide ValidConfigID;
    if |a.names| > 0 && !(|a.names| == 1 && !a.kind.GroupKind?) {
      ElementNamesValid(g.groups[a.names[0]], Address(a.kind, a.names[1..]));
    }
  }

  lemma FlatNamesValid(base: seq<string>, g: ConfigGroup, s: string)
    requires base != [] && AllSlashFree(base) && ValidNames(g) && s in Flatten(base, g)
    ensures NamesValid(Own(Flatten(base, g)[s].node))
  {
    hide Flatten, NamesValid, FqPath, ValidConfigID, AllSlashFree, ValidNames;
    var a := FlattenFrom(base, g, s);
    ElementNamesValid(g, a);
  }

  /** An authorised update leads to a tree with valid names only. */
  lemma NewTreeNamesValid<P, S>(v: Validator<P, S>, env: Option<UpdateEnvelope<S>>)
    requires v.Valid() && AuthorizeUpdate(v, env).Some?
    ensures ValidNames(NewTree(v, env))
  {
    forall a | Present(NewTree(v, env), a)
      ensures NamesValid(OwnAt(NewTree(v, env), a).value)
    {
      hide NewTree, AuthorizeUpdate, FullConfig, Flatten, FqPath, NamesValid, NeedsUpgrade;
      NewTreeAt(v, env, a);
      var f, key := FullConfig(v, env), FqPath(a.kind, [v.namespace] + a.names);
      FullNamesValid(v, env, key);
      UpgradeKeepsNames(NeedsUpgrade(f), Own(f[key].node));
    }
    ValidNamesFromElements(NewTree(v, env));
  }

  lemma UpgradeKeepsNames(upgrade: bool, e: Element)
    requires NamesValid(e)
    ensures NamesValid(UpgradedElement(upgrade, e))
  {
    hide ValidConfigID;
  }

  lemma FullNamesValid<P, S>(v: Validator<P, S>, env: Option<UpdateEnvelope<S>>, key: string)
    requires v.Valid() && AuthorizeUpdate(v, env).Some? && key in FullConfig(v, env)
    ensures NamesValid(Own(FullConfig(v, env)[key].node))
  {
    hide Flatten, NamesValid, VerifyDeltaSet, VerifyFullProposedConfig, VerifyReadSet, ValidNames;
    if key in DeltaOf(v, env) {
      var tree := env.value.update.value.writeSet;
      assert tree.Some?;
      assert DeltaOf(v, env)[key] == Flatten([v.namespace], tree.value)[key];
      FlatNamesValid([v.namespace], tree.value, key);
    } else {
      FlatNamesValid([v.namespace], v.config, key);
    }
  }

  // ---------- Runs ----------

  /** The configuration in e is accepted by v and becomes the state v'. */
  ghost predicate Accepted<P, S>(v: Validator<P, S>, e: ConfigEnvelope<S>, v': Validator<P, S>) {
    && Validate(v, Some(e))
    && NewValidator(v.channelID, e.config, v.namespace, v'.pm, v'.evaluate) == Some(v')
  }

  /** What one accepted configuration does to the state. */
  lemma AcceptedStep<P, S>(v: Validator<P, S>, e: ConfigEnvelope<S>, v': Validator<P, S>)
    requires v.Valid() && Accepted(v, e, v')
    ensures AuthorizeUpdate(v, e.lastUpdate).Some?
    ensures v'.Valid() && v'.sequence == Successor(v.sequence) && v'.config == NewTree(v, e.lastUpdate)
    ensures v'.channelID == v.channelID && v'.namespace == v.namespace
  {
    hide AuthorizeUpdate, ConfigMapToConfig, Flatten, ValidNames;
    NewValidatorIff(v.channelID, e.config, v.namespace, v'.pm, v'.evaluate);
  }

  /** Any accepted configuration can become the next state, whatever policies it is given. */
  lemma RunsNeverGetStuck<P, S>(v: Validator<P, S>, e: ConfigEnvelope<S>, pm: Manager<P>, evaluate: (P, S) -> bool)
    requires v.Valid() && ValidChannelID(v.channelID) && Validate(v, Some(e))
    ensures NewValidator(v.channelID, e.config, v.namespace, pm, evaluate).Some?
    ensures Accepted(v, e, NewValidator(v.channelID, e.config, v.namespace, pm, evaluate).value)
  {
    hide AuthorizeUpdate, ConfigMapToConfig, Flatten, ValidNames;
    NewTreeNamesValid(v, e.lastUpdate);
    NewValidatorIff(v.channelID, e.config, v.namespace, pm, evaluate);
  }

  ghost predicate Run<P, S>(vs: seq<Validator<P, S>>, es: seq<ConfigEnvelope<S>>) {
    && |vs| == |es| + 1
    && vs[0].Valid()
    && forall i | 0 <= i < |es| :: Accepted(vs[i], es[i], vs[i + 1])
  }

  lemma {:induction false} RunValid<P, S>(vs: seq<Validator<P, S>>, es: seq<ConfigEnvelope<S>>, i: nat)
    requires Run(vs, es) && i < |vs|
    ensures vs[i].Valid()
    ensures vs[i].channelID == vs[0].channelID && vs[i].namespace == vs[0].namespace
  {
    hide Accepted;
    if i > 0 {
      RunValid(vs, es, i - 1);
      AcceptedStep(vs[i - 1], es[i - 1], vs[i]);
    }
  }

  lemma SuccessorAdds(s: uint64, i: nat)
    ensures Successor((s + i) % 0x1_0000_0000_0000_0000) == (s + i + 1) % 0x1_0000_0000_0000_0000
  {
  }

  /** The sequence number counts the accepted updates. */
  lemma {:induction false} RunSequence<P, S>(vs: seq<Validator<P, S>>, es: seq<ConfigEnvelope<S>>, i: nat)
    requires Run(vs, es) && i < |vs|
    ensures vs[i].sequence == (vs[0].sequence + i) % 0x1_0000_0000_0000_0000
  {
    hide Accepted, Successor, AuthorizeUpdate, Flatten, NewTree;
    if i > 0 {
      RunSequence(vs, es, i - 1);
      RunValid(vs, es, i - 1);
      AcceptedStep(vs[i - 1], es[i - 1], vs[i]);
      SuccessorAdds(vs[0].sequence, i - 1);
    }
  }

  ghost predicate Survives<P, S>(vs: seq<Validator<P, S>>, a: Address) {
    forall v | v in vs :: Present(v.config, a)
  }

  /** The update in e was authorised and approved at the element itself. */
  ghost predicate ApprovedBy<P, S>(v: Validator<P, S>, e: ConfigEnvelope<S>, a: Address) {
    v.Valid() && AuthorizeUpdate(v, e.lastUpdate).Some? && Approved(v, e.lastUpdate, a)
  }

  /** How many of the first n updates were approved at the element itself. */
  ghost function Approvals<P, S>(vs: seq<Validator<P, S>>, es: seq<ConfigEnvelope<S>>, a: Address, n: nat): nat
    requires n <= |es| <= |vs|
  {
    if n == 0 then 0
    else Approvals(vs, es, a, n - 1) + if ApprovedBy(vs[n - 1], es[n - 1], a) then 1 else 0
  }

  /** An element that survives a run has risen once for every approval, and nothing else has touched it. */
  lemma {:induction false} RunElement<P, S>(vs: seq<Validator<P, S>>, es: seq<ConfigEnvelope<S>>, a: Address, n: nat)
    requires Run(vs, es) && Survives(vs, a) && n <= |es|
    ensures Approvals(vs, es, a, n) <= n
    ensures At(vs[n].config, a).value.Version() ==
            (At(vs[0].config, a).value.Version() + Approvals(vs, es, a, n)) % 0x1_0000_0000_0000_0000
    ensures Approvals(vs, es, a, n) == 0 ==> SameUpToUpgrade(OwnAt(vs[0].config, a).value, OwnAt(vs[n].config, a).value)
  {
    hide Accepted, AuthorizeUpdate, Flatten, NewTree, FqPath, PolicySatisfied, DeltaOf, At, Successor;
    assert vs[n] in vs && vs[0] in vs;
    if n > 0 {
      assert vs[n - 1] in vs;
      RunElement(vs, es, a, n - 1);
      RunValid(vs, es, n - 1);
      AcceptedStep(vs[n - 1], es[n - 1], vs[n]);
      SurvivorStep(vs[n - 1], es[n - 1].lastUpdate, a);
      VersionOfSame(vs[n - 1].config, vs[n].config, a);
      SuccessorAdds(At(vs[0].config, a).value.Version(), Approvals(vs, es, a, n - 1));
    }
  }

  lemma VersionOfSame(g: ConfigGroup, h: ConfigGroup, a: Address)
    requires Present(g, a) && Present(h, a)
    ensures Unchanged(g, h, a) ==> At(g, a).value.Version() == At(h, a).value.Version()
  {
  }
}
