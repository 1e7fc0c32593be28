/** What the checks of authorizeUpdate say about configuration trees, and whose approval they ask for. */
module ConfigAuthority {
  import opened Wrappers
  import opened Paths
  import opened ConfigTree
  import opened ConfigMap
  import opened ConfigRebuild
  import opened PolicyManager
  import opened ConfigUpdate
  import opened ConfigCoverage

  // ---------- The policy that guards an element ----------

  /** The group in which a relative mod_policy is looked up: a group asks its own policies, a leaf its parent's. */
  function Home(a: Address): seq<string>
    requires a.kind.GroupKind? || a.names != []
  {
    if a.kind.GroupKind? then a.names else a.names[..|a.names| - 1]
  }

  predicate Relative(id: string) {
    id != "" && id[0] != '/'
  }

  /** The item that the configuration has for an element. */
  function ItemAt<P, S>(v: Validator<P, S>, a: Address): Item
    requires Present(v.config, a)
  {
    ItemOf(At(v.config, a).value, [v.namespace] + a.names)
  }

  lemma NotRootLeaf(g: ConfigGroup, a: Address)
    requires Present(g, a)
    ensures a.kind.GroupKind? || a.names != []
  {
  }

  lemma {:induction false} WalkOn<P>(m: Manager<P>, p: seq<string>, q: seq<string>)
    ensures Walk(m, p + q) == if Walk(m, p).None? then None else Walk(Walk(m, p).value, q)
    decreases p
  {
    if p == [] {
      assert p + q == q;
    } else if p[0] in m.managers {
      assert (p + q)[1..] == p[1..] + q;
      WalkOn(m.managers[p[0]], p[1..], q);
    }
  }

  /** The manager that is asked is the one of the element's home. */
  lemma AsksHome<P, S>(v: Validator<P, S>, a: Address)
    requires Present(v.config, a) && Relative(At(v.config, a).value.ModPolicy())
    ensures a.kind.GroupKind? || a.names != []
    ensures var sub, modPolicy := Walk(v.pm, Home(a)), At(v.config, a).value.ModPolicy();
            PolicyForItem(v, ItemAt(v, a)) == if sub.None? then Rejected else GetPolicy(sub.value, modPolicy)
  {
    hide GetPolicy, At;
    NotRootLeaf(v.config, a);
    var n := |a.names|;
    var names := [v.namespace] + a.names;
    if n > 0 {
      assert names[..n] == [v.namespace] + a.names[..n - 1];
      assert names[..n][1..] == a.names[..n - 1];
      WalkOn(v.pm, a.names[..n - 1], [a.names[n - 1]]);
      assert a.names[..n - 1] + [a.names[n - 1]] == a.names;
    }
  }

  lemma HomePlain<P, S>(v: Validator<P, S>, a: Address)
    requires v.Valid() && Present(v.config, a)
    ensures a.kind.GroupKind? || a.names != []
    ensures AllSlashFree(Home(a))
  {
    NotRootLeaf(v.config, a);
    AddressNamesValid(v.config, a);
  }

  /** The policy that guards an element, by its full name: a relative one is found below the element's home. */
  lemma GuardingPolicy<P, S>(v: Validator<P, S>, path: string, compile: Compiler<P>, root: ConfigGroup, a: Address)
    requires v.Valid() && Present(v.config, a)
    requires PlainNames(root) && Build(path, compile, root) == Some(v.pm)
    requires Relative(At(v.config, a).value.ModPolicy())
    ensures a.kind.GroupKind? || a.names != []
    ensures var modPolicy := At(v.config, a).value.ModPolicy();
            var home := if a.kind.GroupKind? then a.names else a.names[..|a.names| - 1];
            var id := Join(home + [modPolicy]);
            PolicyForItem(v, ItemAt(v, a)) ==
            if id in v.pm.policies then Found(v.pm.policies[id], "/" + Join([path] + home + [modPolicy])) else Rejected
  {
    hide Build, At, Join, Rooted, PolicyForItem, PlainNames, v.Valid;
    AsksHome(v, a);
    HomePlain(v, a);
    var home, modPolicy := Home(a), At(v.config, a).value.ModPolicy();
    BuildParts(path, compile, root);
    IndexWalk(path, compile, root, home, modPolicy);
    SameFullName(path, home, modPolicy);
    LongName(path, home, modPolicy);
  }

  lemma LongName(path: string, home: seq<string>, name: string)
    ensures "/" + path + "/" + Join(home + [name]) == "/" + Join([path] + home + [name])
  {
    assert ([path] + home + [name])[1..] == home + [name];
  }

  /** The policy compiled from the tree at an address: its group's manager supplies the sub-policies. */
  ghost predicate CompiledFrom<P(!new)>(path: string, compile: Compiler<P>, root: ConfigGroup, b: Address, policy: P)
    requires PlainNames(root)
  {
    var n := |b.names|;
    && n > 0 && Present(root, Address(PolicyKind, b.names)) && Present(root, Address(GroupKind, b.names[..n - 1]))
    && var raw := At(root, Address(PolicyKind, b.names)).value.policy.policy;
       var group := At(root, Address(GroupKind, b.names[..n - 1])).value.group;
       && PlainNames(group) && Build(path + Rooted(b.names[..n - 1]), compile, group).Some?
       && raw.Some?
       && compile(raw.value, Build(path + Rooted(b.names[..n - 1]), compile, group).value.managers) == Some(policy)
  }

  /** In the tree the managers are built from, that policy stands at the address home, mod_policy. */
  lemma GuardingPolicyAt<P(!new), S>(v: Validator<P, S>, path: string, compile: Compiler<P>, root: ConfigGroup,
                                     a: Address)
    requires v.Valid() && Present(v.config, a)
    requires PlainNames(root) && Build(path, compile, root) == Some(v.pm)
    requires Relative(At(v.config, a).value.ModPolicy())
    ensures a.kind.GroupKind? || a.names != []
    ensures var home := if a.kind.GroupKind? then a.names else a.names[..|a.names| - 1];
            var b := Address(PolicyKind, home + Split(At(v.config, a).value.ModPolicy(), '/'));
            var found := PolicyForItem(v, ItemAt(v, a));
            && (found.Found? <==> Present(root, b))
            && (found.Found? ==>
                  found.name == "/" + Join([path] + b.names) && CompiledFrom(path, compile, root, b, found.policy))
  {
    hide Build, At, Join, Rooted, PolicyForItem, PlainNames, Split, CompiledFrom, v.Valid;
    GuardingPolicy(v, path, compile, root, a);
    HomePlain(v, a);
    PolicyBelow(path, compile, root, Home(a), At(v.config, a).value.ModPolicy());
  }

  /** Below a group, an identifier of several names means the policy its names lead to. */
  lemma PolicyBelow<P(!new)>(path: string, compile: Compiler<P>, root: ConfigGroup, home: seq<string>, id: string)
    requires PlainNames(root) && Build(path, compile, root).Some? && AllSlashFree(home)
    ensures var m, b := Build(path, compile, root).value, Address(PolicyKind, home + Split(id, '/'));
            && Join([path] + home + [id]) == Join([path] + b.names)
            && (Join(home + [id]) in m.policies <==> Present(root, b))
            && (Present(root, b) ==> CompiledFrom(path, compile, root, b, m.policies[Join(home + [id])]))
  {
    hide Build, At, Join, Rooted, Split, PlainNames;
    var parts := Split(id, '/');
    var names, n := home + parts, |home + parts| - 1;
    SplitJoin(id);
    JoinJoin(home, parts);
    JoinJoin([path] + home, parts);
    assert [path] + home + parts == [path] + names;
    assert names == names[..n] + [names[n]];
    IndexExact(path, compile, root, names[..n], names[n]);
  }

  /** An absolute mod_policy is looked up from the top, wherever the element is; an empty one never is. */
  lemma GuardingPolicyAbsolute<P, S>(v: Validator<P, S>, item: Item)
    requires !Relative(item.node.ModPolicy())
    ensures item.node.ModPolicy() == "" ==> PolicyForItem(v, item).Rejected?
    ensures PolicyForItem(v, item).Found? <==>
              exists c, rel :: rel in v.pm.policies && item.node.ModPolicy() == "/" + v.pm.path + [c] + rel
    ensures forall c, rel | rel in v.pm.policies && item.node.ModPolicy() == "/" + v.pm.path + [c] + rel ::
              PolicyForItem(v, item) == Found(v.pm.policies[rel], "/" + v.pm.path + "/" + rel)
  {
    hide GetPolicy;
    var modPolicy := item.node.ModPolicy();
    EmptyRejected(v.pm);
    assert forall c, rel :: Absolute(v.pm.path, c, rel) == "/" + v.pm.path + [c] + rel;
    if modPolicy == "" {
      assert forall c, rel :: |Absolute(v.pm.path, c, rel)| > 0;
    } else {
      assert "/" <= modPolicy;
      AbsoluteFoundIff(v.pm, modPolicy);
    }
  }

  lemma EmptyRejected<P>(m: Manager<P>)
    ensures GetPolicy(m, "") == Rejected
  {
  }

  // ---------- When an update is authorised ----------

  /** The element of a read or write set at an address. */
  function NodeIn(g: Option<ConfigGroup>, a: Address): Option<Node> {
    if g.None? then None else At(g.value, a)
  }

  predicate WellNamed(g: Option<ConfigGroup>) {
    g.Some? ==> ValidNames(g.value)
  }

  /** An entry of a flattened read or write set is the element its names lead to. */
  lemma MapOfAt(g: Option<ConfigGroup>, root: string, a: Address)
    requires MapOf(g, root).Some? && AllSlashFree([root] + a.names)
    ensures var m, key := MapOf(g, root).value, FqPath(a.kind, [root] + a.names);
            && (key in m <==> NodeIn(g, a).Some?)
            && (key in m ==> m[key] == ItemOf(NodeIn(g, a).value, [root] + a.names))
  {
    hide Flatten, FqPath, ValidNames, At;
    if g.Some? {
      var key := FqPath(a.kind, [root] + a.names);
      assert AllSlashFree([root]) by { assert ([root] + a.names)[0] == root; }
      if NodeIn(g, a).Some? {
        FlattenHas([root], g.value, a);
      }
      if key in Flatten([root], g.value) {
        var b := FlattenFrom([root], g.value, key);
        AddressNamesValid(g.value, b);
        FqPathInjective(a.kind, [root] + a.names, b.kind, [root] + b.names);
        assert a.names == ([root] + a.names)[1..] && b.names == ([root] + b.names)[1..];
      }
    }
  }

  /** Every entry has an address. */
  lemma MapOfFrom(g: Option<ConfigGroup>, root: string, key: string) returns (a: Address)
    requires MapOf(g, root).Some? && key in MapOf(g, root).value
    ensures NodeIn(g, a).Some? && key == FqPath(a.kind, [root] + a.names) && AllSlashFree([root] + a.names)
    ensures MapOf(g, root).value[key] == ItemOf(NodeIn(g, a).value, [root] + a.names)
  {
    hide Flatten, FqPath, ValidNames, At;
    ValidConfigIDIff(root);
    a := FlattenFrom([root], g.value, key);
    AddressNamesValid(g.value, a);
  }

  lemma MapOfNames(g: Option<ConfigGroup>, root: string, a: Address)
    requires MapOf(g, root).Some? && NodeIn(g, a).Some?
    ensures AllSlashFree([root] + a.names)
  {
    hide Flatten, FqPath, ValidNames, At;
    ValidConfigIDIff(root);
    AddressNamesValid(g.value, a);
  }

  /** The read set is verified exactly when every element in it is in the configuration, at the version read. */
  lemma ReadSetCurrent<P, S>(v: Validator<P, S>, readSet: Option<ConfigGroup>)
    requires v.Valid() && WellNamed(readSet)
    ensures VerifyReadSet(v.configMap, MapOf(readSet, v.namespace).value) <==>
              forall a | NodeIn(readSet, a).Some? ::
                Present(v.config, a) && At(v.config, a).value.Version() == NodeIn(readSet, a).value.Version()
  {
    hide Flatten, FqPath, ValidNames, At;
    var m, current := MapOf(readSet, v.namespace).value, Some(v.config);
    assert MapOf(current, v.namespace) == Some(v.configMap);
    if VerifyReadSet(v.configMap, m) {
      forall a | NodeIn(readSet, a).Some?
        ensures Present(v.config, a) && At(v.config, a).value.Version() == NodeIn(readSet, a).value.Version()
      {
        MapOfNames(readSet, v.namespace, a);
        MapOfAt(readSet, v.namespace, a);
        MapOfAt(current, v.namespace, a);
      }
    }
    if forall a | NodeIn(readSet, a).Some? ::
      Present(v.config, a) && At(v.config, a).value.Version() == NodeIn(readSet, a).value.Version()
    {
      forall key | key in m
        ensures key in v.configMap && v.configMap[key].node.Version() == m[key].node.Version()
      {
        var a := MapOfFrom(readSet, v.namespace, key);
        MapOfAt(current, v.namespace, a);
      }
    }
  }

  /** The new element at an address changes nothing when the read set has the address at the same version. */
  predicate Proposes(update: Update, a: Address) {
    && NodeIn(update.writeSet, a).Some?
    && (NodeIn(update.readSet, a).Some? ==>
          NodeIn(update.readSet, a).value.Version() != NodeIn(update.writeSet, a).value.Version())
  }

  /** A proposed element is new, at version 0, or follows the present one with the approval of its policy. */
  predicate Allowed<P, S>(v: Validator<P, S>, a: Address, node: Node, signedData: S) {
    && ValidModPolicy(node.ModPolicy())
    && if Present(v.config, a) then
         var found := PolicyForItem(v, ItemAt(v, a));
         && node.Version() == (At(v.config, a).value.Version() + 1) % 0x1_0000_0000_0000_0000
         && found.Found? && v.evaluate(found.policy, signedData)
       else node.Version() == 0
  }

  lemma DeltaAt<P, S>(v: Validator<P, S>, update: Update, a: Address)
    requires v.Valid() && WellNamed(update.readSet) && WellNamed(update.writeSet)
    requires AllSlashFree([v.namespace] + a.names)
    ensures var delta := DeltaSet(MapOf(update.readSet, v.namespace).value, MapOf(update.writeSet, v.namespace).value);
            var key := FqPath(a.kind, [v.namespace] + a.names);
            && (key in delta <==> Proposes(update, a))
            && (key in delta ==>
                  forall sd :: VerifyDelta(v, key, delta[key], sd) <==>
                               Allowed(v, a, NodeIn(update.writeSet, a).value, sd))
  {
    hide Flatten, FqPath, ValidNames, At, ValidModPolicy, PolicyForItem;
    assert MapOf(Some(v.config), v.namespace) == Some(v.configMap);
    MapOfAt(update.readSet, v.namespace, a);
    MapOfAt(update.writeSet, v.namespace, a);
    MapOfAt(Some(v.config), v.namespace, a);
  }

  /** The delta check, on trees. */
  lemma DeltaSetAllowed<P, S>(v: Validator<P, S>, update: Update, sd: S)
    requires v.Valid() && WellNamed(update.readSet) && WellNamed(update.writeSet)
    ensures var delta := DeltaSet(MapOf(update.readSet, v.namespace).value, MapOf(update.writeSet, v.namespace).value);
            VerifyDeltaSet(v, delta, sd) <==>
              && (exists a :: Proposes(update, a))
              && (forall a | Proposes(update, a) :: Allowed(v, a, NodeIn(update.writeSet, a).value, sd))
  {
    hide Flatten, FqPath, ValidNames, At, VerifyDelta, Allowed, DeltaSet, Proposes;
    var delta := DeltaSet(MapOf(update.readSet, v.namespace).value, MapOf(update.writeSet, v.namespace).value);
    forall a | Proposes(update, a)
      ensures NodeIn(update.writeSet, a).Some?
      ensures var key := FqPath(a.kind, [v.namespace] + a.names);
              key in delta && (VerifyDelta(v, key, delta[key], sd) <==>
                               Allowed(v, a, NodeIn(update.writeSet, a).value, sd))
    {
      ProposedPresent(update, a);
      MapOfNames(update.writeSet, v.namespace, a);
      DeltaAt(v, update, a);
    }
    forall key | key in delta
      ensures exists a :: Proposes(update, a) && key == FqPath(a.kind, [v.namespace] + a.names)
    {
      DeltaWritten(update, v.namespace, key);
      var a := MapOfFrom(update.writeSet, v.namespace, key);
      DeltaAt(v, update, a);
    }
    if |delta| != 0 {
      assert delta.Keys != {};
      var key :| key in delta;
    }
  }

  lemma ProposedPresent(update: Update, a: Address)
    requires Proposes(update, a)
    ensures NodeIn(update.writeSet, a).Some?
  {
  }

  lemma DeltaWritten(update: Update, root: string, key: string)
    requires MapOf(update.readSet, root).Some? && MapOf(update.writeSet, root).Some?
    requires key in DeltaSet(MapOf(update.readSet, root).value, MapOf(update.writeSet, root).value)
    ensures key in MapOf(update.writeSet, root).value
  {
  }

  /** authorizeUpdate accepts exactly the updates of this channel that read the current versions and propose
      something, all of it allowed. */
  lemma AuthorizedIff<P, S>(v: Validator<P, S>, env: Option<UpdateEnvelope<S>>)
    requires v.Valid()
    ensures AuthorizeUpdate(v, env).Some? <==>
              && env.Some? && env.value.update.Some? && env.value.signedData.Some?
              && var update, sd := env.value.update.value, env.value.signedData.value;
                 && update.channelId == v.channelID
                 && WellNamed(update.readSet) && WellNamed(update.writeSet)
                 && (forall a | NodeIn(update.readSet, a).Some? ::
                       && Present(v.config, a)
                       && At(v.config, a).value.Version() == NodeIn(update.readSet, a).value.Version())
                 && (exists a :: Proposes(update, a))
                 && (forall a | Proposes(update, a) :: Allowed(v, a, NodeIn(update.writeSet, a).value, sd))
  {
    hide Flatten, FqPath, ValidNames, At, Allowed, DeltaSet, Proposes, VerifyDeltaSet, VerifyReadSet;
    AuthorizeIff(v, env);
    if env.Some? && env.value.update.Some? && env.value.signedData.Some? {
      var update := env.value.update.value;
      if WellNamed(update.readSet) && WellNamed(update.writeSet) {
        ReadSetCurrent(v, update.readSet);
        DeltaSetAllowed(v, update, env.value.signedData.value);
      }
    }
  }

  // ---------- The form of modification policies ----------

  /** A well-formed mod_policy is a list of valid names, joined by slashes, with or without one in front. */
  lemma ValidModPolicyIff(modPolicy: string)
    ensures ValidModPolicy(modPolicy) <==>
              exists names :: ModPolicyOf(modPolicy, names)
  {
    hide Split, Join, ValidConfigID;
    if ValidModPolicy(modPolicy) {
      var trimmed := if modPolicy[0] == '/' then modPolicy[1..] else modPolicy;
      SplitJoin(trimmed);
      assert modPolicy[0] == '/' ==> modPolicy == "/" + modPolicy[1..];
      assert ModPolicyOf(modPolicy, Split(trimmed, '/'));
    }
    if names :| ModPolicyOf(modPolicy, names) {
      forall i | 0 <= i < |names|
        ensures SlashFree(names[i])
      {
        ValidConfigIDIff(names[i]);
      }
      SplitOfJoin(names);
      JoinStart(names);
      assert ("/" + Join(names))[1..] == Join(names);
    }
  }

  predicate ModPolicyOf(modPolicy: string, names: seq<string>) {
    && names != [] && (forall i | 0 <= i < |names| :: ValidConfigID(names[i]))
    && (modPolicy == Join(names) || modPolicy == "/" + Join(names))
  }

  lemma JoinStart(names: seq<string>)
    requires names != [] && ValidConfigID(names[0])
    ensures Join(names) != "" && Join(names)[0] != '/'
  {
    ValidConfigIDIff(names[0]);
    assert Join(names)[0] == names[0][0];
  }

  // ---------- Whose approval a change needs ----------

  /** Every change an authorised update makes was approved by the policy at a place in the tree that can be named:
      below the home of the changed element, or of a group above it, where its mod_policy leads. */
  lemma ChangeApprovedBy<P(!new), S>(v: Validator<P, S>, env: Option<UpdateEnvelope<S>>, compile: Compiler<P>,
                                     a: Address)
    returns (b: Address, policy: P)
    requires v.Valid() && PlainNames(v.config) && Build(v.namespace, compile, v.config) == Some(v.pm)
    requires AuthorizeUpdate(v, env).Some? && !Unchanged(v.config, NewTree(v, env), a)
    ensures Approved(v, env, b) && AtOrAbove(b, a) && (b.kind.GroupKind? || b.names != [])
    ensures v.evaluate(policy, env.value.signedData.value)
    ensures var home := if b.kind.GroupKind? then b.names else b.names[..|b.names| - 1];
            var modPolicy := At(v.config, b).value.ModPolicy();
            Relative(modPolicy) ==>
              CompiledFrom(v.namespace, compile, v.config, Address(PolicyKind, home + Split(modPolicy, '/')), policy)
  {
    hide Build, At, Join, Rooted, PolicyForItem, PlainNames, Split, CompiledFrom, AuthorizeUpdate, NewTree, Unchanged,
         Approved, v.Valid;
    AuthorisationCoverage(v, env);
    b :| Approved(v, env, b) && AtOrAbove(b, a);
    policy := ApprovingPolicy(v, env, b);
    NotRootLeaf(v.config, b);
    if Relative(At(v.config, b).value.ModPolicy()) {
      GuardingPolicyAt(v, v.namespace, compile, v.config, b);
    }
  }

  lemma ApprovingPolicy<P, S>(v: Validator<P, S>, env: Option<UpdateEnvelope<S>>, b: Address) returns (policy: P)
    requires v.Valid() && AuthorizeUpdate(v, env).Some? && Approved(v, env, b)
    ensures Present(v.config, b)
    ensures PolicyForItem(v, ItemAt(v, b)).Found? && policy == PolicyForItem(v, ItemAt(v, b)).policy
    ensures env.Some? && env.value.signedData.Some? && v.evaluate(policy, env.value.signedData.value)
  {
    hide At, PolicyForItem, NewTree, v.Valid;
    policy := PolicyForItem(v, ItemAt(v, b)).policy;
  }
}
