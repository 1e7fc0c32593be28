/** Every change an authorised update makes to the tree was approved by an existing policy. */
module ConfigCoverage {
  import opened Wrappers
  import opened Paths
  import opened ConfigTree
  import opened ConfigMap
  import opened ConfigRebuild
  import opened ConfigUpdate

  /** The tree an authorised update leads to. */
  function NewTree<P, S>(v: Validator<P, S>, env: Option<UpdateEnvelope<S>>): ConfigGroup
    requires v.Valid() && AuthorizeUpdate(v, env).Some?
  {
    RebuildNeverFails(v, env);
    ConfigMapToConfig(AuthorizeUpdate(v, env).value, v.namespace).value
  }

  /** The element is the same, except that an unset modification policy may have become "Admins". */
  predicate SameUpToUpgrade(e: Element, f: Element) {
    f == e || (e.modPolicy == "" && f == e.(modPolicy := "Admins"))
  }

  /** The two trees agree at an address: both have nothing there, or the same element. */
  predicate Unchanged(old_: ConfigGroup, new_: ConfigGroup, a: Address) {
    match (OwnAt(old_, a), OwnAt(new_, a))
    case (None, None) => true
    case (Some(e), Some(f)) => SameUpToUpgrade(e, f)
    case _ => false
  }

  /** The element was there before, stays, rises by one version, and its own policy accepted the signatures. */
  predicate Approved<P, S>(v: Validator<P, S>, env: Option<UpdateEnvelope<S>>, b: Address)
    requires v.Valid() && AuthorizeUpdate(v, env).Some?
  {
    && Present(v.config, b)
    && Present(NewTree(v, env), b)
    && At(NewTree(v, env), b).value.Version() == Successor(At(v.config, b).value.Version())
    && PolicySatisfied(v, ItemOf(At(v.config, b).value, [v.namespace] + b.names), SetsOf(v, env).value.signedData)
  }

  /** b is a itself or a group on the way to it. */
  predicate AtOrAbove(b: Address, a: Address) {
    b == a || (b.kind.GroupKind? && |b.names| < |a.names| && b.names == a.names[..|b.names|])
  }

  lemma UpgradeIsSame(upgrade: bool, e: Element)
    ensures SameUpToUpgrade(e, UpgradedElement(upgrade, e))
  {
  }

  function DeltaOf<P, S>(v: Validator<P, S>, env: Option<UpdateEnvelope<S>>): FlatMap
    requires AuthorizeUpdate(v, env).Some?
  {
    DeltaSet(SetsOf(v, env).value.read, SetsOf(v, env).value.write)
  }

  function FullConfig<P, S>(v: Validator<P, S>, env: Option<UpdateEnvelope<S>>): FlatMap
    requires AuthorizeUpdate(v, env).Some?
  {
    AuthorizeUpdate(v, env).value
  }

  /** The full configuration, entry by entry. */
  lemma FullConfigAt<P, S>(v: Validator<P, S>, env: Option<UpdateEnvelope<S>>, key: string)
    requires AuthorizeUpdate(v, env).Some?
    ensures key in DeltaOf(v, env) ==>
              && key in FullConfig(v, env) && FullConfig(v, env)[key] == DeltaOf(v, env)[key]
              && VerifyDelta(v, key, DeltaOf(v, env)[key], SetsOf(v, env).value.signedData)
    ensures key !in DeltaOf(v, env) && key in v.configMap ==>
              key in FullConfig(v, env) && FullConfig(v, env)[key] == v.configMap[key]
  {
    hide SetsOf, VerifyDelta;
  }

  /** Every element of the new tree comes from the full configuration. */
  lemma NewTreeAt<P, S>(v: Validator<P, S>, env: Option<UpdateEnvelope<S>>, a: Address)
    requires v.Valid() && AuthorizeUpdate(v, env).Some?
    requires Present(NewTree(v, env), a)
    ensures var f, key := FullConfig(v, env), FqPath(a.kind, [v.namespace] + a.names);
            && key in f
            && OwnAt(NewTree(v, env), a) == Some(UpgradedElement(NeedsUpgrade(f), Own(f[key].node)))
  {
    assert Rooted([v.namespace]) == "/" + v.namespace;
    hide Flatten, FqPath, Rebuild, AuthorizeUpdate;
    RebuildNeverFails(v, env);
    RebuildAt(FullConfig(v, env), [v.namespace], a);
  }

  /** At an address present in both trees, the delta decides between approval and no change. */
  lemma SurvivorStep<P, S>(v: Validator<P, S>, env: Option<UpdateEnvelope<S>>, a: Address)
    requires v.Valid() && AuthorizeUpdate(v, env).Some?
    requires Present(v.config, a) && Present(NewTree(v, env), a)
    ensures if FqPath(a.kind, [v.namespace] + a.names) in DeltaOf(v, env) then Approved(v, env, a)
            else Unchanged(v.config, NewTree(v, env), a)
  {
    hide Flatten, FqPath, NewTree, AuthorizeUpdate, FullConfig, DeltaOf, SetsOf, ValidModPolicy, PolicySatisfied, At,
         ItemOf;
    var f, key := FullConfig(v, env), FqPath(a.kind, [v.namespace] + a.names);
    NewTreeAt(v, env, a);
    FlattenHas([v.namespace], v.config, a);
    FullConfigAt(v, env, key);
    UpgradeIsSame(NeedsUpgrade(f), Own(f[key].node));
    ItemNode(At(v.config, a).value, [v.namespace] + a.names);
  }

  lemma ItemNode(node: Node, names: seq<string>)
    requires names != []
    ensures ItemOf(node, names).node == node
  {
  }

  lemma {:induction false} GroupsOnTheWay(g: ConfigGroup, a: Address, i: nat)
    requires Present(g, a) && i < |a.names|
    ensures Present(g, Address(GroupKind, a.names[..i]))
    decreases |a.names| - i
  {
    assert a.names[..i + 1] == a.names[..i] + [a.names[i]];
    if i + 1 == |a.names| {
      assert a.names[..i + 1] == a.names;
      AtChild(g, a.names[..i], a.kind, a.names[i]);
    } else {
      GroupsOnTheWay(g, a, i + 1);
      AtChild(g, a.names[..i], GroupKind, a.names[i]);
    }
  }

  /** Walk down from a group both trees have, to the first place where the delta intervenes. */
  lemma {:induction false} CoverFrom<P, S>(v: Validator<P, S>, env: Option<UpdateEnvelope<S>>, a: Address, i: nat)
    returns (b: Address)
    requires v.Valid() && AuthorizeUpdate(v, env).Some?
    requires i <= |a.names|
    requires Present(v.config, Address(GroupKind, a.names[..i]))
    requires Present(NewTree(v, env), Address(GroupKind, a.names[..i]))
    requires !Unchanged(v.config, NewTree(v, env), a)
    requires i == |a.names| ==> a.kind.GroupKind?
    ensures Approved(v, env, b) && AtOrAbove(b, a)
    decreases |a.names| - i
  {
    hide Approved, PolicySatisfied, NewTree, AuthorizeUpdate, FqPath, Flatten, At;
    var old_, new_ := v.config, NewTree(v, env);
    b := Address(GroupKind, a.names[..i]);
    SurvivorStep(v, env, b);
    if i == |a.names| {
      assert a.names[..i] == a.names;
      assert b == a;
    } else if !Approved(v, env, b) {
      var kind := if i + 1 == |a.names| then a.kind else GroupKind;
      var c := Child(a.names[..i], kind, a.names[i]);
      assert a.names[..i + 1] == c.names;
      assert i + 1 == |a.names| ==> c.names == a.names;
      AtChild(old_, a.names[..i], kind, a.names[i]);
      AtChild(new_, a.names[..i], kind, a.names[i]);
      assert Present(old_, c) <==> Present(new_, c);
      if Present(old_, c) {
        if i + 1 == |a.names| {
          SurvivorStep(v, env, a);
          b := a;
        } else {
          b := CoverFrom(v, env, a, i + 1);
        }
      } else if i + 1 < |a.names| {
        if Present(old_, a) {
          GroupsOnTheWay(old_, a, i + 1);
        }
        if Present(new_, a) {
          GroupsOnTheWay(new_, a, i + 1);
        }
      }
    }
  }

  /** Whatever differs after an authorised update, at any place of either tree, was approved there or above. */
  lemma AuthorisationCoverage<P, S>(v: Validator<P, S>, env: Option<UpdateEnvelope<S>>)
    requires v.Valid() && AuthorizeUpdate(v, env).Some?
    ensures forall a :: Unchanged(v.config, NewTree(v, env), a) || exists b :: Approved(v, env, b) && AtOrAbove(b, a)
  {
    hide Approved, NewTree, AuthorizeUpdate;
    forall a | !Unchanged(v.config, NewTree(v, env), a)
      ensures exists b :: Approved(v, env, b) && AtOrAbove(b, a)
    {
      assert a.names[..0] == [];
      var b := CoverFrom(v, env, a, 0);
    }
  }
}
