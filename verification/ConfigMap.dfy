/** The flat view of a configuration tree, keyed by fully qualified path (common/configtx/configmap.go). */
module ConfigMap {
  import opened Wrappers
  import opened Paths
  import opened ConfigTree

  const GROUP_PREFIX := "[Group]  "
  const VALUE_PREFIX := "[Value]  "
  const POLICY_PREFIX := "[Policy] "

  const ORDERER_CAPABILITIES := "[Value]  /Channel/Orderer/Capabilities"
  const NEW_MOD_POLICY := "Admins"

  function Prefix(kind: Kind): string {
    match kind
    case GroupKind => GROUP_PREFIX
    case ValueKind => VALUE_PREFIX
    case PolicyKind => POLICY_PREFIX
  }

  /** The key of the element reached by the given names, the root's own name included. */
  function FqPath(kind: Kind, names: seq<string>): string {
    Prefix(kind) + Rooted(names)
  }

  /** The source's comparable: an element with its name and the names of its ancestors. */
  datatype Item = Item(node: Node, key: string, path: seq<string>)

  type FlatMap = map<string, Item>

  function ItemOf(node: Node, names: seq<string>): Item
    requires names != []
  {
    Item(node, names[|names| - 1], names[..|names| - 1])
  }

  lemma FqPathKind(k: Kind, a: seq<string>, l: Kind, b: seq<string>)
    requires FqPath(k, a) == FqPath(l, b)
    ensures k == l && Rooted(a) == Rooted(b)
  {
    assert FqPath(k, a)[..9] == Prefix(k) && FqPath(l, b)[..9] == Prefix(l);
    assert FqPath(k, a)[9..] == Rooted(a) && FqPath(l, b)[9..] == Rooted(b);
    assert Prefix(k)[1] == Prefix(l)[1];
  }

  /** The layout of the keys: nine characters for the kind, then the names, each after a slash. */
  lemma FqPathLayout(kind: Kind, names: seq<string>)
    requires names != []
    ensures FqPath(kind, names) ==
            (match kind case GroupKind => "[Group]  /" case ValueKind => "[Value]  /" case PolicyKind => "[Policy] /")
            + Join(names)
  {
    hide Join, Rooted;
    JoinRooted(names);
    assert FqPath(kind, names) == Prefix(kind) + "/" + Join(names);
  }

  /** Kind and names can be read back from a key. */
  lemma FqPathInjective(k: Kind, a: seq<string>, l: Kind, b: seq<string>)
    requires AllSlashFree(a) && AllSlashFree(b)
    requires FqPath(k, a) == FqPath(l, b)
    ensures k == l && a == b
  {
    FqPathKind(k, a, l, b);
    RootedInjective(a, b);
  }

  lemma FqPathAppend(kind: Kind, names: seq<string>, name: string)
    ensures FqPath(kind, names + [name]) == Prefix(kind) + Rooted(names) + "/" + name
  {
    RootedAppend(names, name);
  }

  // ---------- Flattening ----------

  lemma KeysDistinct(base: seq<string>, g: ConfigGroup)
    requires AllSlashFree(base) && ValidNames(g)
    ensures forall a | a in Addresses(g) :: Present(g, a)
    ensures forall a, b | a in Addresses(g) && b in Addresses(g)
                          && FqPath(a.kind, base + a.names) == FqPath(b.kind, base + b.names) :: a == b
  {
    forall a | a in Addresses(g)
      ensures Present(g, a) && AllSlashFree(base + a.names)
    {
      AddressesIff(g, a);
      AddressNamesValid(g, a);
    }
    forall a, b | a in Addresses(g) && b in Addresses(g)
                  && FqPath(a.kind, base + a.names) == FqPath(b.kind, base + b.names)
      ensures a == b
    {
      FqPathInjective(a.kind, base + a.names, b.kind, base + b.names);
      assert a.names == (base + a.names)[|base|..] && b.names == (base + b.names)[|base|..];
    }
  }

  /** One entry for every element of the tree whose root group has the names base. */
  function Flatten(base: seq<string>, g: ConfigGroup): FlatMap
    requires base != [] && AllSlashFree(base) && ValidNames(g)
  {
    KeysDistinct(base, g);
    map a | a in Addresses(g) :: FqPath(a.kind, base + a.names) := ItemOf(At(g, a).value, base + a.names)
  }

  /** Flattening finds every element, under its own key, and nothing else. */
  lemma FlattenExact(base: seq<string>, g: ConfigGroup)
    requires base != [] && AllSlashFree(base) && ValidNames(g)
    ensures forall a :: Present(g, a) ==>
              && FqPath(a.kind, base + a.names) in Flatten(base, g)
              && Flatten(base, g)[FqPath(a.kind, base + a.names)] == ItemOf(At(g, a).value, base + a.names)
    ensures forall s | s in Flatten(base, g) ::
              exists a :: Present(g, a) && s == FqPath(a.kind, base + a.names)
  {
    KeysDistinct(base, g);
    forall a | Present(g, a)
      ensures a in Addresses(g)
    {
      AddressesIff(g, a);
    }
  }

  /** The entry of one element. */
  lemma FlattenHas(base: seq<string>, g: ConfigGroup, a: Address)
    requires base != [] && AllSlashFree(base) && ValidNames(g) && Present(g, a)
    ensures FqPath(a.kind, base + a.names) in Flatten(base, g)
    ensures Flatten(base, g)[FqPath(a.kind, base + a.names)] == ItemOf(At(g, a).value, base + a.names)
  {
    FlattenExact(base, g);
  }

  /** The element of one entry. */
  lemma FlattenFrom(base: seq<string>, g: ConfigGroup, s: string) returns (a: Address)
    requires base != [] && AllSlashFree(base) && ValidNames(g) && s in Flatten(base, g)
    ensures Present(g, a) && s == FqPath(a.kind, base + a.names)
    ensures Flatten(base, g)[s] == ItemOf(At(g, a).value, base + a.names)
  {
    FlattenExact(base, g);
    a :| Present(g, a) && s == FqPath(a.kind, base + a.names);
  }

  predicate SubMap(x: FlatMap, y: FlatMap) {
    forall s | s in x :: s in y && y[s] == x[s]
  }

  /** A child group's entries are entries of the parent. */
  lemma ChildSubMap(base: seq<string>, g: ConfigGroup, k: string)
    requires base != [] && AllSlashFree(base) && ValidNames(g) && k in g.groups
    ensures AllSlashFree(base + [k])
    ensures SubMap(Flatten(base + [k], g.groups[k]), Flatten(base, g))
  {
    ValidConfigIDIff(k);
    hide Flatten, FqPath, ValidConfigID;
    forall s | s in Flatten(base + [k], g.groups[k])
      ensures s in Flatten(base, g) && Flatten(base, g)[s] == Flatten(base + [k], g.groups[k])[s]
    {
      var a := FlattenFrom(base + [k], g.groups[k], s);
      var b := Address(a.kind, [k] + a.names);
      assert base + [k] + a.names == base + b.names;
      assert b.names[1..] == a.names;
      assert At(g, b) == At(g.groups[k], a);
      FlattenHas(base, g, b);
    }
  }

  /** A group's entries are its own, its values', its policies' and those of its child groups. */
  lemma FlattenCover(base: seq<string>, g: ConfigGroup, s: string)
    requires base != [] && AllSlashFree(base) && ValidNames(g) && s in Flatten(base, g)
    ensures || s == FqPath(GroupKind, base)
            || (exists k :: k in g.values && s == ChildKey(base, ValueKind, k))
            || (exists k :: k in g.policies && s == ChildKey(base, PolicyKind, k))
            || (exists k :: k in g.groups && AllSlashFree(base + [k]) && s in Flatten(base + [k], g.groups[k]))
  {
    hide Flatten, FqPath;
    var a := FlattenFrom(base, g, s);
    if a.names == [] {
      assert base + a.names == base;
    } else {
      var k, rest := a.names[0], Address(a.kind, a.names[1..]);
      if |a.names| == 1 && !a.kind.GroupKind? {
        assert a.names == [k];
      } else {
        ValidConfigIDIff(k);
        assert base + a.names == base + [k] + rest.names;
        FlattenHas(base + [k], g.groups[k], rest);
      }
    }
  }

  /** The entries of m under the given keys. */
  function Restrict(m: FlatMap, keys: set<string>): FlatMap {
    map s | s in m && s in keys :: m[s]
  }

  lemma RestrictAdd(before: FlatMap, m: FlatMap, keys: set<string>, x: FlatMap)
    requires SubMap(x, m)
    ensures before + Restrict(m, keys) + x == before + Restrict(m, keys + x.Keys)
  {
  }

  lemma RestrictNone(before: FlatMap, m: FlatMap)
    ensures before + Restrict(m, {}) == before
  {
  }

  lemma RestrictAll(m: FlatMap, keys: set<string>)
    requires m.Keys <= keys
    ensures Restrict(m, keys) == m
  {
  }

  lemma OwnEntry(base: seq<string>, g: ConfigGroup)
    requires base != [] && AllSlashFree(base) && ValidNames(g)
    ensures SubMap(map[FqPath(GroupKind, base) := ItemOf(GroupNode(g), base)], Flatten(base, g))
  {
    FlattenExact(base, g);
    assert Present(g, Address(GroupKind, []));
    assert base + [] == base;
  }

  /** The key of a direct child of the group with the names base. */
  function ChildKey(base: seq<string>, kind: Kind, name: string): string {
    FqPath(kind, base + [name])
  }

  lemma LeafEntry(base: seq<string>, g: ConfigGroup, kind: Kind, k: string)
    requires base != [] && AllSlashFree(base) && ValidNames(g) && !kind.GroupKind? && Lists(g, kind, k)
    ensures SubMap(map[ChildKey(base, kind, k) := Item(ChildNode(g, kind, k), k, base)], Flatten(base, g))
  {
    hide Flatten, FqPath;
    FlattenHas(base, g, Address(kind, [k]));
  }

  /** The result map that mapConfig hands to its helpers and that they fill in. */
  class FlatConfig {
    var entries: FlatMap

    constructor ()
      ensures entries == map[]
    {
      entries := map[];
    }

    method AddToMap(node: Node, key: string, path: seq<string>) returns (ok: bool)
      modifies this
      ensures ok <==> ValidConfigID(key)
      ensures entries == if ok then old(entries) + map[ChildKey(path, node.Kind(), key) := Item(node, key, path)]
                         else old(entries)
    {
      var fqPath := Prefix(node.Kind());
      if !ValidConfigID(key) {
        return false;
      }
      FqPathAppend(node.Kind(), path, key);
      if |path| == 0 {
        fqPath := fqPath + "/" + key;
        assert fqPath == FqPath(node.Kind(), path + [key]);
      } else {
        fqPath := fqPath + "/" + Join(path) + "/" + key;
        JoinRooted(path);
        assert fqPath == Prefix(node.Kind()) + ("/" + Join(path)) + "/" + key;
      }
      entries := entries[fqPath := Item(node, key, path)];
      return true;
    }

    /** recurseConfig: adds a group and everything in it, in the arbitrary order in which Go ranges over maps. */
    method RecurseConfig(path: seq<string>, group: ConfigGroup) returns (ok: bool)
      requires path != [] && AllSlashFree(path[..|path| - 1])
      modifies this
      ensures ok <==> ValidConfigID(path[|path| - 1]) && ValidNames(group)
      ensures ok ==> AllSlashFree(path) && entries == old(entries) + Flatten(path, group)
      decreases group, 1
    {
      ok := AddToMap(GroupNode(group), path[|path| - 1], path[..|path| - 1]);
      if !ok {
        return;
      }
      ValidConfigIDIff(path[|path| - 1]);
      assert path[..|path| - 1] + [path[|path| - 1]] == path;
      assert ChildKey(path[..|path| - 1], GroupKind, path[|path| - 1]) == FqPath(GroupKind, path);
      hide Flatten, ChildKey, FqPath, SubMap, Restrict, ValidConfigID, AllSlashFree;
      ghost var keys := {FqPath(GroupKind, path)};
      if ValidNames(group) {
        OwnEntry(path, group);
        ghost var own := map[FqPath(GroupKind, path) := ItemOf(GroupNode(group), path)];
        RestrictAdd(old(entries), Flatten(path, group), {}, own);
        RestrictNone(old(entries), Flatten(path, group));
        assert {} + own.Keys == keys;
      }
      ghost var keys1, keys2, keys3;
      ok, keys1 := RecurseGroups(path, group, old(entries), keys);
      if !ok {
        return;
      }
      ok, keys2 := AddValues(path, group, old(entries), keys1);
      if !ok {
        return;
      }
      ok, keys3 := AddPolicies(path, group, old(entries), keys2);
      if !ok {
        return;
      }
      forall s | s in Flatten(path, group)
        ensures s in keys3
      {
        FlattenCover(path, group, s);
      }
      RestrictAll(Flatten(path, group), keys3);
    }

    // The three loops of recurseConfig. Each one extends the part of the flattening
    // that is already in the map, given by its keys.

    method RecurseGroups(path: seq<string>, group: ConfigGroup, ghost before: FlatMap, ghost keys0: set<string>)
      returns (ok: bool, ghost keys: set<string>)
      requires path != [] && AllSlashFree(path)
      requires ValidNames(group) ==> entries == before + Restrict(Flatten(path, group), keys0)
      modifies this
      ensures ok <==> forall k | k in group.groups :: ValidConfigID(k) && ValidNames(group.groups[k])
      ensures ok ==> keys0 <= keys
      ensures ok ==> forall k | k in group.groups ::
                  AllSlashFree(path + [k]) && Flatten(path + [k], group.groups[k]).Keys <= keys
      ensures ok && ValidNames(group) ==> entries == before + Restrict(Flatten(path, group), keys)
      decreases group, 0
    {
      keys := keys0;
      var todo := group.groups.Keys;
      assert path == (path + [""])[..|path|];
      hide Flatten, ChildKey, FqPath, SubMap, Restrict, ValidConfigID;
      while todo != {}
        invariant todo <= group.groups.Keys
        invariant forall k | k in group.groups && k !in todo :: ValidConfigID(k) && ValidNames(group.groups[k])
        invariant keys0 <= keys
        invariant forall k | k in group.groups && k !in todo ::
                    AllSlashFree(path + [k]) && Flatten(path + [k], group.groups[k]).Keys <= keys
        invariant ValidNames(group) ==> entries == before + Restrict(Flatten(path, group), keys)
      {
        var k :| k in todo;
        assert (path + [k])[..|path + [k]| - 1] == path;
        ok := RecurseConfig(path + [k], group.groups[k]);
        if !ok {
          return;
        }
        ghost var child := Flatten(path + [k], group.groups[k]);
        if ValidNames(group) {
          ChildSubMap(path, group, k);
          RestrictAdd(before, Flatten(path, group), keys, child);
        }
        keys := keys + child.Keys;
        todo := todo - {k};
      }
      ok := true;
    }

    method AddValues(path: seq<string>, group: ConfigGroup, ghost before: FlatMap, ghost keys0: set<string>)
      returns (ok: bool, ghost keys: set<string>)
      requires path != [] && AllSlashFree(path)
      requires ValidNames(group) ==> entries == before + Restrict(Flatten(path, group), keys0)
      modifies this
      ensures ok <==> forall k | k in group.values :: ValidConfigID(k)
      ensures ok ==> keys0 <= keys && forall k | k in group.values :: ChildKey(path, ValueKind, k) in keys
      ensures ok && ValidNames(group) ==> entries == before + Restrict(Flatten(path, group), keys)
    {
      hide Flatten, ChildKey, FqPath, SubMap, Restrict, ValidConfigID, AllSlashFree;
      keys := keys0;
      var todo := group.values.Keys;
      while todo != {}
        invariant todo <= group.values.Keys
        invariant forall k | k in group.values && k !in todo :: ValidConfigID(k) && ChildKey(path, ValueKind, k) in keys
        invariant keys0 <= keys
        invariant ValidNames(group) ==> entries == before + Restrict(Flatten(path, group), keys)
      {
        var k :| k in todo;
        ok := AddToMap(ValueNode(group.values[k]), k, path);
        if !ok {
          return;
        }
        ghost var entry := map[ChildKey(path, ValueKind, k) := Item(ValueNode(group.values[k]), k, path)];
        if ValidNames(group) {
          LeafEntry(path, group, ValueKind, k);
          RestrictAdd(before, Flatten(path, group), keys, entry);
        }
        keys := keys + entry.Keys;
        todo := todo - {k};
      }
      ok := true;
    }

    method AddPolicies(path: seq<string>, group: ConfigGroup, ghost before: FlatMap, ghost keys0: set<string>)
      returns (ok: bool, ghost keys: set<string>)
      requires path != [] && AllSlashFree(path)
      requires ValidNames(group) ==> entries == before + Restrict(Flatten(path, group), keys0)
      modifies this
      ensures ok <==> forall k | k in group.policies :: ValidConfigID(k)
      ensures ok ==> keys0 <= keys && forall k | k in group.policies :: ChildKey(path, PolicyKind, k) in keys
      ensures ok && ValidNames(group) ==> entries == before + Restrict(Flatten(path, group), keys)
    {
      hide Flatten, ChildKey, FqPath, SubMap, Restrict, ValidConfigID, AllSlashFree;
      keys := keys0;
      var todo := group.policies.Keys;
      while todo != {}
        invariant todo <= group.policies.Keys
        invariant forall k | k in group.policies && k !in todo ::
                  ValidConfigID(k) && ChildKey(path, PolicyKind, k) in keys
        invariant keys0 <= keys
        invariant ValidNames(group) ==> entries == before + Restrict(Flatten(path, group), keys)
      {
        var k :| k in todo;
        ok := AddToMap(PolicyNode(group.policies[k]), k, path);
        if !ok {
          return;
        }
        ghost var entry := map[ChildKey(path, PolicyKind, k) := Item(PolicyNode(group.policies[k]), k, path)];
        if ValidNames(group) {
          LeafEntry(path, group, PolicyKind, k);
          RestrictAdd(before, Flatten(path, group), keys, entry);
        }
        keys := keys + entry.Keys;
        todo := todo - {k};
      }
      ok := true;
    }
  }

  /** mapConfig: the flattening of a tree, or an error when some name is not valid. */
  method MapConfig(channelGroup: Option<ConfigGroup>, rootGroupKey: string) returns (r: Option<FlatMap>)
    ensures r == MapOf(channelGroup, rootGroupKey)
  {
    var result := new FlatConfig();
    if channelGroup.Some? {
      var ok := result.RecurseConfig([rootGroupKey], channelGroup.value);
      if !ok {
        return None;
      }
      ValidConfigIDIff(rootGroupKey);
      assert map[] + Flatten([rootGroupKey], channelGroup.value) == Flatten([rootGroupKey], channelGroup.value);
    }
    return Some(result.entries);
  }

  function MapOf(channelGroup: Option<ConfigGroup>, rootGroupKey: string): Option<FlatMap> {
    if channelGroup.None? then Some(map[])
    else if ValidConfigID(rootGroupKey) && ValidNames(channelGroup.value) then
      ValidConfigIDIff(rootGroupKey);
      Some(Flatten([rootGroupKey], channelGroup.value))
    else None
  }
}
