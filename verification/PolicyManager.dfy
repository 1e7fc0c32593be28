/** The tree of policy managers and the flattened policy index each of them keeps (common/policies/policy.go). */
module PolicyManager {
  import opened Wrappers
  import opened Paths
  import opened ConfigTree

  /** P is the type of compiled policies. */
  datatype Manager<P> = Manager(path: string, policies: map<string, P>, managers: map<string, Manager<P>>)

  /** The providers and the implicit meta policy constructor: None stands for a compilation error. */
  type Compiler<!P> = (RawPolicy, map<string, Manager<P>>) -> Option<P>

  function Compile<P>(compile: Compiler<P>, policy: ConfigPolicy, managers: map<string, Manager<P>>): Option<P> {
    if policy.policy.None? then None else compile(policy.policy.value, managers)
  }

  // ---------- Construction ----------

  /** Group and policy names are path elements. */
  predicate PlainNames(root: ConfigGroup)
    decreases root
  {
    && (forall k | k in root.groups :: SlashFree(k) && PlainNames(root.groups[k]))
    && (forall k | k in root.policies :: SlashFree(k))
  }

  lemma SlashedInjective(g: string, p: string, h: string, q: string)
    requires SlashFree(g) && SlashFree(h) && Slashed(g, p) == Slashed(h, q)
    ensures g == h && p == q
  {
    assert g + ("/" + p) == Slashed(g, p) && h + ("/" + q) == Slashed(h, q);
    NameEndsAtSlash(g, "/" + p, h, "/" + q);
    assert p == ("/" + p)[1..] && q == ("/" + q)[1..];
  }

  /** The policies of the child managers, under their path from here. */
  function Inherited<P>(managers: map<string, Manager<P>>): map<string, P>
    requires forall g | g in managers :: SlashFree(g)
  {
    InheritedKeys(managers);
    map e | e in ChildPolicies(managers) :: Slashed(e.group, e.policy) := managers[e.group].policies[e.policy]
  }

  datatype ChildPolicy = ChildPolicy(group: string, policy: string)

  function ChildPolicies<P>(managers: map<string, Manager<P>>): set<ChildPolicy> {
    set g, p | g in managers && p in managers[g].policies :: ChildPolicy(g, p)
  }

  lemma InheritedKeys<P>(managers: map<string, Manager<P>>)
    requires forall g | g in managers :: SlashFree(g)
    ensures forall g, p, h, q | g in managers && h in managers && Slashed(g, p) == Slashed(h, q) :: g == h && p == q
  {
    forall g, p, h, q | g in managers && h in managers && Slashed(g, p) == Slashed(h, q)
      ensures g == h && p == q
    {
      SlashedInjective(g, p, h, q);
    }
  }

  /** NewManagerImpl on a tree with plain names. */
  function Build<P>(path: string, compile: Compiler<P>, root: ConfigGroup): Option<Manager<P>>
    requires PlainNames(root)
    decreases root
  {
    if exists k | k in root.groups :: Build(Slashed(path, k), compile, root.groups[k]).None? then None
    else
      var managers := map k | k in root.groups :: Build(Slashed(path, k), compile, root.groups[k]).value;
      Finish(path, compile, root.policies, managers)
  }

  /** Compiles a group's own policies and adds those of its sub-managers. */
  function Finish<P>(path: string, compile: Compiler<P>, policies: map<string, ConfigPolicy>,
                     managers: map<string, Manager<P>>): Option<Manager<P>>
    requires forall g | g in managers :: SlashFree(g)
  {
    if exists k | k in policies :: Compile(compile, policies[k], managers).None? then None
    else
      var own := map k | k in policies :: Compile(compile, policies[k], managers).value;
      Some(Manager(path, own + Inherited(managers), managers))
  }

  lemma BuildFinishes<P>(path: string, compile: Compiler<P>, root: ConfigGroup, managers: map<string, Manager<P>>)
    requires PlainNames(root) && managers.Keys == root.groups.Keys
    requires forall k | k in root.groups :: Build(Slashed(path, k), compile, root.groups[k]) == Some(managers[k])
    ensures Build(path, compile, root) == Finish(path, compile, root.policies, managers)
  {
    hide Slashed, Compile, Inherited, SlashFree, Finish;
    var ms := map k | k in root.groups :: Build(Slashed(path, k), compile, root.groups[k]).value;
    assert ms == managers;
  }

  lemma BuildSome<P>(path: string, compile: Compiler<P>, root: ConfigGroup, managers: map<string, Manager<P>>,
                     own: map<string, P>)
    requires PlainNames(root)
    requires managers.Keys == root.groups.Keys && own.Keys == root.policies.Keys
    requires forall k | k in root.groups :: Build(Slashed(path, k), compile, root.groups[k]) == Some(managers[k])
    requires forall k | k in root.policies :: Compile(compile, root.policies[k], managers) == Some(own[k])
    ensures Build(path, compile, root) == Some(Manager(path, own + Inherited(managers), managers))
  {
    hide Slashed, Compile, Inherited, Build;
    BuildFinishes(path, compile, root, managers);
    assert own == map k | k in root.policies :: Compile(compile, root.policies[k], managers).value;
  }

  lemma BuildNoneGroup<P>(path: string, compile: Compiler<P>, root: ConfigGroup, k: string)
    requires PlainNames(root) && k in root.groups && Build(Slashed(path, k), compile, root.groups[k]).None?
    ensures Build(path, compile, root).None?
  {
    hide Slashed, Compile, Inherited;
  }

  lemma BuildNonePolicy<P>(path: string, compile: Compiler<P>, root: ConfigGroup, managers: map<string, Manager<P>>,
                           k: string)
    requires PlainNames(root) && managers.Keys == root.groups.Keys
    requires forall j | j in root.groups :: Build(Slashed(path, j), compile, root.groups[j]) == Some(managers[j])
    requires k in root.policies && Compile(compile, root.policies[k], managers).None?
    ensures Build(path, compile, root).None?
  {
    hide Slashed, Compile, Inherited, Build;
    BuildFinishes(path, compile, root, managers);
  }

  /** A built manager, taken apart. */
  lemma BuildParts<P>(path: string, compile: Compiler<P>, root: ConfigGroup)
    requires PlainNames(root) && Build(path, compile, root).Some?
    ensures var m := Build(path, compile, root).value;
            && m.path == path
            && m.managers.Keys == root.groups.Keys
            && (forall k | k in root.groups :: Build(Slashed(path, k), compile, root.groups[k]) == Some(m.managers[k]))
            && (forall k | k in root.policies :: Compile(compile, root.policies[k], m.managers).Some?)
            && m.policies == (map k | k in root.policies :: Compile(compile, root.policies[k], m.managers).value)
                             + Inherited(m.managers)
  {
    hide Slashed, Compile, Inherited;
  }

  /** Some policy of some sub-manager has this path from here. */
  ghost predicate InheritedName<P>(managers: map<string, Manager<P>>, s: string) {
    exists g, p :: Inherits(managers, s, g, p)
  }

  ghost predicate Inherits<P>(managers: map<string, Manager<P>>, s: string, g: string, p: string) {
    g in managers && p in managers[g].policies && s == Slashed(g, p)
  }

  /** A policy is in the index under its own name, unless a policy of a sub-manager has that path; then one such is. */
  ghost predicate Indexes<P>(own: map<string, P>, managers: map<string, Manager<P>>, policies: map<string, P>) {
    forall s ::
      && (s in policies <==> s in own || InheritedName(managers, s))
      && (s in policies && !InheritedName(managers, s) ==> policies[s] == own[s])
      && (s in policies && InheritedName(managers, s) ==>
            exists g, p :: Inherits(managers, s, g, p) && policies[s] == managers[g].policies[p])
  }

  /** What is built for any names: with slashes in them two policies may compete for one place in the index. */
  ghost predicate Managed<P>(m: Manager<P>, path: string, compile: Compiler<P>, root: ConfigGroup)
    decreases root
  {
    && m.path == path && m.managers.Keys == root.groups.Keys
    && (forall k | k in root.groups :: Managed(m.managers[k], Slashed(path, k), compile, root.groups[k]))
    && (forall k | k in root.policies :: Compile(compile, root.policies[k], m.managers).Some?)
    && var own := map k | k in root.policies :: Compile(compile, root.policies[k], m.managers).value;
       Indexes(own, m.managers, m.policies)
  }

  lemma IsManaged<P>(path: string, compile: Compiler<P>, root: ConfigGroup, managers: map<string, Manager<P>>,
                     own: map<string, P>, policies: map<string, P>)
    requires managers.Keys == root.groups.Keys && own.Keys == root.policies.Keys && Indexes(own, managers, policies)
    requires forall k | k in root.groups :: Managed(managers[k], Slashed(path, k), compile, root.groups[k])
    requires forall k | k in root.policies :: Compile(compile, root.policies[k], managers) == Some(own[k])
    ensures Managed(Manager(path, policies, managers), path, compile, root)
  {
    hide Indexes, Compile, Slashed;
    assert own == map k | k in root.policies :: Compile(compile, root.policies[k], managers).value;
  }

  lemma IndexesNone<P>(own: map<string, P>)
    ensures Indexes(own, map[], own)
  {
  }

  lemma IndexesStep<P>(own: map<string, P>, managers: map<string, Manager<P>>, todo: set<string>, g: string,
                       before: map<string, P>)
    requires g in todo && todo <= managers.Keys && Indexes(own, managers - todo, before)
    ensures Indexes(own, managers - (todo - {g}), before + Prefixed(g, managers[g].policies))
  {
    hide Prefixed, Slashed;
    var less, more, added := managers - todo, managers - (todo - {g}), Prefixed(g, managers[g].policies);
    var after := before + added;
    forall s
      ensures s in after <==> s in own || InheritedName(more, s)
      ensures s in after && !InheritedName(more, s) ==> after[s] == own[s]
      ensures s in after && InheritedName(more, s) ==>
                exists h, p :: Inherits(more, s, h, p) && after[s] == more[h].policies[p]
    {
      if s in added {
        var p := PrefixedFrom(g, managers[g].policies, s);
        PrefixedHas(g, managers[g].policies, p);
        assert Inherits(more, s, g, p);
      } else {
        SameNames(managers, todo, g, s);
        if s in before && InheritedName(less, s) {
          var h, p :| Inherits(less, s, h, p) && before[s] == less[h].policies[p];
          assert Inherits(more, s, h, p);
        }
      }
    }
  }

  lemma SameNames<P>(managers: map<string, Manager<P>>, todo: set<string>, g: string, s: string)
    requires g in todo && todo <= managers.Keys && s !in Prefixed(g, managers[g].policies)
    ensures InheritedName(managers - (todo - {g}), s) <==> InheritedName(managers - todo, s)
  {
    hide Prefixed, Slashed;
    var less, more := managers - todo, managers - (todo - {g});
    if h, p :| Inherits(more, s, h, p) {
      PrefixedHas(g, managers[g].policies, p);
      assert Inherits(less, s, h, p);
    }
    if h, p :| Inherits(less, s, h, p) {
      assert Inherits(more, s, h, p);
    }
  }

  /** NewManagerImpl. For names with slashes the order of map iteration decides which policy is in the index. */
  method NewManagerImpl<P>(path: string, compile: Compiler<P>, root: ConfigGroup) returns (r: Option<Manager<P>>)
    ensures r.Some? ==> Managed(r.value, path, compile, root)
    ensures PlainNames(root) ==> r == Build(path, compile, root)
    ensures r.Some? ==>
              forall k | k in root.policies ::
                && root.policies[k].policy.Some?
                && compile(root.policies[k].policy.value, r.value.managers).Some?
                && k in r.value.policies
    ensures r.Some? ==>
              forall k | k in root.policies && (PlainNames(root) || !InheritedName(r.value.managers, k)) ::
                Some(r.value.policies[k]) == compile(root.policies[k].policy.value, r.value.managers)
    decreases root
  {
    hide Build, Slashed, Compile, Inherited, Managed, Indexes;
    var managers: map<string, Manager<P>> := map[];
    var todo := root.groups.Keys;
    while todo != {}
      invariant todo <= root.groups.Keys && managers.Keys == root.groups.Keys - todo
      invariant forall k | k in managers :: Managed(managers[k], Slashed(path, k), compile, root.groups[k])
      invariant PlainNames(root) ==>
                forall k | k in managers :: Build(Slashed(path, k), compile, root.groups[k]) == Some(managers[k])
    {
      var groupName :| groupName in todo;
      var m := NewManagerImpl(Slashed(path, groupName), compile, root.groups[groupName]);
      if m.None? {
        if PlainNames(root) {
          BuildNoneGroup(path, compile, root, groupName);
        }
        return None;
      }
      managers := managers[groupName := m.value];
      todo := todo - {groupName};
    }

    var policies: map<string, P> := map[];
    todo := root.policies.Keys;
    while todo != {}
      invariant todo <= root.policies.Keys && policies.Keys == root.policies.Keys - todo
      invariant forall k | k in policies :: Compile(compile, root.policies[k], managers) == Some(policies[k])
    {
      var policyName :| policyName in todo;
      var cPolicy := Compile(compile, root.policies[policyName], managers);
      if cPolicy.None? {
        if PlainNames(root) {
          BuildNonePolicy(path, compile, root, managers, policyName);
        }
        return None;
      }
      policies := policies[policyName := cPolicy.value];
      todo := todo - {policyName};
    }

    if PlainNames(root) {
      BuildSome(path, compile, root, managers, policies);
    }
    ghost var own := policies;
    policies := AddInherited(policies, managers);
    IsManaged(path, compile, root, managers, own, policies);
    OwnCompiled(compile, root, managers, own);
    OwnIndexed(root, managers, own, policies);
    return Some(Manager(path, policies, managers));
  }

  lemma OwnCompiled<P>(compile: Compiler<P>, root: ConfigGroup, managers: map<string, Manager<P>>, own: map<string, P>)
    requires own.Keys == root.policies.Keys
    requires forall k | k in root.policies :: Compile(compile, root.policies[k], managers) == Some(own[k])
    ensures forall k | k in root.policies ::
              root.policies[k].policy.Some? && compile(root.policies[k].policy.value, managers) == Some(own[k])
  {
  }

  /** No path of a sub-manager's policy is a plain name, so it takes no place from the group's own policies. */
  lemma OwnIndexed<P>(root: ConfigGroup, managers: map<string, Manager<P>>, own: map<string, P>,
                      policies: map<string, P>)
    requires own.Keys == root.policies.Keys && Indexes(own, managers, policies)
    ensures forall k | k in own :: k in policies
    ensures forall k | k in own && (PlainNames(root) || !InheritedName(managers, k)) :: policies[k] == own[k]
  {
    hide Indexes;
    forall k | InheritedName(managers, k)
      ensures !SlashFree(k)
    {
      var g, p :| Inherits(managers, k, g, p);
      SlashedNotPlain(g, p);
    }
    IndexesOwn(own, managers, policies);
  }

  lemma IndexesOwn<P>(own: map<string, P>, managers: map<string, Manager<P>>, policies: map<string, P>)
    requires Indexes(own, managers, policies)
    ensures forall k | k in own :: k in policies && (!InheritedName(managers, k) ==> policies[k] == own[k])
  {
    hide InheritedName;
  }

  lemma SlashedNotPlain(g: string, p: string)
    ensures !SlashFree(Slashed(g, p))
  {
    assert Slashed(g, p)[|g|] == '/';
  }

  /** The last loops of NewManagerImpl. */
  method AddInherited<P>(own: map<string, P>, managers: map<string, Manager<P>>) returns (policies: map<string, P>)
    ensures Indexes(own, managers, policies)
    ensures (forall g | g in managers :: SlashFree(g)) ==> policies == own + Inherited(managers)
  {
    hide Inherited, Prefixed, Indexes;
    ghost var plain := forall g | g in managers :: SlashFree(g);
    policies := own;
    var todo := managers.Keys;
    InheritedNone<P>();
    assert managers - todo == map[];
    IndexesNone(own);
    while todo != {}
      invariant todo <= managers.Keys
      invariant Indexes(own, managers - todo, policies)
      invariant plain ==> policies == own + Inherited(managers - todo)
    {
      var groupName :| groupName in todo;
      IndexesStep(own, managers, todo, groupName, policies);
      policies := AddPrefixed(policies, groupName, managers[groupName].policies);
      if plain {
        InheritedAdd(managers, todo, groupName);
      }
      todo := todo - {groupName};
    }
    assert managers - {} == managers;
  }

  method AddPrefixed<P>(before: map<string, P>, groupName: string, added: map<string, P>)
    returns (policies: map<string, P>)
    ensures policies == before + Prefixed(groupName, added)
  {
    policies := before;
    var todo := added.Keys;
    PrefixedNone<P>(groupName);
    hide Prefixed, Slashed;
    assert added - todo == map[];
    while todo != {}
      invariant todo <= added.Keys
      invariant policies == before + Prefixed(groupName, added - todo)
    {
      var policyName :| policyName in todo;
      policies := policies[Slashed(groupName, policyName) := added[policyName]];
      PrefixedAdd(groupName, added, todo, policyName);
      todo := todo - {policyName};
    }
    assert added - {} == added;
  }

  lemma SlashedPolicies(g: string)
    ensures forall p, q :: Slashed(g, p) == Slashed(g, q) ==> p == q
  {
    forall p, q | Slashed(g, p) == Slashed(g, q)
      ensures p == q
    {
      assert p == Slashed(g, p)[|g| + 1..] && q == Slashed(g, q)[|g| + 1..];
    }
  }

  /** The policies of one child manager, under their path from here. */
  function Prefixed<P>(group: string, policies: map<string, P>): map<string, P> {
    SlashedPolicies(group);
    map p | p in policies :: Slashed(group, p) := policies[p]
  }

  lemma PrefixedNone<P>(group: string)
    ensures Prefixed<P>(group, map[]) == map[]
  {
  }

  lemma PrefixedHas<P>(group: string, policies: map<string, P>, p: string)
    ensures Slashed(group, p) in Prefixed(group, policies) <==> p in policies
    ensures p in policies ==> Prefixed(group, policies)[Slashed(group, p)] == policies[p]
  {
    hide Slashed;
    SlashedPolicies(group);
  }

  lemma PrefixedFrom<P>(group: string, policies: map<string, P>, s: string) returns (p: string)
    requires s in Prefixed(group, policies)
    ensures p in policies && s == Slashed(group, p)
  {
    p :| p in policies && s == Slashed(group, p);
  }

  lemma PrefixedAdd<P>(group: string, policies: map<string, P>, todo: set<string>, p: string)
    requires p in todo && todo <= policies.Keys
    ensures Prefixed(group, policies - (todo - {p})) ==
              Prefixed(group, policies - todo)[Slashed(group, p) := policies[p]]
  {
    hide Slashed, Prefixed;
    var x, y := Prefixed(group, policies - (todo - {p})), Prefixed(group, policies - todo);
    PrefixedHas(group, policies - (todo - {p}), p);
    forall s | s in x
      ensures s == Slashed(group, p) || (s in y && y[s] == x[s])
    {
      var q := PrefixedFrom(group, policies - (todo - {p}), s);
      PrefixedHas(group, policies - (todo - {p}), q);
      PrefixedHas(group, policies - todo, q);
    }
    forall s | s in y
      ensures s in x
    {
      var q := PrefixedFrom(group, policies - todo, s);
      PrefixedHas(group, policies - (todo - {p}), q);
    }
  }

  lemma InheritedHas<P>(managers: map<string, Manager<P>>, g: string, p: string)
    requires (forall h | h in managers :: SlashFree(h)) && SlashFree(g)
    ensures Slashed(g, p) in Inherited(managers) <==> g in managers && p in managers[g].policies
    ensures g in managers && p in managers[g].policies ==> Inherited(managers)[Slashed(g, p)] == managers[g].policies[p]
  {
    if Slashed(g, p) in Inherited(managers) {
      var h, q := InheritedFrom(managers, Slashed(g, p));
      SlashedInjective(g, p, h, q);
    }
    hide Slashed;
    InheritedKeys(managers);
    assert g in managers && p in managers[g].policies ==> ChildPolicy(g, p) in ChildPolicies(managers);
  }

  lemma InheritedFrom<P>(managers: map<string, Manager<P>>, s: string) returns (g: string, p: string)
    requires forall h | h in managers :: SlashFree(h)
    requires s in Inherited(managers)
    ensures g in managers && p in managers[g].policies && s == Slashed(g, p)
  {
    var entries := ChildPolicies(managers);
    assert Inherited(managers).Keys == (set e | e in entries :: Slashed(e.group, e.policy));
    assert s in Inherited(managers).Keys;
    var e :| e in entries && s == Slashed(e.group, e.policy);
    g, p := e.group, e.policy;
  }

  lemma InheritedNone<P>()
    ensures Inherited<P>(map[]) == map[]
  {
    assert ChildPolicies<P>(map[]) == {};
  }

  lemma InheritedAdd<P>(managers: map<string, Manager<P>>, todo: set<string>, g: string)
    requires forall h | h in managers :: SlashFree(h)
    requires g in todo && todo <= managers.Keys
    ensures Inherited(managers - (todo - {g})) == Inherited(managers - todo) + Prefixed(g, managers[g].policies)
  {
    hide Slashed, Inherited, Prefixed;
    var x, y, z := Inherited(managers - (todo - {g})), Inherited(managers - todo), Prefixed(g, managers[g].policies);
    forall s | s in x
      ensures s in y + z && (y + z)[s] == x[s]
    {
      var h, p := InheritedFrom(managers - (todo - {g}), s);
      InheritedHas(managers - (todo - {g}), h, p);
      InheritedHas(managers - todo, h, p);
      PrefixedHas(g, managers[g].policies, p);
      if s in z {
        var q := PrefixedFrom(g, managers[g].policies, s);
        SlashedInjective(g, q, h, p);
      }
    }
    forall s | s in y
      ensures s in x
    {
      var h, p := InheritedFrom(managers - todo, s);
      InheritedHas(managers - (todo - {g}), h, p);
    }
    forall s | s in z
      ensures s in x
    {
      var p := PrefixedFrom(g, managers[g].policies, s);
      InheritedHas(managers - (todo - {g}), g, p);
    }
  }

  // ---------- Lookup ----------

  /** What GetPolicy returns; slicing the identifier past its end panics. */
  datatype Lookup<P> = Found(policy: P, name: string) | Rejected | Panics

  /** The sub-manager reached by following the names one by one. */
  function Walk<P>(m: Manager<P>, path: seq<string>): Option<Manager<P>>
    decreases |path|
  {
    if |path| == 0 then Some(m)
    else if path[0] !in m.managers then None
    else Walk(m.managers[path[0]], path[1..])
  }

  function GetPolicy<P>(m: Manager<P>, id: string): Lookup<P> {
    if id == "" then Rejected
    else if "/" <= id then
      if !("/" + m.path <= id) then Rejected
      else if 1 + |m.path| + 1 > |id| then Panics
      else Find(m, id[1 + |m.path| + 1..])
    else Find(m, id)
  }

  function Find<P>(m: Manager<P>, relpath: string): Lookup<P> {
    if relpath !in m.policies then Rejected
    else Found(m.policies[relpath], "/" + m.path + "/" + relpath)
  }

  // ---------- The index agrees with the walk ----------

  lemma JoinSlashed(p: seq<string>, name: string)
    requires p != []
    ensures Join(p + [name]) == Slashed(p[0], Join(p[1..] + [name]))
  {
    assert (p + [name])[1..] == p[1..] + [name];
  }

  lemma {:induction false} IndexWalk<P>(path: string, compile: Compiler<P>, root: ConfigGroup, p: seq<string>,
                                        name: string)
    requires PlainNames(root) && Build(path, compile, root).Some?
    requires AllSlashFree(p)
    ensures var m := Build(path, compile, root).value;
            var id, sub := Join(p + [name]), Walk(m, p);
            && (id in m.policies <==> sub.Some? && name in sub.value.policies)
            && (id in m.policies ==> m.policies[id] == sub.value.policies[name])
            && (sub.Some? ==> sub.value.path == path + Rooted(p))
    decreases p
  {
    hide Build, Inherited;
    var m := Build(path, compile, root).value;
    BuildParts(path, compile, root);
    if p == [] {
      assert p + [name] == [name];
    } else {
      var rest := Join(p[1..] + [name]);
      JoinSlashed(p, name);
      SlashedNotPlain(p[0], rest);
      InheritedHas(m.managers, p[0], rest);
      if p[0] in m.managers {
        IndexWalk(Slashed(path, p[0]), compile, root.groups[p[0]], p[1..], name);
        assert Slashed(path, p[0]) + Rooted(p[1..]) == path + Rooted(p);
      }
    }
  }

  /** The joined names are no absolute identifier and not empty. */
  predicate RelativePath(p: seq<string>, name: string) {
    AllSlashFree(p) && name != "" && name[0] != '/' && (p != [] ==> p[0] != "")
  }

  lemma JoinRelative(p: seq<string>, name: string)
    requires RelativePath(p, name)
    ensures var id := Join(p + [name]); id != "" && id[0] != '/'
  {
    if p == [] {
      assert p + [name] == [name];
    } else {
      JoinSlashed(p, name);
      assert Slashed(p[0], Join(p[1..] + [name]))[0] == p[0][0];
    }
  }

  /** Looking a joined path up in the index is the same as walking to the manager and asking there. */
  lemma IndexAgreesWithWalk<P>(path: string, compile: Compiler<P>, root: ConfigGroup, p: seq<string>, name: string)
    requires PlainNames(root) && Build(path, compile, root).Some?
    requires RelativePath(p, name)
    ensures var m := Build(path, compile, root).value;
            var sub := Walk(m, p);
            GetPolicy(m, Join(p + [name])) == if sub.None? then Rejected else GetPolicy(sub.value, name)
  {
    hide Build;
    IndexWalk(path, compile, root, p, name);
    BuildParts(path, compile, root);
    JoinRelative(p, name);
    SameFullName(path, p, name);
    hide Join, Rooted;
  }

  /** Following group names leads to the manager built for that group, and fails where there is no such group. */
  lemma {:induction false} WalkBuilds<P>(path: string, compile: Compiler<P>, root: ConfigGroup, p: seq<string>)
    requires PlainNames(root) && Build(path, compile, root).Some?
    ensures var sub, group := Walk(Build(path, compile, root).value, p), At(root, Address(GroupKind, p));
            && (sub.Some? <==> group.Some?)
            && (group.Some? ==>
                  PlainNames(group.value.group) && sub == Build(path + Rooted(p), compile, group.value.group))
    decreases p
  {
    hide Build, Inherited;
    BuildParts(path, compile, root);
    if p == [] {
      assert path + Rooted(p) == path;
    } else if p[0] in root.groups {
      WalkBuilds(Slashed(path, p[0]), compile, root.groups[p[0]], p[1..]);
      assert Slashed(path, p[0]) + Rooted(p[1..]) == path + Rooted(p);
    }
  }

  /** A manager answers for the names of its own policies, each compiled against its sub-managers. */
  lemma OwnPolicy<P>(path: string, compile: Compiler<P>, root: ConfigGroup, k: string)
    requires PlainNames(root) && Build(path, compile, root).Some? && SlashFree(k)
    ensures var m := Build(path, compile, root).value;
            && (k in m.policies <==> k in root.policies)
            && (k in m.policies ==>
                  && root.policies[k].policy.Some?
                  && compile(root.policies[k].policy.value, m.managers) == Some(m.policies[k]))
  {
    hide Build, Inherited, Slashed;
    var m := Build(path, compile, root).value;
    BuildParts(path, compile, root);
    if k in Inherited(m.managers) {
      var g, q := InheritedFrom(m.managers, k);
      SlashedNotPlain(g, q);
    }
  }

  /** GetPolicy finds a group's policies by name, as the constructor compiled them. */
  lemma OwnPolicyFound<P>(path: string, compile: Compiler<P>, root: ConfigGroup, k: string)
    requires PlainNames(root) && Build(path, compile, root).Some? && k in root.policies && k != ""
    ensures var m := Build(path, compile, root).value;
            var found := GetPolicy(m, k);
            && found.Found? && found.name == "/" + path + "/" + k
            && root.policies[k].policy.Some?
            && compile(root.policies[k].policy.value, m.managers) == Some(found.policy)
  {
    hide Build;
    OwnPolicy(path, compile, root, k);
    BuildParts(path, compile, root);
    assert k[0] in k;
  }

  /** The index holds the compiled policies of the whole tree, each under the names that lead to it, and no others. */
  lemma IndexExact<P>(path: string, compile: Compiler<P>, root: ConfigGroup, p: seq<string>, name: string)
    requires PlainNames(root) && Build(path, compile, root).Some?
    requires AllSlashFree(p) && SlashFree(name)
    ensures var m, at := Build(path, compile, root).value, At(root, Address(PolicyKind, p + [name]));
            var id, group := Join(p + [name]), At(root, Address(GroupKind, p));
            && (id in m.policies <==> at.Some?)
            && (at.Some? ==>
                  && group.Some? && PlainNames(group.value.group)
                  && Build(path + Rooted(p), compile, group.value.group).Some?
                  && var sub := Build(path + Rooted(p), compile, group.value.group).value;
                     && at.value.policy.policy.Some?
                     && compile(at.value.policy.policy.value, sub.managers) == Some(m.policies[id]))
  {
    hide Build, Join, Rooted, At;
    WalkBuilds(path, compile, root, p);
    IndexWalk(path, compile, root, p, name);
    AtChild(root, p, PolicyKind, name);
    var group := At(root, Address(GroupKind, p));
    if group.Some? {
      OwnPolicy(path + Rooted(p), compile, group.value.group, name);
    }
  }

  lemma SameFullName(path: string, p: seq<string>, name: string)
    ensures "/" + path + "/" + Join(p + [name]) == "/" + (path + Rooted(p)) + "/" + name
  {
    JoinRooted(p + [name]);
    RootedAppend(p, name);
    hide Join, Rooted;
    assert "/" + path + "/" + Join(p + [name]) == "/" + path + ("/" + Join(p + [name]));
    assert "/" + (path + Rooted(p)) + "/" + name == "/" + path + (Rooted(p) + "/" + name);
  }

  /** The manager's absolute path, one more character, and a relative identifier. */
  function Absolute(path: string, separator: char, rel: string): string {
    "/" + path + [separator] + rel
  }

  lemma AbsoluteFind<P>(m: Manager<P>, separator: char, rel: string)
    ensures GetPolicy(m, Absolute(m.path, separator, rel)) == Find(m, rel)
  {
    var id := Absolute(m.path, separator, rel);
    assert "/" + m.path == id[..1 + |m.path|];
    assert id[1 + |m.path| + 1..] == rel;
  }

  /** An absolute identifier below the manager's own path means the relative one, whatever separates the two. */
  lemma AbsoluteAgreesWithRelative<P>(m: Manager<P>, separator: char, rel: string)
    requires rel != "" && rel[0] != '/'
    ensures GetPolicy(m, Absolute(m.path, separator, rel)) == GetPolicy(m, rel)
  {
    AbsoluteFind(m, separator, rel);
  }

  /** The absolute identifiers that are found: any character may stand where the slash is expected. */
  lemma AbsoluteFoundIff<P>(m: Manager<P>, id: string)
    requires "/" <= id
    ensures GetPolicy(m, id).Found? <==>
              exists separator, rel :: rel in m.policies && id == Absolute(m.path, separator, rel)
    ensures forall separator, rel | rel in m.policies && id == Absolute(m.path, separator, rel) ::
              GetPolicy(m, id) == Found(m.policies[rel], "/" + m.path + "/" + rel)
  {
    if GetPolicy(m, id).Found? {
      var n := 1 + |m.path|;
      assert id == Absolute(m.path, id[n], id[n + 1..]);
    }
    forall separator, rel | rel in m.policies && id == Absolute(m.path, separator, rel)
      ensures GetPolicy(m, id) == Found(m.policies[rel], "/" + m.path + "/" + rel)
    {
      AbsoluteFind(m, separator, rel);
    }
  }

  /** The lookup panics on exactly one identifier: the manager's own absolute path. */
  lemma GetPolicyPanicsIff<P>(m: Manager<P>, id: string)
    ensures GetPolicy(m, id).Panics? <==> id == "/" + m.path
  {
    if GetPolicy(m, id).Panics? {
      assert id == ("/" + m.path) + id[1 + |m.path|..];
    }
  }
}
