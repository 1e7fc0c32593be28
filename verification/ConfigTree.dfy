/** Channel configuration trees, their element names, and positions in a tree. */
module ConfigTree {
  import opened Wrappers
  import opened Paths

  type uint64 = v: int | 0 <= v < 0x1_0000_0000_0000_0000

  const MAX_UINT64: uint64 := 0xFFFF_FFFF_FFFF_FFFF

  /** v + 1 on 64 bits. */
  function Successor(v: uint64): uint64 {
    if v == MAX_UINT64 then 0 else v + 1
  }

  datatype RawPolicy = RawPolicy(kind: int, value: seq<bv8>)

  datatype ConfigValue = ConfigValue(version: uint64, value: seq<bv8>, modPolicy: string)

  datatype ConfigPolicy = ConfigPolicy(version: uint64, policy: Option<RawPolicy>, modPolicy: string)

  datatype ConfigGroup = ConfigGroup(
    version: uint64,
    groups: map<string, ConfigGroup>,
    values: map<string, ConfigValue>,
    policies: map<string, ConfigPolicy>,
    modPolicy: string)

  // ---------- Names ----------

  const MAX_LENGTH := 249

  /** The character class [a-zA-Z0-9.-]. */
  predicate ConfigChar(c: char) {
    'a' <= c <= 'z' || 'A' <= c <= 'Z' || '0' <= c <= '9' || c == '.' || c == '-'
  }

  /** The character classes [a-z] and [a-z0-9.-]. */
  predicate Lower(c: char) {
    'a' <= c <= 'z'
  }

  predicate ChannelChar(c: char) {
    Lower(c) || '0' <= c <= '9' || c == '.' || c == '-'
  }

  /** The longest prefix of s whose characters are all in the class. */
  function LeadingRun(class_: char -> bool, s: string): string {
    if s == "" || !class_(s[0]) then "" else [s[0]] + LeadingRun(class_, s[1..])
  }

  /** Regexp.FindString for one character of head followed by any number from tail: the leftmost longest match. */
  function FindString(head: char -> bool, tail: char -> bool, s: string): string {
    if s == "" then "" else if head(s[0]) then [s[0]] + LeadingRun(tail, s[1..]) else FindString(head, tail, s[1..])
  }

  lemma {:induction false} LeadingRunLength(class_: char -> bool, s: string)
    ensures |LeadingRun(class_, s)| <= |s|
    ensures |LeadingRun(class_, s)| == |s| <==> forall i | 0 <= i < |s| :: class_(s[i])
  {
    if s != "" && class_(s[0]) {
      LeadingRunLength(class_, s[1..]);
      assert forall i | 0 < i < |s| :: s[i] == s[1..][i - 1];
      assert forall i | 0 <= i < |s[1..]| :: s[1..][i] == s[i + 1];
    }
  }

  /** The unanchored search matches the whole of a string exactly when the anchored one would. */
  lemma {:induction false} FindStringLength(head: char -> bool, tail: char -> bool, s: string)
    ensures |FindString(head, tail, s)| <= |s|
    ensures |FindString(head, tail, s)| == |s| <==>
            s == "" || (head(s[0]) && forall i | 0 < i < |s| :: tail(s[i]))
  {
    if s != "" {
      LeadingRunLength(tail, s[1..]);
      assert forall i | 0 < i < |s| :: s[i] == s[1..][i - 1];
      assert forall i | 0 <= i < |s[1..]| :: s[1..][i] == s[i + 1];
      if !head(s[0]) {
        FindStringLength(head, tail, s[1..]);
      }
    }
  }

  /** validateConfigID returns no error. */
  predicate ValidConfigID(id: string) {
    && 0 < |id| <= MAX_LENGTH
    && id != "." && id != ".."
    && |FindString(ConfigChar, ConfigChar, id)| == |id|
  }

  lemma ValidConfigIDIff(id: string)
    ensures ValidConfigID(id) <==>
            (0 < |id| <= 249 && id != "." && id != ".." && forall i | 0 <= i < |id| :: ConfigChar(id[i]))
    ensures ValidConfigID(id) ==> SlashFree(id)
  {
    FindStringLength(ConfigChar, ConfigChar, id);
  }

  /** validateChannelID returns no error. */
  predicate ValidChannelID(id: string) {
    && 0 < |id| <= MAX_LENGTH
    && |FindString(Lower, ChannelChar, id)| == |id|
  }

  lemma ValidChannelIDIff(id: string)
    ensures ValidChannelID(id) <==>
            (0 < |id| <= 249 && Lower(id[0]) && forall i | 0 < i < |id| :: ChannelChar(id[i]))
  {
    FindStringLength(Lower, ChannelChar, id);
  }

  /** Every element name of the tree is valid. */
  predicate ValidNames(g: ConfigGroup)
    decreases g
  {
    && (forall k | k in g.groups :: ValidConfigID(k) && ValidNames(g.groups[k]))
    && (forall k | k in g.values :: ValidConfigID(k))
    && (forall k | k in g.policies :: ValidConfigID(k))
  }

  // ---------- Elements and their positions ----------

  datatype Kind = GroupKind | ValueKind | PolicyKind

  datatype Node =
    | GroupNode(group: ConfigGroup)
    | ValueNode(value: ConfigValue)
    | PolicyNode(policy: ConfigPolicy)
  {
    function Kind(): Kind {
      match this
      case GroupNode(_) => GroupKind
      case ValueNode(_) => ValueKind
      case PolicyNode(_) => PolicyKind
    }

    function Version(): uint64 {
      match this
      case GroupNode(g) => g.version
      case ValueNode(v) => v.version
      case PolicyNode(p) => p.version
    }

    function ModPolicy(): string {
      match this
      case GroupNode(g) => g.modPolicy
      case ValueNode(v) => v.modPolicy
      case PolicyNode(p) => p.modPolicy
    }
  }

  /** The names leading from the root group, which has the empty list, to an element. */
  datatype Address = Address(kind: Kind, names: seq<string>)

  /** The element at an address. */
  function At(g: ConfigGroup, a: Address): (node: Option<Node>)
    ensures node.Some? ==> node.value.Kind() == a.kind
    decreases g
  {
    if |a.names| == 0 then
      if a.kind.GroupKind? then Some(GroupNode(g)) else None
    else if |a.names| == 1 && a.kind.ValueKind? then
      if a.names[0] in g.values then Some(ValueNode(g.values[a.names[0]])) else None
    else if |a.names| == 1 && a.kind.PolicyKind? then
      if a.names[0] in g.policies then Some(PolicyNode(g.policies[a.names[0]])) else None
    else if a.names[0] in g.groups then
      At(g.groups[a.names[0]], Address(a.kind, a.names[1..]))
    else
      None
  }

  predicate Present(g: ConfigGroup, a: Address) {
    At(g, a).Some?
  }

  /** All addresses at which the tree has an element. */
  function Addresses(g: ConfigGroup): set<Address>
    decreases g, 1
  {
    LocalAddresses(g) + DeepAddresses(g)
  }

  function LocalAddresses(g: ConfigGroup): set<Address> {
    {Address(GroupKind, [])}
    + (set k | k in g.values :: Address(ValueKind, [k]))
    + (set k | k in g.policies :: Address(PolicyKind, [k]))
  }

  function DeepAddresses(g: ConfigGroup): set<Address>
    decreases g, 0
  {
    set k, a | k in g.groups && a in Addresses(g.groups[k]) :: Address(a.kind, [k] + a.names)
  }

  lemma DeepAddressesIff(g: ConfigGroup, a: Address)
    ensures a in DeepAddresses(g) <==>
            (a.names != [] && a.names[0] in g.groups
             && Address(a.kind, a.names[1..]) in Addresses(g.groups[a.names[0]]))
  {
    if a in DeepAddresses(g) {
      var k, b :| k in g.groups && b in Addresses(g.groups[k]) && a == Address(b.kind, [k] + b.names);
      assert b == Address(a.kind, a.names[1..]);
    }
    if a.names != [] && a.names[0] in g.groups {
      var k, b := a.names[0], Address(a.kind, a.names[1..]);
      if b in Addresses(g.groups[k]) {
        assert a == Address(b.kind, [k] + b.names);
      }
    }
  }

  lemma LocalAddressesIff(g: ConfigGroup, a: Address)
    ensures a in LocalAddresses(g) <==>
            (|a.names| == 0 && a.kind.GroupKind?)
            || (|a.names| == 1 && a.kind.ValueKind? && a.names[0] in g.values)
            || (|a.names| == 1 && a.kind.PolicyKind? && a.names[0] in g.policies)
  {
    assert |a.names| == 1 ==> a.names == [a.names[0]];
  }

  lemma {:induction false} AddressesIff(g: ConfigGroup, a: Address)
    ensures a in Addresses(g) <==> Present(g, a)
    decreases g
  {
    LocalAddressesIff(g, a);
    DeepAddressesIff(g, a);
    if a.names != [] && a.names[0] in g.groups {
      AddressesIff(g.groups[a.names[0]], Address(a.kind, a.names[1..]));
    }
  }

  /** Appending one more name to the address of a group. */
  function Child(names: seq<string>, kind: Kind, name: string): Address {
    Address(kind, names + [name])
  }

  /** One step down from a group. */
  predicate Lists(g: ConfigGroup, kind: Kind, name: string) {
    match kind
    case GroupKind => name in g.groups
    case ValueKind => name in g.values
    case PolicyKind => name in g.policies
  }

  function ChildNode(g: ConfigGroup, kind: Kind, name: string): Node
    requires Lists(g, kind, name)
  {
    match kind
    case GroupKind => GroupNode(g.groups[name])
    case ValueKind => ValueNode(g.values[name])
    case PolicyKind => PolicyNode(g.policies[name])
  }

  /** An element is present exactly when its parent group is and lists it. */
  lemma {:induction false} AtChild(g: ConfigGroup, names: seq<string>, kind: Kind, name: string)
    ensures var parent := At(g, Address(GroupKind, names));
            At(g, Child(names, kind, name)) ==
            if parent.Some? && Lists(parent.value.group, kind, name)
            then Some(ChildNode(parent.value.group, kind, name)) else None
    decreases names
  {
    if names == [] {
      assert Child(names, kind, name).names == [name];
      if kind.GroupKind? && name in g.groups {
        assert [name][1..] == [];
      }
    } else {
      assert (names + [name])[1..] == names[1..] + [name];
      assert (names + [name])[0] == names[0];
      if names[0] in g.groups {
        AtChild(g.groups[names[0]], names[1..], kind, name);
      }
    }
  }

  /** Names along any present address are valid. */
  lemma {:induction false} AddressNamesValid(g: ConfigGroup, a: Address)
    requires ValidNames(g) && Present(g, a)
    ensures forall i | 0 <= i < |a.names| :: ValidConfigID(a.names[i])
    ensures AllSlashFree(a.names)
    decreases a.names
  {
    if |a.names| > 0 {
      ValidConfigIDIff(a.names[0]);
      if !(|a.names| == 1 && !a.kind.GroupKind?) {
        AddressNamesValid(g.groups[a.names[0]], Address(a.kind, a.names[1..]));
      }
      assert a.names == [a.names[0]] + a.names[1..];
    }
  }

  // ---------- Own content ----------

  /** What an element says itself: a group names its children but does not contain them. */
  datatype Element =
    | GroupElement(version: uint64, groupNames: set<string>, valueNames: set<string>, policyNames: set<string>,
                   modPolicy: string)
    | ValueElement(version: uint64, bytes: seq<bv8>, modPolicy: string)
    | PolicyElement(version: uint64, rule: Option<RawPolicy>, modPolicy: string)

  function Own(n: Node): Element {
    match n
    case GroupNode(g) => GroupElement(g.version, g.groups.Keys, g.values.Keys, g.policies.Keys, g.modPolicy)
    case ValueNode(v) => ValueElement(v.version, v.value, v.modPolicy)
    case PolicyNode(p) => PolicyElement(p.version, p.policy, p.modPolicy)
  }

  function OwnAt(g: ConfigGroup, a: Address): Option<Element> {
    match At(g, a)
    case Some(n) => Some(Own(n))
    case None => None
  }

  lemma SubtreeOwn(g: ConfigGroup, k: string, a: Address)
    requires k in g.groups
    ensures a.names == [] && !a.kind.GroupKind? ==> OwnAt(g.groups[k], a) == None
    ensures !(a.names == [] && !a.kind.GroupKind?) ==> OwnAt(g.groups[k], a) == OwnAt(g, Address(a.kind, [k] + a.names))
  {
    assert ([k] + a.names)[1..] == a.names;
  }
}
