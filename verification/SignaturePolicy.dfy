/** Compilation and greedy evaluation of signature policies (common/cauthdsl/cauthdsl.go). */
module SignaturePolicy {
  import opened Wrappers
  import opened Sequences

  datatype Identity = Identity(mspid: string, id: string)
  {
    /** The map key by which duplicates are recognised. */
    function Key(): string {
      mspid + id
    }
  }

  /** A signature with its identity, None when that does not deserialise, and whether it verifies. */
  datatype Signed = Signed(identity: Option<Identity>, verifies: bool)

  // ---------- Removing duplicates ----------

  /** The signature at i is the first one with its key. */
  predicate First(sds: seq<Signed>, i: nat)
    requires i < |sds|
  {
    && sds[i].identity.Some?
    && forall j | 0 <= j < i && sds[j].identity.Some? :: sds[j].identity.value.Key() != sds[i].identity.value.Key()
  }

  /** The first signatures of each key among the first n, in order. */
  function Firsts(sds: seq<Signed>, n: nat): (r: seq<Signed>)
    requires n <= |sds|
    ensures |r| <= n && forall k | 0 <= k < |r| :: r[k].identity.Some?
  {
    if n == 0 then []
    else if First(sds, n - 1) then Firsts(sds, n - 1) + [sds[n - 1]]
    else Firsts(sds, n - 1)
  }

  predicate DistinctKeys(r: seq<Signed>) {
    && (forall k | 0 <= k < |r| :: r[k].identity.Some?)
    && forall j, k | 0 <= j < k < |r| ::
         r[j].identity.value.mspid + r[j].identity.value.id != r[k].identity.value.mspid + r[k].identity.value.id
  }

  function Keys(sds: seq<Signed>, n: nat): set<string>
    requires n <= |sds|
  {
    set i | 0 <= i < n && sds[i].identity.Some? :: sds[i].identity.value.Key()
  }

  /** What remains has pairwise distinct keys, and the same keys as before. */
  lemma {:induction false} FirstsDistinct(sds: seq<Signed>, n: nat)
    requires n <= |sds|
    ensures DistinctKeys(Firsts(sds, n))
    ensures Keys(Firsts(sds, n), |Firsts(sds, n)|) == Keys(sds, n)
  {
    if n > 0 {
      FirstsDistinct(sds, n - 1);
      var rest, r := Firsts(sds, n - 1), Firsts(sds, n);
      var last := sds[n - 1];
      if First(sds, n - 1) {
        var key := last.identity.value.Key();
        assert key !in Keys(sds, n - 1);
        forall k | 0 <= k < |rest|
          ensures rest[k].identity.value.Key() != key
        {
          assert rest[k].identity.value.Key() in Keys(rest, |rest|);
        }
        assert Keys(r, |r|) == Keys(rest, |rest|) + {key} by {
          assert forall k | 0 <= k < |rest| :: r[k] == rest[k];
          assert r[|rest|] == last;
        }
        assert Keys(sds, n) == Keys(sds, n - 1) + {key};
      } else {
        assert Keys(sds, n) == Keys(sds, n - 1);
      }
    }
  }

  method Deduplicate(sds: seq<Signed>) returns (result: seq<Signed>)
    ensures result == Firsts(sds, |sds|)
  {
    var ids: set<string> := {};
    result := [];
    for i := 0 to |sds|
      invariant ids == Keys(sds, i)
      invariant result == Firsts(sds, i)
    {
      if sds[i].identity.None? {
        assert Keys(sds, i + 1) == Keys(sds, i);
        continue;
      }
      var key := sds[i].identity.value.Key();
      assert Keys(sds, i + 1) == Keys(sds, i) + {key};
      if key !in ids {
        result := result + [sds[i]];
        ids := ids + {key};
      }
    }
  }

  // ---------- Compilation ----------

  datatype Policy = SignedBy(index: int) | NOutOf(n: int, rules: seq<Option<Policy>>) | UnknownType

  /** The closures that compile returns, for principals of type P. */
  datatype Evaluator<P> = Leaf(principal: P) | Gate(n: int, rules: seq<Evaluator<P>>)

  function Compile<P>(policy: Option<Policy>, identities: seq<P>): Option<Evaluator<P>>
    decreases policy, 1
  {
    if policy.None? then None
    else
      match policy.value
      case SignedBy(index) => if index < 0 || index >= |identities| then None else Some(Leaf(identities[index]))
      case NOutOf(n, rules) =>
        var compiled := CompileRules(policy.value, |rules|, identities);
        if compiled.None? then None else Some(Gate(n, compiled.value))
      case UnknownType => None
  }

  function CompileRules<P>(policy: Policy, k: nat, identities: seq<P>): Option<seq<Evaluator<P>>>
    requires policy.NOutOf? && k <= |policy.rules|
    decreases policy, 0, k
  {
    if k == 0 then Some([])
    else
      var rest := CompileRules(policy, k - 1, identities);
      if rest.None? then None
      else
        var rule := Compile(policy.rules[k - 1], identities);
        if rule.None? then None else Some(rest.value + [rule.value])
  }

  /** A policy compiles exactly when it has no empty or unknown part and names only known identities. */
  predicate WellFormed(policy: Option<Policy>, identities: nat)
    decreases policy
  {
    && policy.Some?
    && match policy.value
       case SignedBy(index) => 0 <= index < identities
       case NOutOf(_, rules) => forall i | 0 <= i < |rules| :: WellFormed(rules[i], identities)
       case UnknownType => false
  }

  lemma {:induction false} CompileIff<P>(policy: Option<Policy>, identities: seq<P>)
    ensures Compile(policy, identities).Some? <==> WellFormed(policy, |identities|)
    decreases policy, 1
  {
    if policy.Some? && policy.value.NOutOf? {
      CompileRulesIff(policy.value, |policy.value.rules|, identities);
    }
  }

  lemma {:induction false} CompileRulesIff<P>(policy: Policy, k: nat, identities: seq<P>)
    requires policy.NOutOf? && k <= |policy.rules|
    ensures CompileRules(policy, k, identities).Some? <==>
              forall i | 0 <= i < k :: WellFormed(policy.rules[i], |identities|)
    ensures CompileRules(policy, k, identities).Some? ==> |CompileRules(policy, k, identities).value| == k
    decreases policy, 0, k
  {
    if k > 0 {
      CompileRulesIff(policy, k - 1, identities);
      CompileIff(policy.rules[k - 1], identities);
    }
  }

  // ---------- Evaluation ----------

  /** Whether an identity satisfies a principal. */
  type Satisfies<!P> = (Identity, P) -> bool

  predicate Matches<P>(satisfies: Satisfies<P>, sd: Signed, principal: P) {
    sd.identity.Some? && satisfies(sd.identity.value, principal) && sd.verifies
  }

  /** The first unused signature from i on that matches, or the number of signatures. */
  function FirstMatch<P>(satisfies: Satisfies<P>, principal: P, sds: seq<Signed>, used: seq<bool>, i: nat): (m: nat)
    requires i <= |sds| <= |used|
    ensures i <= m <= |sds|
    ensures m < |sds| ==> !used[m] && Matches(satisfies, sds[m], principal)
    ensures forall j | i <= j < m :: used[j] || !Matches(satisfies, sds[j], principal)
    decreases |sds| - i
  {
    if i == |sds| || (!used[i] && Matches(satisfies, sds[i], principal)) then i
    else FirstMatch(satisfies, principal, sds, used, i + 1)
  }

  datatype Verdict = Verdict(ok: bool, used: seq<bool>)
  datatype Tally = Tally(verified: nat, used: seq<bool>)

  /** The result of a closure, and what it leaves in its used argument. */
  function Eval<P>(satisfies: Satisfies<P>, e: Evaluator<P>, sds: seq<Signed>, used: seq<bool>): (v: Verdict)
    requires |sds| <= |used|
    ensures |v.used| == |used|
    decreases e, 1, 0
  {
    match e
    case Leaf(principal) =>
      var m := FirstMatch(satisfies, principal, sds, used, 0);
      if m < |sds| then Verdict(true, used[m := true]) else Verdict(false, used)
    case Gate(n, rules) =>
      var tally := EvalRules(satisfies, e, |rules|, sds, used);
      Verdict(tally.verified >= n, tally.used)
  }

  /** A gate after its first k rules: a failed rule's marks are dropped with the copy it worked on. */
  function EvalRules<P>(satisfies: Satisfies<P>, e: Evaluator<P>, k: nat, sds: seq<Signed>, used: seq<bool>): (t: Tally)
    requires e.Gate? && k <= |e.rules| && |sds| <= |used|
    ensures |t.used| == |used|
    decreases e, 0, k
  {
    if k == 0 then Tally(0, used)
    else
      var before := EvalRules(satisfies, e, k - 1, sds, used);
      var v := Eval(satisfies, e.rules[k - 1], sds, before.used);
      if v.ok then Tally(before.verified + 1, v.used) else before
  }

  method CopyInto(dst: array<bool>, src: array<bool>)
    requires dst.Length == src.Length && dst != src
    modifies dst
    ensures dst[..] == src[..]
  {
    forall i | 0 <= i < src.Length {
      dst[i] := src[i];
    }
  }

  /** Calls a compiled closure on a slice of used flags, which it updates in place. */
  method Evaluate<P>(satisfies: Satisfies<P>, e: Evaluator<P>, sds: seq<Signed>, used: array<bool>) returns (ok: bool)
    requires |sds| <= used.Length
    modifies used
    ensures Verdict(ok, used[..]) == Eval(satisfies, e, sds, old(used[..]))
    decreases e
  {
    match e
    case Leaf(principal) =>
      for i := 0 to |sds|
        invariant used[..] == old(used[..])
        invariant FirstMatch(satisfies, principal, sds, used[..], 0) == FirstMatch(satisfies, principal, sds, used[..],
                                                                                   i)
      {
        if used[i] {
          continue;
        }
        if sds[i].identity.None? {
          continue;
        }
        if !satisfies(sds[i].identity.value, principal) {
          continue;
        }
        if !sds[i].verifies {
          continue;
        }
        used[i] := true;
        return true;
      }
      return false;
    case Gate(n, rules) =>
      var verified := 0;
      var copy := new bool[used.Length];
      for k := 0 to |rules|
        invariant Tally(verified, used[..]) == EvalRules(satisfies, e, k, sds, old(used[..]))
      {
        CopyInto(copy, used);
        var rule := Evaluate(satisfies, rules[k], sds, copy);
        if rule {
          verified := verified + 1;
          CopyInto(used, copy);
        }
      }
      return verified >= n;
  }

  // ---------- Soundness: acceptance comes with a one-to-one assignment ----------

  /** For a leaf a signature's position, for a gate the support of some of its rules. */
  datatype Support = LeafSupport(position: nat) | GateSupport(subs: seq<Option<Support>>)

  function CountSome(subs: seq<Option<Support>>, k: nat): nat
    requires k <= |subs|
  {
    if k == 0 then 0 else CountSome(subs, k - 1) + if subs[k - 1].Some? then 1 else 0
  }

  /** Every supported leaf has a valid signature by one who satisfies it; every supported gate, enough of its rules. */
  predicate Supports<P>(satisfies: Satisfies<P>, e: Evaluator<P>, sds: seq<Signed>, w: Support)
    decreases e
  {
    match e
    case Leaf(principal) =>
      && w.LeafSupport? && w.position < |sds|
      && sds[w.position].verifies && sds[w.position].identity.Some?
      && satisfies(sds[w.position].identity.value, principal)
    case Gate(n, rules) =>
      && w.GateSupport? && |w.subs| == |rules|
      && (forall i | 0 <= i < |rules| :: w.subs[i].Some? ==> Supports(satisfies, rules[i], sds, w.subs[i].value))
      && CountSome(w.subs, |w.subs|) >= n
  }

  /** The positions of the leaves in a support, with repetitions. */
  function Positions(w: Support): seq<nat>
    decreases w, 1, 0
  {
    match w
    case LeafSupport(position) => [position]
    case GateSupport(subs) => SubPositions(w, |subs|)
  }

  function SubPositions(w: Support, k: nat): seq<nat>
    requires w.GateSupport? && k <= |w.subs|
    decreases w, 0, k
  {
    if k == 0 then []
    else SubPositions(w, k - 1) + if w.subs[k - 1].Some? then Positions(w.subs[k - 1].value) else []
  }

  /** The positions were free before, are taken once each, and are the only new marks. */
  predicate ExactlyMarks(used: seq<bool>, positions: seq<nat>, used': seq<bool>) {
    && |used| == |used'|
    && NoRepeats(positions)
    && (forall p | p in positions :: p < |used| && !used[p])
    && forall i | 0 <= i < |used| :: used'[i] <==> used[i] || i in positions
  }

  lemma MarksCompose(used: seq<bool>, a: seq<nat>, mid: seq<bool>, b: seq<nat>, used': seq<bool>)
    requires ExactlyMarks(used, a, mid) && ExactlyMarks(mid, b, used')
    ensures ExactlyMarks(used, a + b, used')
  {
    forall i, j | 0 <= i < j < |a + b|
      ensures (a + b)[i] != (a + b)[j]
    {
      if i < |a| <= j {
        assert (a + b)[i] in a && (a + b)[j] in b;
      }
    }
  }

  /** An accepting evaluation has a support whose positions are exactly the newly used ones. */
  lemma {:induction false} EvaluatorSound<P>(satisfies: Satisfies<P>, e: Evaluator<P>, sds: seq<Signed>,
                                             used: seq<bool>)
    returns (w: Support)
    requires |sds| <= |used| && Eval(satisfies, e, sds, used).ok
    ensures Supports(satisfies, e, sds, w)
    ensures ExactlyMarks(used, Positions(w), Eval(satisfies, e, sds, used).used)
    ensures forall p | p in Positions(w) :: p < |sds| && sds[p].identity.Some? && sds[p].verifies
    decreases e, 1, 1
  {
    match e
    case Leaf(principal) =>
      w := LeafSupport(FirstMatch(satisfies, principal, sds, used, 0));
    case Gate(n, rules) =>
      w := RulesSound(satisfies, e, |rules|, sds, used);
      SupportInRange(satisfies, e, sds, w);
  }

  lemma {:induction false} RulesSound<P>(satisfies: Satisfies<P>, e: Evaluator<P>, k: nat, sds: seq<Signed>,
                                         used: seq<bool>)
    returns (w: Support)
    requires e.Gate? && k <= |e.rules| && |sds| <= |used|
    ensures w.GateSupport? && |w.subs| == k
    ensures forall i | 0 <= i < k :: w.subs[i].Some? ==> Supports(satisfies, e.rules[i], sds, w.subs[i].value)
    ensures CountSome(w.subs, k) == EvalRules(satisfies, e, k, sds, used).verified
    ensures ExactlyMarks(used, SubPositions(w, k), EvalRules(satisfies, e, k, sds, used).used)
    decreases e, 0, k
  {
    if k == 0 {
      w := GateSupport([]);
    } else {
      var rest := RulesSound(satisfies, e, k - 1, sds, used);
      var before := EvalRules(satisfies, e, k - 1, sds, used);
      var v := Eval(satisfies, e.rules[k - 1], sds, before.used);
      var sub := None;
      if v.ok {
        var leaf := EvaluatorSound(satisfies, e.rules[k - 1], sds, before.used);
        sub := Some(leaf);
        MarksCompose(used, SubPositions(rest, k - 1), before.used, Positions(leaf), v.used);
      }
      w := GateSupport(rest.subs + [sub]);
      SubPositionsPrefix(rest, w, k - 1);
      CountSomePrefix(rest.subs, w.subs, k - 1);
    }
  }

  lemma {:induction false} SubPositionsPrefix(v: Support, w: Support, k: nat)
    requires v.GateSupport? && w.GateSupport? && k <= |v.subs| && k <= |w.subs| && v.subs[..k] == w.subs[..k]
    ensures SubPositions(v, k) == SubPositions(w, k)
  {
    if k > 0 {
      assert v.subs[..k - 1] == v.subs[..k][..k - 1] && w.subs[..k - 1] == w.subs[..k][..k - 1];
      assert v.subs[k - 1] == v.subs[..k][k - 1] && w.subs[k - 1] == w.subs[..k][k - 1];
      SubPositionsPrefix(v, w, k - 1);
    }
  }

  lemma {:induction false} CountSomePrefix(v: seq<Option<Support>>, w: seq<Option<Support>>, k: nat)
    requires k <= |v| && k <= |w| && v[..k] == w[..k]
    ensures CountSome(v, k) == CountSome(w, k)
  {
    if k > 0 {
      assert v[..k - 1] == v[..k][..k - 1] && w[..k - 1] == w[..k][..k - 1];
      assert v[k - 1] == v[..k][k - 1] && w[k - 1] == w[..k][k - 1];
      CountSomePrefix(v, w, k - 1);
    }
  }

  /** On deduplicated signatures the supporting identities are pairwise different. */
  lemma DistinctSigners<P>(satisfies: Satisfies<P>, e: Evaluator<P>, input: seq<Signed>, used: seq<bool>)
    returns (w: Support)
    requires var sds := Firsts(input, |input|);
             |sds| <= |used| && Eval(satisfies, e, sds, used).ok
    ensures var sds := Firsts(input, |input|);
            && Supports(satisfies, e, sds, w)
            && (forall i | 0 <= i < |Positions(w)| :: Positions(w)[i] < |sds| && sds[Positions(w)[i]].identity.Some?)
            && forall i, j | 0 <= i < j < |Positions(w)| ::
                 var x, y := sds[Positions(w)[i]].identity.value, sds[Positions(w)[j]].identity.value;
                 x.mspid + x.id != y.mspid + y.id
  {
    var sds := Firsts(input, |input|);
    w := EvaluatorSound(satisfies, e, sds, used);
    FirstsDistinct(input, |input|);
    SupportInRange(satisfies, e, sds, w);
    var ps := Positions(w);
    assert forall i | 0 <= i < |ps| :: ps[i] in ps;
    forall i, j | 0 <= i < j < |ps|
      ensures sds[ps[i]].identity.value.Key() != sds[ps[j]].identity.value.Key()
    {
      assert ps[i] != ps[j];
    }
  }

  lemma {:induction false} SupportInRange<P>(satisfies: Satisfies<P>, e: Evaluator<P>, sds: seq<Signed>, w: Support)
    requires Supports(satisfies, e, sds, w)
    ensures forall p | p in Positions(w) :: p < |sds| && sds[p].identity.Some? && sds[p].verifies
    decreases e, 1, 0
  {
    if e.Gate? {
      SubSupportInRange(satisfies, e, sds, w, |e.rules|);
    }
  }

  lemma {:induction false} SubSupportInRange<P>(satisfies: Satisfies<P>, e: Evaluator<P>, sds: seq<Signed>, w: Support,
                                                k: nat)
    requires e.Gate? && k <= |e.rules| && Supports(satisfies, e, sds, w)
    ensures forall p | p in SubPositions(w, k) :: p < |sds| && sds[p].identity.Some? && sds[p].verifies
    decreases e, 0, k
  {
    if k > 0 {
      SubSupportInRange(satisfies, e, sds, w, k - 1);
      if w.subs[k - 1].Some? {
        SupportInRange(satisfies, e.rules[k - 1], sds, w.subs[k - 1].value);
      }
    }
  }

  // ---------- The plain threshold formula ----------

  predicate SignedFor<P>(satisfies: Satisfies<P>, sds: seq<Signed>, principal: P) {
    exists i | 0 <= i < |sds| ::
      sds[i].identity.Some? && sds[i].verifies && satisfies(sds[i].identity.value, principal)
  }

  /** The policy read as a formula: a signature may count for any number of leaves. */
  predicate Holds<P>(satisfies: Satisfies<P>, policy: Policy, identities: seq<P>, sds: seq<Signed>)
    requires WellFormed(Some(policy), |identities|)
    decreases policy, 1, 0
  {
    match policy
    case SignedBy(index) => SignedFor(satisfies, sds, identities[index])
    case NOutOf(n, rules) => HoldCount(satisfies, policy, |rules|, identities, sds) >= n
    case UnknownType => false
  }

  function HoldCount<P>(satisfies: Satisfies<P>, policy: Policy, k: nat, identities: seq<P>, sds: seq<Signed>): nat
    requires policy.NOutOf? && k <= |policy.rules| && WellFormed(Some(policy), |identities|)
    decreases policy, 0, k
  {
    if k == 0 then 0
    else
      assert WellFormed(policy.rules[k - 1], |identities|);
      HoldCount(satisfies, policy, k - 1, identities, sds)
      + if Holds(satisfies, policy.rules[k - 1].value, identities, sds) then 1 else 0
  }

  /** How many leaf occurrences of the policy a signature matches. */
  function LeafCount<P>(satisfies: Satisfies<P>, policy: Policy, identities: seq<P>, sd: Signed): nat
    requires WellFormed(Some(policy), |identities|)
    decreases policy, 1, 0
  {
    match policy
    case SignedBy(index) => if Matches(satisfies, sd, identities[index]) then 1 else 0
    case NOutOf(_, rules) => LeafCountTo(satisfies, policy, |rules|, identities, sd)
    case UnknownType => 0
  }

  function LeafCountTo<P>(satisfies: Satisfies<P>, policy: Policy, k: nat, identities: seq<P>, sd: Signed): nat
    requires policy.NOutOf? && k <= |policy.rules| && WellFormed(Some(policy), |identities|)
    decreases policy, 0, k
  {
    if k == 0 then 0
    else
      assert WellFormed(policy.rules[k - 1], |identities|);
      LeafCountTo(satisfies, policy, k - 1, identities, sd) + LeafCount(satisfies, policy.rules[k - 1].value,
                                                                        identities, sd)
  }

  lemma {:induction false} LeafCountGrows<P>(satisfies: Satisfies<P>, policy: Policy, j: nat, k: nat,
                                             identities: seq<P>, sd: Signed)
    requires policy.NOutOf? && j <= k <= |policy.rules| && WellFormed(Some(policy), |identities|)
    ensures LeafCountTo(satisfies, policy, j, identities, sd) <= LeafCountTo(satisfies, policy, k, identities, sd)
    decreases k
  {
    if j < k {
      LeafCountGrows(satisfies, policy, j, k - 1, identities, sd);
    }
  }

  /** No signature matches two leaves, and the signatures that are used already match none. */
  ghost predicate Exclusive<P>(satisfies: Satisfies<P>, policy: Policy, identities: seq<P>, sds: seq<Signed>,
                               used: seq<bool>)
    requires WellFormed(Some(policy), |identities|) && |sds| <= |used|
  {
    forall i | 0 <= i < |sds| :: LeafCount(satisfies, policy, identities, sds[i]) <= if used[i] then 0 else 1
  }

  /** Compiled rule k of a gate is the compilation of rule k. */
  lemma {:induction false} CompiledRule<P>(policy: Policy, k: nat, identities: seq<P>, i: nat)
    requires policy.NOutOf? && i < k <= |policy.rules| && CompileRules(policy, k, identities).Some?
    ensures |CompileRules(policy, k, identities).value| == k
    ensures Compile(policy.rules[i], identities) == Some(CompileRules(policy, k, identities).value[i])
  {
    CompileRulesIff(policy, k, identities);
    if i < k - 1 {
      CompiledRule(policy, k - 1, identities, i);
    } else {
      CompileRulesIff(policy, k - 1, identities);
    }
  }

  /** With exclusive leaves the greedy evaluation decides the formula, and marks only what it matches. */
  lemma {:induction false} RefinesFormula<P>(satisfies: Satisfies<P>, policy: Policy, identities: seq<P>,
                                             sds: seq<Signed>, used: seq<bool>)
    requires Compile(Some(policy), identities).Some? && WellFormed(Some(policy), |identities|) && |sds| <= |used|
    requires Exclusive(satisfies, policy, identities, sds, used)
    ensures var v := Eval(satisfies, Compile(Some(policy), identities).value, sds, used);
            && (v.ok <==> Holds(satisfies, policy, identities, sds))
            && forall i | 0 <= i < |sds| && v.used[i] && !used[i] ::
                 LeafCount(satisfies, policy, identities, sds[i]) > 0
    decreases policy, 1, 0
  {
    match policy
    case SignedBy(index) =>
      var m := FirstMatch(satisfies, identities[index], sds, used, 0);
      forall i | 0 <= i < |sds| && Matches(satisfies, sds[i], identities[index])
        ensures !used[i]
      {
        assert LeafCount(satisfies, policy, identities, sds[i]) == 1;
      }
    case NOutOf(n, rules) =>
      RulesRefineFormula(satisfies, policy, |rules|, identities, sds, used);
    case UnknownType =>
  }

  lemma {:induction false} RulesRefineFormula<P>(satisfies: Satisfies<P>, policy: Policy, k: nat, identities: seq<P>,
                                                 sds: seq<Signed>, used: seq<bool>)
    requires policy.NOutOf? && k <= |policy.rules| && |sds| <= |used|
    requires Compile(Some(policy), identities).Some? && WellFormed(Some(policy), |identities|)
    requires Exclusive(satisfies, policy, identities, sds, used)
    ensures var e := Compile(Some(policy), identities).value;
            && |e.rules| == |policy.rules|
            && var t := EvalRules(satisfies, e, k, sds, used);
               && t.verified == HoldCount(satisfies, policy, k, identities, sds)
               && forall i | 0 <= i < |sds| && t.used[i] && !used[i] :: LeafCountTo(satisfies, policy, k, identities,
                                                                                    sds[i]) > 0
    decreases policy, 0, k
  {
    var e := Compile(Some(policy), identities).value;
    CompileRulesIff(policy, |policy.rules|, identities);
    if k > 0 {
      RulesRefineFormula(satisfies, policy, k - 1, identities, sds, used);
      var rule := policy.rules[k - 1].value;
      CompiledRule(policy, |policy.rules|, identities, k - 1);
      var before := EvalRules(satisfies, e, k - 1, sds, used);
      forall i | 0 <= i < |sds|
        ensures LeafCount(satisfies, rule, identities, sds[i]) <= if before.used[i] then 0 else 1
        ensures LeafCountTo(satisfies, policy, k, identities, sds[i]) >= LeafCount(satisfies, rule, identities, sds[i])
      {
        LeafCountGrows(satisfies, policy, k, |policy.rules|, identities, sds[i]);
        assert LeafCount(satisfies, policy, identities, sds[i]) <= if used[i] then 0 else 1;
      }
      assert policy.rules[k - 1] == Some(rule);
      RefinesFormula(satisfies, rule, identities, sds, before.used);
    }
  }

  /** From all signatures unused, greedy evaluation is equivalent to the formula when leaves are exclusive. */
  lemma EvaluatorRefinesFormula<P>(satisfies: Satisfies<P>, policy: Policy, identities: seq<P>, sds: seq<Signed>,
                                   used: seq<bool>)
    requires WellFormed(Some(policy), |identities|) && |sds| <= |used| && (forall i | 0 <= i < |used| :: !used[i])
    requires forall i | 0 <= i < |sds| :: LeafCount(satisfies, policy, identities, sds[i]) <= 1
    ensures Compile(Some(policy), identities).Some?
    ensures Eval(satisfies, Compile(Some(policy), identities).value, sds, used).ok <==>
              Holds(satisfies, policy, identities, sds)
  {
    CompileIff(Some(policy), identities);
    RefinesFormula(satisfies, policy, identities, sds, used);
  }

  /** What supports the compiled policy makes the formula true. */
  lemma {:induction false} SupportedHolds<P>(satisfies: Satisfies<P>, policy: Policy, identities: seq<P>,
                                             sds: seq<Signed>, w: Support)
    requires WellFormed(Some(policy), |identities|) && Compile(Some(policy), identities).Some?
    requires Supports(satisfies, Compile(Some(policy), identities).value, sds, w)
    ensures Holds(satisfies, policy, identities, sds)
    decreases policy, 1, 0
  {
    if policy.NOutOf? {
      CompileRulesIff(policy, |policy.rules|, identities);
      SupportedCount(satisfies, policy, |policy.rules|, identities, sds, w);
    }
  }

  lemma {:induction false} SupportedCount<P>(satisfies: Satisfies<P>, policy: Policy, k: nat, identities: seq<P>,
                                             sds: seq<Signed>, w: Support)
    requires policy.NOutOf? && k <= |policy.rules| && w.GateSupport? && |w.subs| == |policy.rules|
    requires WellFormed(Some(policy), |identities|) && Compile(Some(policy), identities).Some?
    requires Supports(satisfies, Compile(Some(policy), identities).value, sds, w)
    ensures CountSome(w.subs, k) <= HoldCount(satisfies, policy, k, identities, sds)
    decreases policy, 0, k
  {
    if k > 0 {
      SupportedCount(satisfies, policy, k - 1, identities, sds, w);
      CompiledRule(policy, |policy.rules|, identities, k - 1);
      if w.subs[k - 1].Some? {
        var rule := policy.rules[k - 1].value;
        assert policy.rules[k - 1] == Some(rule);
        SupportedHolds(satisfies, rule, identities, sds, w.subs[k - 1].value);
      }
    }
  }

  /** Whatever is used already and however leaves overlap, what the evaluator accepts satisfies the formula. */
  lemma AcceptedHolds<P>(satisfies: Satisfies<P>, policy: Policy, identities: seq<P>, sds: seq<Signed>, used: seq<bool>)
    requires WellFormed(Some(policy), |identities|) && |sds| <= |used|
    ensures Compile(Some(policy), identities).Some?
    ensures Eval(satisfies, Compile(Some(policy), identities).value, sds, used).ok ==>
              Holds(satisfies, policy, identities, sds)
  {
    CompileIff(Some(policy), identities);
    var e := Compile(Some(policy), identities).value;
    if Eval(satisfies, e, sds, used).ok {
      var w := EvaluatorSound(satisfies, e, sds, used);
      SupportedHolds(satisfies, policy, identities, sds, w);
    }
  }

  // ---------- When greedy evaluation is the formula for all signatures ----------

  /** The signatures stand for exactly the principals in a, among those the policy knows. */
  ghost predicate SignsFor<P>(satisfies: Satisfies<P>, sds: seq<Signed>, identities: seq<P>, a: set<P>) {
    forall j :: 0 <= j < |identities| ==> (identities[j] in a <==> SignedFor(satisfies, sds, identities[j]))
  }

  /** One signature that stands for all the principals in a. */
  const ONE_SIGNATURE: seq<Signed> := [Signed(Some(Identity("Org", "any")), true)]

  ghost function InSet<P(!new)>(a: set<P>): Satisfies<P> {
    (id: Identity, principal: P) => principal in a
  }

  lemma OneSignatureSigns<P(!new)>(identities: seq<P>, a: set<P>)
    ensures SignsFor(InSet(a), ONE_SIGNATURE, identities, a)
  {
    forall j | 0 <= j < |identities|
      ensures identities[j] in a <==> SignedFor(InSet(a), ONE_SIGNATURE, identities[j])
    {
      assert Matches(InSet(a), ONE_SIGNATURE[0], identities[j]) <==> identities[j] in a;
    }
  }

  /** The formula depends only on which principals are signed for. */
  lemma {:induction false} HoldsBySignedFor<P(!new)>(satisfies: Satisfies<P>, policy: Policy, identities: seq<P>,
                                                     sds: seq<Signed>, a: set<P>)
    requires WellFormed(Some(policy), |identities|) && SignsFor(satisfies, sds, identities, a)
    ensures Holds(satisfies, policy, identities, sds) <==> Holds(InSet(a), policy, identities, ONE_SIGNATURE)
    decreases policy, 1, 0
  {
    OneSignatureSigns(identities, a);
    hide SignedFor, InSet;
    if policy.NOutOf? {
      CountBySignedFor(satisfies, policy, |policy.rules|, identities, sds, a);
    }
  }

  lemma {:induction false} CountBySignedFor<P(!new)>(satisfies: Satisfies<P>, policy: Policy, k: nat,
                                                     identities: seq<P>, sds: seq<Signed>, a: set<P>)
    requires policy.NOutOf? && k <= |policy.rules|
    requires WellFormed(Some(policy), |identities|) && SignsFor(satisfies, sds, identities, a)
    ensures HoldCount(satisfies, policy, k, identities, sds) ==
              HoldCount(InSet(a), policy, k, identities, ONE_SIGNATURE)
    decreases policy, 0, k
  {
    hide SignsFor, InSet;
    if k > 0 {
      CountBySignedFor(satisfies, policy, k - 1, identities, sds, a);
      assert policy.rules[k - 1] == Some(policy.rules[k - 1].value);
      HoldsBySignedFor(satisfies, policy.rules[k - 1].value, identities, sds, a);
    }
  }

  /** One principal in a satisfies the policy on its own, through gates that ask for a single rule. */
  predicate OneSuffices<P(==)>(policy: Policy, identities: seq<P>, a: set<P>)
    requires WellFormed(Some(policy), |identities|)
    decreases policy
  {
    match policy
    case SignedBy(index) => identities[index] in a
    case NOutOf(n, rules) => n <= 1 && exists i :: 0 <= i < |rules| && RuleSuffices(policy, i, identities, a)
    case UnknownType => false
  }

  predicate RuleSuffices<P(==)>(policy: Policy, i: nat, identities: seq<P>, a: set<P>)
    requires policy.NOutOf? && i < |policy.rules| && WellFormed(Some(policy), |identities|)
    decreases policy, 0
  {
    assert WellFormed(policy.rules[i], |identities|);
    assert policy.rules[i] == Some(policy.rules[i].value);
    OneSuffices(policy.rules[i].value, identities, a)
  }

  lemma {:induction false} TallyGrows<P>(satisfies: Satisfies<P>, e: Evaluator<P>, j: nat, k: nat, sds: seq<Signed>,
                                         used: seq<bool>)
    requires e.Gate? && j <= k <= |e.rules| && |sds| <= |used|
    ensures EvalRules(satisfies, e, j, sds, used).verified <= EvalRules(satisfies, e, k, sds, used).verified
    ensures EvalRules(satisfies, e, j, sds, used).verified == 0 ==> EvalRules(satisfies, e, j, sds, used).used == used
    decreases k
  {
    if j < k {
      TallyGrows(satisfies, e, j, k - 1, sds, used);
    } else if j > 0 {
      TallyGrows(satisfies, e, j - 1, j - 1, sds, used);
    }
  }

  /** A policy that one principal satisfies is accepted however the signatures cover the principals. */
  lemma {:induction false} OneSufficesAccepted<P>(satisfies: Satisfies<P>, policy: Policy, identities: seq<P>,
                                                  sds: seq<Signed>, used: seq<bool>, a: set<P>)
    requires WellFormed(Some(policy), |identities|) && Compile(Some(policy), identities).Some?
    requires |sds| <= |used| && (forall i | 0 <= i < |sds| :: !used[i])
    requires SignsFor(satisfies, sds, identities, a) && OneSuffices(policy, identities, a)
    ensures Eval(satisfies, Compile(Some(policy), identities).value, sds, used).ok
    decreases policy
  {
    if policy.NOutOf? {
      var e := Compile(Some(policy), identities).value;
      var i :| 0 <= i < |policy.rules| && RuleSuffices(policy, i, identities, a);
      var rule := policy.rules[i].value;
      assert policy.rules[i] == Some(rule);
      CompileRulesIff(policy, |policy.rules|, identities);
      CompiledRule(policy, |policy.rules|, identities, i);
      TallyGrows(satisfies, e, i, i, sds, used);
      TallyGrows(satisfies, e, i + 1, |e.rules|, sds, used);
      OneSufficesAccepted(satisfies, rule, identities, sds, used, a);
    }
  }

  /** Every gate asks for at least one of its rules. */
  predicate Positive(policy: Policy)
    decreases policy
  {
    policy.NOutOf? ==> policy.n >= 1 && forall i | 0 <= i < |policy.rules| :: policy.rules[i].Some? ==>
      Positive(policy.rules[i].value)
  }

  /** A support has at least one position, and with just one it rests on one principal. */
  lemma {:induction false} SupportNeedsOne<P>(satisfies: Satisfies<P>, policy: Policy, identities: seq<P>,
                                              sds: seq<Signed>, w: Support, a: set<P>)
    requires WellFormed(Some(policy), |identities|) && Compile(Some(policy), identities).Some? && Positive(policy)
    requires SignsFor(satisfies, sds, identities, a)
    requires Supports(satisfies, Compile(Some(policy), identities).value, sds, w)
    ensures |Positions(w)| >= 1 && (|Positions(w)| == 1 ==> OneSuffices(policy, identities, a))
    decreases policy, 1, 0
  {
    if policy.NOutOf? {
      CompileRulesIff(policy, |policy.rules|, identities);
      SubsNeedOne(satisfies, policy, |policy.rules|, identities, sds, w, a);
    }
  }

  lemma {:induction false} SubsNeedOne<P>(satisfies: Satisfies<P>, policy: Policy, k: nat, identities: seq<P>,
                                          sds: seq<Signed>, w: Support, a: set<P>)
    requires policy.NOutOf? && k <= |policy.rules| && w.GateSupport? && |w.subs| == |policy.rules|
    requires WellFormed(Some(policy), |identities|) && Compile(Some(policy), identities).Some? && Positive(policy)
    requires SignsFor(satisfies, sds, identities, a)
    requires Supports(satisfies, Compile(Some(policy), identities).value, sds, w)
    ensures CountSome(w.subs, k) <= |SubPositions(w, k)|
    ensures |SubPositions(w, k)| == 1 ==> exists i :: 0 <= i < |policy.rules| && RuleSuffices(policy, i, identities, a)
    decreases policy, 0, k
  {
    hide SignsFor;
    if k > 0 {
      SubsNeedOne(satisfies, policy, k - 1, identities, sds, w, a);
      CompiledRule(policy, |policy.rules|, identities, k - 1);
      if w.subs[k - 1].Some? {
        var rule := policy.rules[k - 1].value;
        assert policy.rules[k - 1] == Some(rule);
        SupportNeedsOne(satisfies, rule, identities, sds, w.subs[k - 1].value, a);
        assert OneSuffices(rule, identities, a) ==> RuleSuffices(policy, k - 1, identities, a);
      }
    }
  }

  /** From all signatures unused, the evaluator decides the formula. */
  ghost predicate Agrees<P>(satisfies: Satisfies<P>, policy: Policy, identities: seq<P>, sds: seq<Signed>)
    requires WellFormed(Some(policy), |identities|)
  {
    && Compile(Some(policy), identities).Some?
    && (Eval(satisfies, Compile(Some(policy), identities).value, sds, Unused(|sds|)).ok <==>
        Holds(satisfies, policy, identities, sds))
  }

  function Unused(n: nat): (used: seq<bool>)
    ensures |used| == n && forall i | 0 <= i < n :: !used[i]
  {
    seq(n, i => false)
  }

  lemma AgreesIfOneSuffices<P(!new)>(satisfies: Satisfies<P>, policy: Policy, identities: seq<P>, sds: seq<Signed>,
                                     a: set<P>)
    requires WellFormed(Some(policy), |identities|) && SignsFor(satisfies, sds, identities, a)
    requires Holds(InSet(a), policy, identities, ONE_SIGNATURE) ==> OneSuffices(policy, identities, a)
    ensures Agrees(satisfies, policy, identities, sds)
  {
    hide SignsFor, OneSuffices, Holds, Eval, InSet;
    AcceptedHolds(satisfies, policy, identities, sds, Unused(|sds|));
    HoldsBySignedFor(satisfies, policy, identities, sds, a);
    if Holds(satisfies, policy, identities, sds) {
      OneSufficesAccepted(satisfies, policy, identities, sds, Unused(|sds|), a);
    }
  }

  /** One signature for everything is not enough where two principals are needed. */
  lemma OneSignatureRefused<P(!new)>(policy: Policy, identities: seq<P>, a: set<P>)
    requires WellFormed(Some(policy), |identities|) && Positive(policy) && !OneSuffices(policy, identities, a)
    ensures Compile(Some(policy), identities).Some?
    ensures !Eval(InSet(a), Compile(Some(policy), identities).value, ONE_SIGNATURE, Unused(1)).ok
  {
    hide SignsFor, OneSuffices, Eval, InSet, Supports;
    CompileIff(Some(policy), identities);
    OneSignatureSigns(identities, a);
    var e := Compile(Some(policy), identities).value;
    if Eval(InSet(a), e, ONE_SIGNATURE, Unused(1)).ok {
      var w := EvaluatorSound(InSet(a), e, ONE_SIGNATURE, Unused(1));
      SupportNeedsOne(InSet(a), policy, identities, ONE_SIGNATURE, w, a);
      AtMostOne(Positions(w), 1);
    }
  }

  lemma AtMostOne(positions: seq<nat>, n: nat)
    requires NoRepeats(positions) && forall p | p in positions :: p < n
    ensures n == 1 ==> |positions| <= 1
  {
    assert |positions| > 1 ==> positions[0] in positions && positions[1] in positions;
  }

  /**
   * For the principals in a the greedy evaluation is the formula, whoever signs and however one signature stands for
   * several of them, exactly when the formula, if a satisfies it at all, can be met by one principal alone.
   */
  lemma GreedyIsFormulaIff<P(!new)>(policy: Policy, identities: seq<P>, a: set<P>)
    requires WellFormed(Some(policy), |identities|) && Positive(policy)
    ensures (forall satisfies: Satisfies<P>, sds: seq<Signed> ::
               SignsFor(satisfies, sds, identities, a) ==> Agrees(satisfies, policy, identities, sds))
            <==> (Holds(InSet(a), policy, identities, ONE_SIGNATURE) ==> OneSuffices(policy, identities, a))
  {
    hide SignsFor, OneSuffices, Eval, Holds, InSet;
    if Holds(InSet(a), policy, identities, ONE_SIGNATURE) && !OneSuffices(policy, identities, a) {
      OneSignatureSigns(identities, a);
      OneSignatureRefused(policy, identities, a);
      assert !Agrees(InSet(a), policy, identities, ONE_SIGNATURE);
    } else {
      forall satisfies: Satisfies<P>, sds: seq<Signed> | SignsFor(satisfies, sds, identities, a)
        ensures Agrees(satisfies, policy, identities, sds)
      {
        AgreesIfOneSuffices(satisfies, policy, identities, sds, a);
      }
    }
  }

  // ---------- Where greedy evaluation and the formula part ----------

  /** The first member satisfies both principals, the second only principal 0. */
  predicate ExampleSatisfies(id: Identity, principal: int) {
    id.id == "both" || (id.id == "first" && principal == 0)
  }

  const EXAMPLE_SIGNED: seq<Signed> :=
    [Signed(Some(Identity("Org", "both")), true), Signed(Some(Identity("Org", "first")), true)]
  const EXAMPLE_POLICY: Policy := NOutOf(2, [Some(SignedBy(0)), Some(SignedBy(1))])
  const EXAMPLE_GATE: Evaluator<int> := Gate(2, [Leaf(0), Leaf(1)])
  const EXAMPLE_SUPPORT: Support := GateSupport([Some(LeafSupport(1)), Some(LeafSupport(0))])

  lemma ExampleCompiles()
    ensures Compile(Some(EXAMPLE_POLICY), [0, 1]) == Some(EXAMPLE_GATE) && WellFormed(Some(EXAMPLE_POLICY), 2)
  {
    var one := CompileRules(EXAMPLE_POLICY, 1, [0, 1]);
    assert CompileRules(EXAMPLE_POLICY, 0, [0, 1]) == Some([]);
    assert Compile(EXAMPLE_POLICY.rules[0], [0, 1]) == Some(Leaf(0));
    assert one.Some? && one.value == [Leaf(0)];
    assert Compile(EXAMPLE_POLICY.rules[1], [0, 1]) == Some(Leaf(1));
    var two := CompileRules(EXAMPLE_POLICY, 2, [0, 1]);
    assert two.Some? && two.value == [Leaf(0), Leaf(1)];
  }

  lemma ExampleMatches()
    ensures Matches(ExampleSatisfies, EXAMPLE_SIGNED[0], 0) && Matches(ExampleSatisfies, EXAMPLE_SIGNED[0], 1)
    ensures Matches(ExampleSatisfies, EXAMPLE_SIGNED[1], 0) && !Matches(ExampleSatisfies, EXAMPLE_SIGNED[1], 1)
  {
  }

  lemma ExampleHolds()
    ensures WellFormed(Some(EXAMPLE_POLICY), 2) && Holds(ExampleSatisfies, EXAMPLE_POLICY, [0, 1], EXAMPLE_SIGNED)
  {
    ExampleMatches();
    hide Matches;
    assert Holds(ExampleSatisfies, SignedBy(0), [0, 1], EXAMPLE_SIGNED) && Holds(ExampleSatisfies, SignedBy(1), [0, 1],
                                                                                 EXAMPLE_SIGNED);
    assert HoldCount(ExampleSatisfies, EXAMPLE_POLICY, 1, [0, 1], EXAMPLE_SIGNED) == 1;
    assert HoldCount(ExampleSatisfies, EXAMPLE_POLICY, 2, [0, 1], EXAMPLE_SIGNED) == 2;
  }

  lemma ExampleSupported()
    ensures Supports(ExampleSatisfies, EXAMPLE_GATE, EXAMPLE_SIGNED, EXAMPLE_SUPPORT)
    ensures NoRepeats(Positions(EXAMPLE_SUPPORT))
  {
    ExampleMatches();
    hide Matches;
    assert CountSome(EXAMPLE_SUPPORT.subs, 1) == 1 && CountSome(EXAMPLE_SUPPORT.subs, 2) == 2;
    assert SubPositions(EXAMPLE_SUPPORT, 1) == [1] && SubPositions(EXAMPLE_SUPPORT, 2) == [1, 0];
  }

  lemma ExampleRejected()
    ensures !Eval(ExampleSatisfies, EXAMPLE_GATE, EXAMPLE_SIGNED, [false, false]).ok
  {
    ExampleMatches();
    hide Matches;
    var used, after := [false, false], [true, false];
    assert FirstMatch(ExampleSatisfies, 0, EXAMPLE_SIGNED, used, 0) == 0;
    assert used[0 := true] == after;
    var one := EvalRules(ExampleSatisfies, EXAMPLE_GATE, 1, EXAMPLE_SIGNED, used);
    assert one == Tally(1, after);
    assert FirstMatch(ExampleSatisfies, 1, EXAMPLE_SIGNED, after, 0) == 2;
    assert EvalRules(ExampleSatisfies, EXAMPLE_GATE, 2, EXAMPLE_SIGNED, used) == one;
  }

  /**
   * Without exclusive leaves the two differ: both principals are signed for, by two different members,
   * but the first leaf takes the one signature that the second leaf needs.
   */
  lemma GreedyMissesAssignment()
    ensures Compile(Some(EXAMPLE_POLICY), [0, 1]) == Some(EXAMPLE_GATE) && WellFormed(Some(EXAMPLE_POLICY), 2)
    ensures Holds(ExampleSatisfies, EXAMPLE_POLICY, [0, 1], EXAMPLE_SIGNED)
    ensures Supports(ExampleSatisfies, EXAMPLE_GATE, EXAMPLE_SIGNED, EXAMPLE_SUPPORT)
    ensures NoRepeats(Positions(EXAMPLE_SUPPORT))
    ensures !Eval(ExampleSatisfies, EXAMPLE_GATE, EXAMPLE_SIGNED, [false, false]).ok
  {
    ExampleCompiles();
    ExampleHolds();
    ExampleSupported();
    ExampleRejected();
  }
}
