/** Which signatures of a set can matter to a policy (common/cauthdsl/cauthdsl.go, common/cauthdsl/policy.go). */
module SignatureSet {
  import opened Wrappers
  import opened Sequences
  import opened SignaturePolicy

  /** A signature that verifies under an identity that deserialises. */
  predicate Valid(sd: Signed) {
    sd.identity.Some? && sd.verifies
  }

  // ---------- The evaluator sees valid signatures only ----------

  /** The position FirstMatch returns is the only one with its properties. */
  lemma FirstMatchIs<P>(satisfies: Satisfies<P>, principal: P, sds: seq<Signed>, used: seq<bool>, m: nat)
    requires m <= |sds| <= |used|
    requires m < |sds| ==> !used[m] && Matches(satisfies, sds[m], principal)
    requires forall j | 0 <= j < m :: used[j] || !Matches(satisfies, sds[j], principal)
    ensures FirstMatch(satisfies, principal, sds, used, 0) == m
  {
  }

  /** The two lists have the same valid signatures at the same places. */
  predicate SameValid(sds: seq<Signed>, sds': seq<Signed>) {
    |sds| == |sds'| && forall i | 0 <= i < |sds| :: sds[i] == sds'[i] || (!Valid(sds[i]) && !Valid(sds'[i]))
  }

  /** Changing signatures that are not valid changes neither the verdict nor the marks. */
  lemma {:induction false} InvalidIgnored<P>(satisfies: Satisfies<P>, e: Evaluator<P>, sds: seq<Signed>,
                                             sds': seq<Signed>, used: seq<bool>)
    requires SameValid(sds, sds') && |sds| <= |used|
    ensures Eval(satisfies, e, sds', used) == Eval(satisfies, e, sds, used)
    decreases e, 1, 0
  {
    match e
    case Leaf(principal) =>
      FirstMatchIs(satisfies, principal, sds', used, FirstMatch(satisfies, principal, sds, used, 0));
    case Gate(n, rules) =>
      InvalidIgnoredByRules(satisfies, e, |rules|, sds, sds', used);
  }

  lemma {:induction false} InvalidIgnoredByRules<P>(satisfies: Satisfies<P>, e: Evaluator<P>, k: nat,
                                                    sds: seq<Signed>, sds': seq<Signed>, used: seq<bool>)
    requires e.Gate? && k <= |e.rules| && SameValid(sds, sds') && |sds| <= |used|
    ensures EvalRules(satisfies, e, k, sds', used) == EvalRules(satisfies, e, k, sds, used)
    decreases e, 0, k
  {
    if k > 0 {
      InvalidIgnoredByRules(satisfies, e, k - 1, sds, sds', used);
      InvalidIgnored(satisfies, e.rules[k - 1], sds, sds', EvalRules(satisfies, e, k - 1, sds, used).used);
    }
  }

  /** Dropping a signature that is not valid, with its mark, leaves the verdict and all other marks as they were. */
  lemma {:induction false} InvalidDropped<P>(satisfies: Satisfies<P>, e: Evaluator<P>, sds: seq<Signed>,
                                             used: seq<bool>, p: nat)
    requires p < |sds| <= |used| && !Valid(sds[p])
    ensures var v := Eval(satisfies, e, sds, used);
            Eval(satisfies, e, Without(sds, p), Without(used, p)) == Verdict(v.ok, Without(v.used, p))
    decreases e, 1, 0
  {
    match e
    case Leaf(principal) =>
      var m := FirstMatch(satisfies, principal, sds, used, 0);
      var m' := if m < p then m else m - 1;
      FirstMatchIs(satisfies, principal, Without(sds, p), Without(used, p), m');
      if m < |sds| {
        assert Without(used[m := true], p) == Without(used, p)[m' := true];
      }
    case Gate(n, rules) =>
      InvalidDroppedByRules(satisfies, e, |rules|, sds, used, p);
  }

  lemma {:induction false} InvalidDroppedByRules<P>(satisfies: Satisfies<P>, e: Evaluator<P>, k: nat,
                                                    sds: seq<Signed>, used: seq<bool>, p: nat)
    requires e.Gate? && k <= |e.rules| && p < |sds| <= |used| && !Valid(sds[p])
    ensures var t := EvalRules(satisfies, e, k, sds, used);
            EvalRules(satisfies, e, k, Without(sds, p), Without(used, p)) == Tally(t.verified, Without(t.used, p))
    decreases e, 0, k
  {
    hide Without;
    if k > 0 {
      InvalidDroppedByRules(satisfies, e, k - 1, sds, used, p);
      InvalidDropped(satisfies, e.rules[k - 1], sds, EvalRules(satisfies, e, k - 1, sds, used).used, p);
    }
  }

  // ---------- Deduplication comes first ----------

  /** policy.Evaluate: the evaluator on what deduplicate keeps, with a free mark for every signature given. */
  predicate Decides<P>(satisfies: Satisfies<P>, e: Evaluator<P>, input: seq<Signed>) {
    Eval(satisfies, e, Firsts(input, |input|), Unused(|input|)).ok
  }

  /** Marks past the last signature are neither read nor written. */
  lemma {:induction false} SpareMarks<P>(satisfies: Satisfies<P>, e: Evaluator<P>, sds: seq<Signed>, used: seq<bool>,
                                         spare: seq<bool>)
    requires |sds| <= |used|
    ensures var v := Eval(satisfies, e, sds, used);
            Eval(satisfies, e, sds, used + spare) == Verdict(v.ok, v.used + spare)
    decreases e, 1, 0
  {
    match e
    case Leaf(principal) =>
      var m := FirstMatch(satisfies, principal, sds, used, 0);
      FirstMatchIs(satisfies, principal, sds, used + spare, m);
      if m < |sds| {
        assert (used + spare)[m := true] == used[m := true] + spare;
      }
    case Gate(n, rules) =>
      SpareMarksInRules(satisfies, e, |rules|, sds, used, spare);
  }

  lemma {:induction false} SpareMarksInRules<P>(satisfies: Satisfies<P>, e: Evaluator<P>, k: nat, sds: seq<Signed>,
                                                used: seq<bool>, spare: seq<bool>)
    requires e.Gate? && k <= |e.rules| && |sds| <= |used|
    ensures var t := EvalRules(satisfies, e, k, sds, used);
            EvalRules(satisfies, e, k, sds, used + spare) == Tally(t.verified, t.used + spare)
    decreases e, 0, k
  {
    if k > 0 {
      SpareMarksInRules(satisfies, e, k - 1, sds, used, spare);
      SpareMarks(satisfies, e.rules[k - 1], sds, EvalRules(satisfies, e, k - 1, sds, used).used, spare);
    }
  }

  lemma AnyUnused<P>(satisfies: Satisfies<P>, e: Evaluator<P>, sds: seq<Signed>, n: nat)
    requires |sds| <= n
    ensures Eval(satisfies, e, sds, Unused(n)).ok == Eval(satisfies, e, sds, Unused(|sds|)).ok
  {
    assert Unused(n) == Unused(|sds|) + Unused(n - |sds|);
    SpareMarks(satisfies, e, sds, Unused(|sds|), Unused(n - |sds|));
  }

  /** From all signatures unused, one that is not valid can be left out. */
  lemma InvalidAdded<P>(satisfies: Satisfies<P>, e: Evaluator<P>, x: seq<Signed>, sd: Signed, y: seq<Signed>)
    requires !Valid(sd)
    ensures Eval(satisfies, e, x + [sd] + y, Unused(|x + [sd] + y|)).ok ==
              Eval(satisfies, e, x + y, Unused(|x + y|)).ok
  {
    var sds := x + [sd] + y;
    InvalidDropped(satisfies, e, sds, Unused(|sds|), |x|);
    assert Without(sds, |x|) == x + y && Without(Unused(|sds|), |x|) == Unused(|x + y|);
  }

  /** The signature at q is the next one with the key that the signature at p is the first to have. */
  predicate NextAfter(input: seq<Signed>, p: nat, q: nat)
    requires p < q < |input|
  {
    && First(input, p) && input[q].identity.Some?
    && input[q].identity.value.Key() == input[p].identity.value.Key()
    && forall j | p < j < q && input[j].identity.Some? ::
         input[j].identity.value.Key() != input[p].identity.value.Key()
  }

  /** Without the signature at p a later one is the first of its key if it was before, or if p was the only one. */
  lemma FirstWithout(input: seq<Signed>, p: nat, i: nat)
    requires p < i < |input|
    ensures First(Without(input, p), i - 1) <==> First(input, i) || NextAfter(input, p, i)
    ensures !(First(input, i) && NextAfter(input, p, i))
    ensures Without(input, p)[i - 1] == input[i]
  {
    var w := Without(input, p);
    assert w[i - 1] == input[i];
    assert forall j | 0 <= j < p :: w[j] == input[j];
    assert forall j | p < j < i :: w[j - 1] == input[j];
    assert forall j | p <= j < i - 1 :: w[j] == input[j + 1];
    if First(w, i - 1) && !First(input, i) {
      assert input[p].identity.Some? && input[p].identity.value.Key() == input[i].identity.value.Key();
    }
  }

  lemma {:induction false} FirstsBefore(input: seq<Signed>, p: nat, n: nat)
    requires n <= p < |input|
    ensures Firsts(Without(input, p), n) == Firsts(input, n)
  {
    if n > 0 {
      FirstsBefore(input, p, n - 1);
      assert forall j | 0 <= j < p :: Without(input, p)[j] == input[j];
      assert First(Without(input, p), n - 1) <==> First(input, n - 1);
    }
  }

  /** What deduplicate keeps when a repeated or unreadable signature is left out. */
  lemma {:induction false} FirstsWithoutRepeat(input: seq<Signed>, p: nat, n: nat)
    requires p < n <= |input| && !First(input, p)
    ensures Firsts(Without(input, p), n - 1) == Firsts(input, n)
    decreases n
  {
    if n == p + 1 {
      FirstsBefore(input, p, p);
    } else {
      FirstsWithoutRepeat(input, p, n - 1);
      FirstWithout(input, p, n - 1);
    }
  }

  /** What it keeps when the first signature of a key is left out: the next one with that key takes its turn. */
  lemma {:induction false} FirstsWithoutFirst(input: seq<Signed>, p: nat, n: nat)
    returns (q: Option<nat>, y: seq<Signed>, z: seq<Signed>)
    requires p < n <= |input| && First(input, p)
    ensures Firsts(input, n) == Firsts(input, p) + [input[p]] + (y + z)
    ensures q.None? ==> Firsts(Without(input, p), n - 1) == Firsts(input, p) + (y + z)
    ensures q.None? ==> forall i | p < i < n :: !NextAfter(input, p, i)
    ensures q.Some? ==>
              && p < q.value < n && NextAfter(input, p, q.value)
              && Firsts(Without(input, p), n - 1) == Firsts(input, p) + y + [input[q.value]] + z
    decreases n
  {
    hide Without, First, Firsts, NextAfter;
    if n == p + 1 {
      q, y, z := None, [], [];
      FirstsBefore(input, p, p);
      FirstsStep(input, p);
    } else {
      var i := n - 1;
      q, y, z := FirstsWithoutFirst(input, p, i);
      FirstWithout(input, p, i);
      FirstsStep(input, i);
      FirstsStep(Without(input, p), i - 1);
      if NextAfter(input, p, i) {
        NextUnique(input, p, q, i);
        NothingAfter(y + z);
        NothingAfter(Firsts(input, p) + (y + z) + [input[i]]);
        q, y, z := Some(i), y + z, [];
      } else if First(input, i) {
        AppendLast(Firsts(input, p) + [input[p]], y, z, input[i]);
        AppendLast(Firsts(input, p), y, z, input[i]);
        if q.Some? {
          AppendLast(Firsts(input, p) + y + [input[q.value]], [], z, input[i]);
          NothingBefore(z);
          NothingBefore(z + [input[i]]);
        }
        z := z + [input[i]];
      }
    }
  }

  lemma AppendLast<T>(x: seq<T>, y: seq<T>, z: seq<T>, last: T)
    ensures x + (y + z) + [last] == x + (y + (z + [last]))
  {
  }

  lemma NothingAfter<T>(x: seq<T>)
    ensures x + [] == x
  {
  }

  lemma NothingBefore<T>(x: seq<T>)
    ensures [] + x == x
  {
  }

  lemma FirstsStep(input: seq<Signed>, i: nat)
    requires i < |input|
    ensures Firsts(input, i + 1) == if First(input, i) then Firsts(input, i) + [input[i]] else Firsts(input, i)
  {
  }

  lemma NextUnique(input: seq<Signed>, p: nat, q: Option<nat>, i: nat)
    requires p < i < |input| && NextAfter(input, p, i)
    requires q.Some? ==> p < q.value < i && NextAfter(input, p, q.value)
    ensures q.None?
  {
  }

  lemma DroppedSame<P>(satisfies: Satisfies<P>, e: Evaluator<P>, input: seq<Signed>, p: nat)
    requires p < |input| && !Valid(input[p])
    requires forall q | p < q < |input| :: NextAfter(input, p, q) ==> !Valid(input[q])
    ensures Decides(satisfies, e, Without(input, p)) == Decides(satisfies, e, input)
  {
    hide Without, First, Firsts, Eval, Valid, NextAfter;
    var n, w := |input|, Without(input, p);
    AnyUnused(satisfies, e, Firsts(input, n), n);
    AnyUnused(satisfies, e, Firsts(w, n - 1), n - 1);
    if First(input, p) {
      var q, y, z := FirstsWithoutFirst(input, p, n);
      var x := Firsts(input, p);
      InvalidAdded(satisfies, e, x, input[p], y + z);
      if q.Some? {
        InvalidAdded(satisfies, e, x + y, input[q.value], z);
        assert x + y + z == x + (y + z);
      }
    } else {
      FirstsWithoutRepeat(input, p, n);
    }
  }

  /** Only identities with the given key satisfy anything. */
  ghost function HasKey<P(!new)>(key: string): Satisfies<P> {
    (id: Identity, principal: P) => id.Key() == key
  }

  lemma RefusedByKey<P(!new)>(principal: P, key: string, x: seq<Signed>, sd: Signed, y: seq<Signed>)
    requires DistinctKeys(x + [sd] + y) && sd.identity.Some? && sd.identity.value.Key() == key && !Valid(sd)
    ensures var sds := x + [sd] + y; !Eval(HasKey(key), Leaf(principal), sds, Unused(|sds|)).ok
  {
    var sds := x + [sd] + y;
    assert sds[|x|] == sd;
    FirstMatchIs(HasKey(key), principal, sds, Unused(|sds|), |sds|);
  }

  lemma AcceptedByKey<P(!new)>(principal: P, key: string, x: seq<Signed>, sd: Signed, y: seq<Signed>)
    requires Valid(sd) && sd.identity.value.Key() == key
    ensures var sds := x + [sd] + y; Eval(HasKey(key), Leaf(principal), sds, Unused(|sds|)).ok
  {
    var sds := x + [sd] + y;
    assert sds[|x|] == sd && Matches(HasKey(key), sds[|x|], principal);
  }

  lemma DroppedDiffers<P(!new)>(principal: P, input: seq<Signed>, p: nat, q: nat)
    requires p < q < |input| && !Valid(input[p]) && NextAfter(input, p, q) && Valid(input[q])
    ensures var satisfies := HasKey<P>(input[p].identity.value.Key());
            !Decides(satisfies, Leaf(principal), input) && Decides(satisfies, Leaf(principal), Without(input, p))
  {
    var n, w, key := |input|, Without(input, p), input[p].identity.value.Key();
    hide Without, Firsts, Eval, HasKey, DistinctKeys, Valid;
    var r, y, z := FirstsWithoutFirst(input, p, n);
    var x := Firsts(input, p);
    FirstsDistinct(input, n);
    AnyUnused(HasKey(key), Leaf(principal), Firsts(input, n), n);
    AnyUnused(HasKey(key), Leaf(principal), Firsts(w, n - 1), n - 1);
    RefusedByKey(principal, key, x, input[p], y + z);
    NextSame(input, p, r.value, q);
    AcceptedByKey(principal, key, x + y, input[q], z);
  }

  lemma NextSame(input: seq<Signed>, p: nat, q: nat, r: nat)
    requires p < q < |input| && p < r < |input| && NextAfter(input, p, q) && NextAfter(input, p, r)
    ensures q == r
  {
  }

  /**
   * Leaving out a signature that is not valid changes no verdict of any policy, exactly unless it is the first of its
   * identity and the next one of that identity is valid: deduplication then keeps the wrong one of the two.
   */
  lemma DroppingInvalidIff<P(!new)>(principal: P, input: seq<Signed>, p: nat)
    requires p < |input| && !Valid(input[p])
    ensures (forall satisfies: Satisfies<P>, e: Evaluator<P> ::
               Decides(satisfies, e, Without(input, p)) == Decides(satisfies, e, input))
            <==> forall q | p < q < |input| :: NextAfter(input, p, q) ==> !Valid(input[q])
  {
    hide Decides, Without, NextAfter, Valid;
    if q :| p < q < |input| && NextAfter(input, p, q) && Valid(input[q]) {
      DroppedDiffers(principal, input, p, q);
    } else {
      forall satisfies: Satisfies<P>, e: Evaluator<P>
        ensures Decides(satisfies, e, Without(input, p)) == Decides(satisfies, e, input)
      {
        DroppedSame(satisfies, e, input, p);
      }
    }
  }
}
