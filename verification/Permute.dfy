/** The permutation loop of pobl/common/graph/perm.go and the trees it leaves. */
module Permute {
  import opened Wrappers
  import opened Choose
  import opened Sequences
  import opened Tree
  import opened Permutations

  // ---------- Ways of picking ----------

  predicate Bounded(entries: Entries, w: Picks) {
    forall id :: id in w ==> w[id] < |At(entries, id)|
  }

  function Chosen(entries: Entries, w: Picks): (sel: Selection)
    requires Bounded(entries, w)
    ensures sel.Keys == w.Keys
  {
    map id | id in w :: At(entries, id)[w[id]]
  }

  function Pick(w: Picks, id: string, e: nat): (r: Picks)
    ensures r.Keys == w.Keys + {id}
  {
    w[id := e]
  }

  function Unpick(w: Picks, id: string): (r: Picks)
    requires id in w
    ensures r.Keys == w.Keys - {id} && Pick(r, id, w[id]) == w
  {
    w - {id}
  }

  /** One recorded entry is picked at exactly the done inner vertices that the picks themselves leave. */
  ghost predicate PickedSoFar<D>(root: Vertex<D>, entries: Entries, w: Picks, done: set<string>) {
    && Bounded(entries, w) && Fits(root, Chosen(entries, w))
    && forall id :: id in w <==> id in done && Reaches(root, Chosen(entries, w), id)
  }

  /** A way of picking, top-down, one recorded entry at every inner vertex that is left. */
  ghost predicate Picked<D>(root: Vertex<D>, entries: Entries, w: Picks) {
    && Bounded(entries, w) && Fits(root, Chosen(entries, w))
    && forall id :: id in w <==> Reaches(root, Chosen(entries, w), id)
  }

  /** The tree that a way of picking leaves. */
  function PickedTree<D>(root: Vertex<D>, entries: Entries, w: Picks): Vertex<D>
    requires Bounded(entries, w) && Fits(root, Chosen(entries, w))
  {
    Restrict(root, Chosen(entries, w))
  }

  lemma {:induction false} StockedFits<D>(v: Vertex<D>, entries: Entries, grow: nat -> nat, w: Picks)
    requires Grows(grow) && Stocked(v, entries, grow) && Bounded(entries, w)
    ensures Fits(v, Chosen(entries, w))
    decreases v
  {
    hide Recorded;
    forall j | 0 <= j < |v.descendants| ensures Fits(v.descendants[j], Chosen(entries, w)) {
      StockedFits(v.descendants[j], entries, grow, w);
    }
  }

  lemma {:induction false} PickedComplete<D>(v: Vertex<D>, sel: Selection, done: set<string>)
    requires Fits(v, sel) && forall id :: Reaches(v, sel, id) && id in done ==> id in sel
    ensures Complete(v, sel, done)
    decreases v
  {
    assert v.descendants != [] ==> Reaches(v, sel, v.id);
    if v.id in sel {
      forall j | 0 <= j < |sel[v.id]| ensures Complete(v.descendants[sel[v.id][j]], sel, done) {
        forall id | Reaches(v.descendants[sel[v.id][j]], sel, id) ensures Reaches(v, sel, id) {
        }
        PickedComplete(v.descendants[sel[v.id][j]], sel, done);
      }
    }
  }

  lemma ChosenStep(entries: Entries, w: Picks, id: string, e: nat)
    requires Bounded(entries, w) && e < |At(entries, id)|
    ensures Bounded(entries, Pick(w, id, e))
    ensures Chosen(entries, Pick(w, id, e)) == Chosen(entries, w)[id := At(entries, id)[e]]
  {
    hide At;
    var left, right := Chosen(entries, Pick(w, id, e)), Chosen(entries, w)[id := At(entries, id)[e]];
    assert left.Keys == right.Keys;
    assert forall i :: i in left ==> left[i] == right[i];
  }

  /** A pick at a waiting vertex changes nothing above it. */
  lemma PickReaches<D>(root: Vertex<D>, entries: Entries, grow: nat -> nat, w: Picks, done: set<string>, q: Vertex<D>,
                       e: nat)
    requires Grows(grow) && Stocked(root, entries, grow) && Bounded(entries, w) && q.id !in w
    requires Ready(root, q, done) && Has(root, q.id) && Waiting(q, done) && e < |At(entries, q.id)|
    ensures InRange(At(entries, q.id)[e], |q.descendants|)
    ensures Bounded(entries, Pick(w, q.id, e)) && Fits(root, Chosen(entries, w))
    ensures Fits(root, Chosen(entries, Pick(w, q.id, e)))
    ensures forall id :: id in done + {q.id} ==>
              (Reaches(root, Chosen(entries, Pick(w, q.id, e)), id) <==> Reaches(root, Chosen(entries, w), id))
  {
    var w', s := Pick(w, q.id, e), At(entries, q.id)[e];
    ReadyStocked(root, entries, grow, q, done);
    assert InRange(s, |q.descendants|);
    ChosenStep(entries, w, q.id, e);
    hide Stocked, Reaches, Fits, Ready, Has, Chosen, Bounded, Pick;
    StockedFits(root, entries, grow, w);
    StockedFits(root, entries, grow, w');
    forall id | id in done + {q.id}
      ensures Reaches(root, Chosen(entries, w'), id) <==> Reaches(root, Chosen(entries, w), id)
    {
      NothingBelow(q, done, id);
      ReachesStep(root, Chosen(entries, w), q, done, s, id);
    }
  }

  /** The test for the vertex in the tree picked so far says whether it is left. */
  lemma PickedHas<D>(root: Vertex<D>, entries: Entries, w: Picks, done: set<string>, q: Vertex<D>)
    requires PickedSoFar(root, entries, w, done) && Ready(root, q, done) && Waiting(q, done) && q.descendants != []
    ensures Complete(root, Chosen(entries, w), done)
    ensures Has(PickedTree(root, entries, w), q.id) <==> Reaches(root, Chosen(entries, w), q.id)
  {
    hide Reaches, Fits, Ready, Has, Restrict, Complete, Chosen;
    PickedComplete(root, Chosen(entries, w), done);
    HasReached(root, Chosen(entries, w), q, done);
  }

  /** Picking an entry at a vertex that is left and waits replaces its descendants. */
  lemma PickOne<D>(root: Vertex<D>, entries: Entries, grow: nat -> nat, w: Picks, done: set<string>, q: Vertex<D>,
                   e: nat)
    requires Grows(grow) && Stocked(root, entries, grow)
    requires PickedSoFar(root, entries, w, done) && Ready(root, q, done) && Has(root, q.id) && Waiting(q, done)
    requires Has(PickedTree(root, entries, w), q.id) && q.descendants != [] && e < |At(entries, q.id)|
    ensures PickedSoFar(root, entries, Pick(w, q.id, e), done + {q.id})
  {
    assert Has(q, q.id);
    PickedHas(root, entries, w, done, q);
    hide Stocked, Reaches, Fits, Ready, Has, Restrict, Complete, Chosen, Bounded, Pick;
    PickReaches(root, entries, grow, w, done, q, e);
  }

  lemma PickOneTree<D>(root: Vertex<D>, entries: Entries, grow: nat -> nat, w: Picks, done: set<string>, q: Vertex<D>,
                       e: nat)
    requires Grows(grow) && Stocked(root, entries, grow)
    requires PickedSoFar(root, entries, w, done) && Ready(root, q, done) && Has(root, q.id) && Waiting(q, done)
    requires q.descendants != [] && e < |At(entries, q.id)|
    ensures InRange(At(entries, q.id)[e], |q.descendants|) && Bounded(entries, Pick(w, q.id, e))
    ensures Fits(root, Chosen(entries, Pick(w, q.id, e)))
    ensures PickedTree(root, entries, Pick(w, q.id, e)) == Replace(PickedTree(root, entries, w), q.id,
                                                                   Select(q.descendants, At(entries, q.id)[e]))
  {
    assert Has(q, q.id);
    PickedHas(root, entries, w, done, q);
    assert w.Keys <= done;
    hide Stocked, Reaches, Fits, Ready, Has, Restrict, Replace, Complete, Chosen, Bounded, Pick, PickedSoFar;
    PickReaches(root, entries, grow, w, done, q, e);
    ChosenStep(entries, w, q.id, e);
    RestrictStep(root, Chosen(entries, w), q, done, At(entries, q.id)[e]);
  }

  lemma NothingBelow<D>(q: Vertex<D>, done: set<string>, id: string)
    requires Waiting(q, done) && id in done + {q.id}
    ensures forall j :: 0 <= j < |q.descendants| ==> !Has(q.descendants[j], id)
  {
  }

  lemma {:induction false} ReadyStocked<D>(v: Vertex<D>, entries: Entries, grow: nat -> nat, q: Vertex<D>,
                                           done: set<string>)
    requires Grows(grow) && Stocked(v, entries, grow) && Ready(v, q, done) && Has(v, q.id)
    ensures Stocked(q, entries, grow)
    decreases v
  {
    hide Recorded;
    if v != q {
      var j :| 0 <= j < |v.descendants| && Has(v.descendants[j], q.id);
      ReadyStocked(v.descendants[j], entries, grow, q, done);
    }
  }

  lemma PickNone<D>(root: Vertex<D>, entries: Entries, w: Picks, done: set<string>, q: Vertex<D>)
    requires PickedSoFar(root, entries, w, done) && Ready(root, q, done) && Waiting(q, done) && q.descendants != []
    requires !Has(PickedTree(root, entries, w), q.id)
    ensures PickedSoFar(root, entries, w, done + {q.id})
  {
    PickedHas(root, entries, w, done, q);
  }

  lemma PickLeaf<D>(root: Vertex<D>, entries: Entries, w: Picks, done: set<string>, q: Vertex<D>)
    requires Bounded(entries, w) && Fits(root, Chosen(entries, w))
    requires Ready(root, q, done) && Waiting(q, done) && q.descendants == []
    ensures PickedSoFar(root, entries, w, done + {q.id}) <==> PickedSoFar(root, entries, w, done)
  {
    LeafNotReached(root, Chosen(entries, w), q, done);
  }

  /** Undoing the pick at q gives back the picks before it. */
  lemma PickBack<D>(root: Vertex<D>, entries: Entries, grow: nat -> nat, w: Picks, done: set<string>, q: Vertex<D>)
    requires Grows(grow) && Stocked(root, entries, grow) && q.id in w
    requires PickedSoFar(root, entries, w, done + {q.id}) && Ready(root, q, done) && Has(root, q.id) && Waiting(q, done)
    ensures PickedSoFar(root, entries, Unpick(w, q.id), done) && Reaches(root, Chosen(entries, Unpick(w, q.id)), q.id)
  {
    assert Has(q, q.id);
    var w0, e := Unpick(w, q.id), w[q.id];
    assert Bounded(entries, w0) && e < |At(entries, q.id)|;
    hide Stocked, Reaches, Fits, Ready, Has, Chosen, Bounded, Pick, Unpick;
    PickReaches(root, entries, grow, w0, done, q, e);
  }

  lemma NoPickBack<D>(root: Vertex<D>, entries: Entries, w: Picks, done: set<string>, q: Vertex<D>)
    requires q.id !in w && PickedSoFar(root, entries, w, done + {q.id})
    ensures PickedSoFar(root, entries, w, done) && !Reaches(root, Chosen(entries, w), q.id)
  {
  }

  /** The same vertices, except that every inner vertex keeps as many of its descendants, in order, as its threshold. */
  ghost predicate MeetsThresholds<D>(v: Vertex<D>, t: Vertex<D>)
    decreases v
  {
    && t.id == v.id && t.data == v.data
    && if v.descendants == [] then t.descendants == [] else exists s :: KeepsThreshold(v, t, s)
  }

  ghost predicate KeepsThreshold<D>(v: Vertex<D>, t: Vertex<D>, s: seq<nat>)
    decreases v, 0
  {
    && Increasing(s, 0, |v.descendants|) && |s| == v.threshold == |t.descendants|
    && forall j :: 0 <= j < |s| ==> MeetsThresholds(v.descendants[s[j]], t.descendants[j])
  }

  lemma NoneInRange(s: seq<nat>, n: nat)
    requires InRange(s, n)
    ensures n == 0 ==> s == []
  {
    assert s != [] ==> s[0] < n;
  }

  /** Whatever the sharing of index sets, every tree picked meets every threshold with vertices of the pruned tree. */
  lemma {:induction false} PickedMeetsThresholds<D>(v: Vertex<D>, entries: Entries, grow: nat -> nat, w: Picks)
    requires Grows(grow) && Stocked(v, entries, grow) && Bounded(entries, w) && Fits(v, Chosen(entries, w))
    requires forall id :: Reaches(v, Chosen(entries, w), id) ==> id in w
    ensures MeetsThresholds(v, PickedTree(v, entries, w))
    decreases v
  {
    var sel, t := Chosen(entries, w), PickedTree(v, entries, w);
    if v.descendants == [] {
      if v.id in sel {
        NoneInRange(sel[v.id], |v.descendants|);
      }
    } else {
      assert Reaches(v, sel, v.id);
      var s := sel[v.id];
      RecordedAt(grow, |v.descendants|, v.threshold, w[v.id]);
      forall j | 0 <= j < |s| ensures MeetsThresholds(v.descendants[s[j]], t.descendants[j]) {
        forall id | Reaches(v.descendants[s[j]], sel, id) ensures Reaches(v, sel, id) {
        }
        PickedMeetsThresholds(v.descendants[s[j]], entries, grow, w);
      }
      assert KeepsThreshold(v, t, s);
    }
  }

  // ---------- The permutation loop ----------

  /** The permutations are, up to thresholds, one tree for every way of picking at the vertices done so far. */
  ghost predicate OnePerWay<D>(root: Vertex<D>, entries: Entries, done: set<string>, permutations: seq<Vertex<D>>,
                               ways: seq<Picks>)
  {
    && NoRepeats(ways)
    && (forall w :: w in ways <==> PickedSoFar(root, entries, w, done))
    && GivesAll(root, entries, ways, permutations)
  }

  ghost predicate GivesAll<D>(root: Vertex<D>, entries: Entries, ways: seq<Picks>, trees: seq<Vertex<D>>) {
    |ways| == |trees| && forall a :: 0 <= a < |ways| ==> Gives(root, entries, ways[a], trees[a])
  }

  ghost predicate Gives<D>(root: Vertex<D>, entries: Entries, w: Picks, t: Vertex<D>) {
    Bounded(entries, w) && Fits(root, Chosen(entries, w)) && Clone(t) == Clone(PickedTree(root, entries, w))
  }

  lemma GivesHas<D>(root: Vertex<D>, entries: Entries, w: Picks, t: Vertex<D>, id: string)
    requires Gives(root, entries, w, t)
    ensures Has(t, id) <==> Has(PickedTree(root, entries, w), id)
  {
    CloneHas(t, id);
    CloneHas(PickedTree(root, entries, w), id);
  }

  lemma GivesPick<D>(root: Vertex<D>, entries: Entries, grow: nat -> nat, w: Picks, t: Vertex<D>, done: set<string>,
                     q: Vertex<D>, e: nat)
    requires Grows(grow) && Stocked(root, entries, grow) && Gives(root, entries, w, t)
    requires PickedSoFar(root, entries, w, done) && Ready(root, q, done) && Has(root, q.id) && Waiting(q, done)
    requires q.descendants != [] && e < |At(entries, q.id)|
    ensures InRange(At(entries, q.id)[e], |q.descendants|)
    ensures Gives(root, entries, Pick(w, q.id, e), Replace(Clone(t), q.id, Select(q.descendants, At(entries, q.id)[e])))
  {
    hide Stocked, PickedSoFar, Ready, Has, Waiting, Restrict, Replace, Clone, Fits, Chosen, Pick, Bounded;
    PickOneTree(root, entries, grow, w, done, q, e);
    CloneTwice(t);
    ReplaceInClone(Clone(t), PickedTree(root, entries, w), q.id, Select(q.descendants, At(entries, q.id)[e]));
  }

  lemma ExpandedGives<D>(root: Vertex<D>, entries: Entries, grow: nat -> nat, done: set<string>, q: Vertex<D>,
                         go: seq<Picks>, whereExists: seq<Vertex<D>>, a: nat, e: nat, ways: seq<Picks>,
                         permutations: seq<Vertex<D>>)
    requires Grows(grow) && Stocked(root, entries, grow) && GivesAll(root, entries, go, whereExists)
    requires Ready(root, q, done) && Has(root, q.id) && Waiting(q, done) && q.descendants != []
    requires a < |go| && e < |At(entries, q.id)| && PickedSoFar(root, entries, go[a], done)
    requires GivesAll(root, entries, ways, permutations)
    ensures InRange(At(entries, q.id)[e], |q.descendants|)
    ensures var t := Replace(Clone(whereExists[a]), q.id, Select(q.descendants, At(entries, q.id)[e]));
            GivesAll(root, entries, ways + [Pick(go[a], q.id, e)], permutations + [t])
  {
    hide Gives, Stocked, Ready, Has, Waiting, PickedSoFar, Clone, Replace, Pick;
    GivesPick(root, entries, grow, go[a], whereExists[a], done, q, e);
  }

  lemma StartOnePerWay<D>(root: Vertex<D>, entries: Entries)
    ensures OnePerWay(root, entries, {}, [root], [map[]])
  {
    var none: Picks := map[];
    assert Chosen(entries, none) == map[];
    FitsNothing(root);
    forall w ensures w in [none] <==> PickedSoFar(root, entries, w, {}) {
      if PickedSoFar(root, entries, w, {}) {
        assert w == none;
      }
    }
  }

  lemma {:induction false} FitsNothing<D>(v: Vertex<D>)
    ensures Fits(v, map[])
  {
    forall j | 0 <= j < |v.descendants| ensures Fits(v.descendants[j], map[]) {
      FitsNothing(v.descendants[j]);
    }
  }

  lemma LeafOnePerWay<D>(root: Vertex<D>, entries: Entries, done: set<string>, permutations: seq<Vertex<D>>,
                         ways: seq<Picks>, q: Vertex<D>)
    requires OnePerWay(root, entries, done, permutations, ways)
    requires Ready(root, q, done) && Waiting(q, done) && q.descendants == []
    ensures OnePerWay(root, entries, done + {q.id}, permutations, ways)
  {
    forall w ensures PickedSoFar(root, entries, w, done + {q.id}) <==> PickedSoFar(root, entries, w, done) {
      if Bounded(entries, w) && Fits(root, Chosen(entries, w)) {
        PickLeaf(root, entries, w, done, q);
      }
    }
  }

  ghost predicate FromPick(w: Picks, go: seq<Picks>, id: string, n: nat, a: nat, e: nat)
    requires a <= |go|
  {
    id in w && ((Unpick(w, id) in go[..a] && w[id] < n) || (a < |go| && Unpick(w, id) == go[a] && w[id] < e))
  }

  /** The ways after a of the trees with the vertex, and e entries for the next of them, have been expanded. */
  ghost predicate Expanded(ways: seq<Picks>, stay: seq<Picks>, go: seq<Picks>, id: string, n: nat, a: nat, e: nat)
    requires a <= |go|
  {
    forall w :: w in ways <==> w in stay || FromPick(w, go, id, n, a, e)
  }

  lemma ExpandedStep(ways: seq<Picks>, stay: seq<Picks>, go: seq<Picks>, id: string, n: nat, a: nat, e: nat)
    requires a < |go| && e < n && Expanded(ways, stay, go, id, n, a, e)
    requires NoRepeats(ways) && NoRepeats(go)
    requires forall w :: w in stay || w in go ==> id !in w
    ensures Expanded(ways + [Pick(go[a], id, e)], stay, go, id, n, a, e + 1)
    ensures NoRepeats(ways + [Pick(go[a], id, e)])
  {
    var w := Pick(go[a], id, e);
    assert go[a] in go;
    assert Unpick(w, id) == go[a];
    assert w !in ways;
    var ways' := ways + [w];
    forall x ensures x in ways' <==> x in stay || FromPick(x, go, id, n, a, e + 1) {
      if id in x && Unpick(x, id) == go[a] && x[id] == e {
        assert x == Pick(Unpick(x, id), id, e) == w;
      }
    }
  }

  lemma ExpandedNext(ways: seq<Picks>, stay: seq<Picks>, go: seq<Picks>, id: string, n: nat, a: nat)
    requires a < |go| && Expanded(ways, stay, go, id, n, a, n)
    ensures Expanded(ways, stay, go, id, n, a + 1, 0)
  {
    assert go[..a + 1] == go[..a] + [go[a]];
  }

  /** When all have been expanded the ways are those of one more vertex done. */
  lemma ExpandedAll<D>(root: Vertex<D>, entries: Entries, grow: nat -> nat, done: set<string>, q: Vertex<D>,
                       ways: seq<Picks>, stay: seq<Picks>, go: seq<Picks>)
    requires Grows(grow) && Stocked(root, entries, grow)
    requires Ready(root, q, done) && Has(root, q.id) && Waiting(q, done) && q.descendants != []
    requires forall w :: w in stay <==> PickedSoFar(root, entries, w, done) && !Has(PickedTree(root, entries, w), q.id)
    requires forall w :: w in go <==> PickedSoFar(root, entries, w, done) && Has(PickedTree(root, entries, w), q.id)
    requires Expanded(ways, stay, go, q.id, |At(entries, q.id)|, |go|, 0)
    ensures forall w :: w in ways <==> PickedSoFar(root, entries, w, done + {q.id})
  {
    assert go[..|go|] == go;
    forall w ensures w in ways <==> PickedSoFar(root, entries, w, done + {q.id}) {
      if w in stay {
        PickNone(root, entries, w, done, q);
      } else if w in ways {
        var w0 := Unpick(w, q.id);
        PickOne(root, entries, grow, w0, done, q, w[q.id]);
      }
      if PickedSoFar(root, entries, w, done + {q.id}) {
        if q.id in w {
          PickBack(root, entries, grow, w, done, q);
          PickedHas(root, entries, Unpick(w, q.id), done, q);
        } else {
          NoPickBack(root, entries, w, done, q);
          PickedHas(root, entries, w, done, q);
        }
      }
    }
  }

  class TreePermutations<D> {
    const combinationUpperBound: int
    var originalRoot: Vertex<D>
    var permutations: seq<Vertex<D>>
    var descendantPermutations: Entries

    constructor (root: Vertex<D>, bound: int)
      ensures combinationUpperBound == bound && originalRoot == root
      ensures permutations == [root] && descendantPermutations == map[]
    {
      combinationUpperBound := bound;
      originalRoot := root;
      permutations := [root];
      descendantPermutations := map[];
    }

    ghost predicate Recording(root: Vertex<D>, kept: Selection, grow: nat -> nat, done: set<string>)
      requires Grows(grow)
      reads this
    {
      && descendantPermutations.Keys <= done && kept.Keys <= done && Distinct(kept)
      && Planned(root, kept, descendantPermutations, grow, combinationUpperBound, done)
      && Fits(root, kept) && originalRoot == Restrict(root, kept)
    }

    method AddEntries(id: string, sets: seq<seq<nat>>)
      modifies this`descendantPermutations
      ensures At(descendantPermutations, id) == At(old(descendantPermutations), id) + sets
      ensures descendantPermutations.Keys <= old(descendantPermutations).Keys + {id}
      ensures SameElsewhere(old(descendantPermutations), descendantPermutations, id)
    {
      for j := 0 to |sets|
        invariant At(descendantPermutations, id) == At(old(descendantPermutations), id) + sets[..j]
        invariant descendantPermutations.Keys <= old(descendantPermutations).Keys + {id}
        invariant SameElsewhere(old(descendantPermutations), descendantPermutations, id)
      {
        descendantPermutations := descendantPermutations[id := At(descendantPermutations, id) + [sets[j]]];
      }
    }

    /** Prunes one inner vertex and records its index sets. */
    method Record(grow: nat -> nat, v: Vertex<D>, ghost root: Vertex<D>, ghost kept: Selection, ghost done: set<string>)
      returns (ok: bool, ghost kept': Selection)
      requires Grows(grow) && Recording(root, kept, grow, done)
      requires Ready(root, v, done) && Waiting(v, done) && v.descendants != []
      modifies this`originalRoot, this`descendantPermutations
      ensures ok <==> !(combinationUpperBound <= 0 && v.threshold == 0)
      ensures ok ==> Recording(root, kept', grow, done + {v.id})
    {
      assert Has(v, v.id) && Unique(v) && v.id !in done;
      hide Planned, Restrict, Replace, Ready, Waiting, Has, PrunedSize, Recorded, Complete;
      PlannedFits(root, kept, descendantPermutations, grow, combinationUpperBound, done);
      var pruned: seq<Vertex<D>>;
      ghost var s;
      PrunedSizeExact(|v.descendants|, v.threshold, combinationUpperBound);
      ok, pruned, s := Prune(v.descendants, v.threshold, combinationUpperBound);
      if !ok {
        return false, kept;
      }
      originalRoot := Replace(originalRoot, v.id, pruned);
      kept' := kept[v.id := s];
      FitsStep(root, kept, v, done, s);
      RestrictStep(root, kept, v, done, s);
      ghost var before := descendantPermutations;
      var sets := ChooseKoutOfN(grow, |pruned|, v.threshold);
      AddEntries(v.id, sets);
      assert Distinct(kept');
      PlannedStep(root, kept, before, descendantPermutations, grow, combinationUpperBound, done, v, s);
    }

    /**
     * Prunes the descendants of every inner vertex and records the index sets into those that are left.
     * Fails, by a panic, exactly when the bound admits no combination and some inner vertex needs none.
     */
    method ComputeDescendantPermutations(grow: nat -> nat) returns (ok: bool, ghost kept: Selection)
      requires Grows(grow) && Unique(originalRoot) && descendantPermutations == map[]
      modifies this`originalRoot, this`descendantPermutations
      ensures ok <==> !(combinationUpperBound <= 0 && HasFreeInner(old(originalRoot)))
      ensures ok ==> PrunedTo(old(originalRoot), kept, combinationUpperBound)
      ensures ok ==> Fits(old(originalRoot), kept) && originalRoot == Restrict(old(originalRoot), kept)
      ensures ok ==> Unique(originalRoot) && Stocked(originalRoot, descendantPermutations, grow)
    {
      hide Frontier, Planned, Restrict, HasFreeInner, AnyFreeInner, Fits;
      ghost var root, done := originalRoot, {};
      kept := map[];
      FrontierStart(root);
      PlannedStart(root, grow, combinationUpperBound);
      FitsNothing(root);
      var it := new BfsIterator(originalRoot);
      StartFree(root);
      while true
        invariant Frontier(root, it.arr, done) && Recording(root, kept, grow, done)
        invariant combinationUpperBound <= 0 ==> (HasFreeInner(root) <==> AnyFreeInner(it.arr))
        decreases SizeAll(it.arr)
      {
        ghost var queue := it.arr;
        var next := it.Next();
        if next == None {
          break;
        }
        var v := next.value;
        FrontierHead(root, queue, done);
        FrontierStep(root, queue, done);
        FreeInnerAdvance(queue);
        if v.descendants == [] {
          PlannedLeaf(root, kept, descendantPermutations, grow, combinationUpperBound, done, v);
        } else {
          var recorded: bool;
          recorded, kept := Record(grow, v, root, kept, done);
          if !recorded {
            return false, kept;
          }
        }
        done := done + {v.id};
      }
      ok := true;
      NoneFree<D>();
      PlannedAll(root, kept, descendantPermutations, grow, combinationUpperBound, done);
    }

    /** Parts the permutations into those that have the vertex and those that do not. */
    method Part(id: string, ghost done: set<string>, ghost ways: seq<Picks>)
      returns (whereExists: seq<Vertex<D>>, whereNot: seq<Vertex<D>>, ghost go: seq<Picks>, ghost stay: seq<Picks>)
      requires OnePerWay(originalRoot, descendantPermutations, done, permutations, ways)
      ensures Parted(originalRoot, descendantPermutations, id, permutations, ways, whereExists, go, whereNot, stay)
      ensures whereExists == Having(permutations, id, true) && whereNot == Having(permutations, id, false)
    {
      whereExists, whereNot, go, stay := [], [], [], [];
      for a := 0 to |permutations|
        invariant whereExists == Having(permutations[..a], id, true) && whereNot == Having(permutations[..a], id, false)
        invariant Parted(originalRoot, descendantPermutations, id, permutations[..a], ways[..a], whereExists, go,
                         whereNot, stay)
      {
        assert permutations[..a + 1][..a] == permutations[..a];
        PartedStep(originalRoot, descendantPermutations, id, permutations, ways, a, whereExists, go, whereNot, stay);
        if Exists(permutations[a], id) {
          whereExists, go := whereExists + [permutations[a]], go + [ways[a]];
        } else {
          whereNot, stay := whereNot + [permutations[a]], stay + [ways[a]];
        }
      }
      assert permutations[..|permutations|] == permutations && ways[..|ways|] == ways;
    }

    /** Replaces each permutation that has the vertex by one for each of its entries. */
    method Expand(grow: nat -> nat, v: Vertex<D>, ghost done: set<string>, ghost ways: seq<Picks>)
      returns (ghost ways': seq<Picks>)
      requires Grows(grow) && Stocked(originalRoot, descendantPermutations, grow)
      requires Ready(originalRoot, v, done) && Has(originalRoot, v.id) && Waiting(v, done) && v.descendants != []
      requires OnePerWay(originalRoot, descendantPermutations, done, permutations, ways)
      modifies this`permutations
      ensures OnePerWay(originalRoot, descendantPermutations, done + {v.id}, permutations, ways')
    {
      hide Expanded, Gives, Stocked, Ready, Has, Waiting, PickedSoFar, Clone, Replace, Pick, Parted, NoRepeats,
           GivesAll, Having, InRange, Chosen, Bounded, Fits;
      var whereExists, whereNot, go, stay := Part(v.id, done, ways);
      PartedWays(originalRoot, descendantPermutations, done, v, permutations, ways, whereExists, go, whereNot, stay);
      permutations := whereNot;
      ways' := stay;
      var n := |At(descendantPermutations, v.id)|;
      for a := 0 to |whereExists|
        invariant Expanded(ways', stay, go, v.id, n, a, 0) && NoRepeats(ways')
        invariant GivesAll(originalRoot, descendantPermutations, ways', permutations)
      {
        for e := 0 to n
          invariant Expanded(ways', stay, go, v.id, n, a, e) && NoRepeats(ways')
          invariant GivesAll(originalRoot, descendantPermutations, ways', permutations)
        {
          ExpandedStep(ways', stay, go, v.id, n, a, e);
          ExpandedGives(originalRoot, descendantPermutations, grow, done, v, go, whereExists, a, e, ways',
                        permutations);
          var subGraph := Select(v.descendants, At(descendantPermutations, v.id)[e]);
          permutations := permutations + [Replace(Clone(whereExists[a]), v.id, subGraph)];
          ways' := ways' + [Pick(go[a], v.id, e)];
        }
        ExpandedNext(ways', stay, go, v.id, n, a);
      }
      ExpandedAll(originalRoot, descendantPermutations, grow, done, v, ways', stay, go);
    }

    /**
     * Up to thresholds, the trees returned are exactly one for each way of picking, top-down, one recorded entry at
     * every inner vertex that is left of the pruned tree.
     */
    method Permute(grow: nat -> nat)
      returns (trees: Option<seq<Vertex<D>>>, ghost kept: Selection, ghost ways: seq<Picks>)
      requires Grows(grow) && Unique(originalRoot) && descendantPermutations == map[] && permutations == [originalRoot]
      modifies this
      ensures trees == None <==> combinationUpperBound <= 0 && HasFreeInner(old(originalRoot))
      ensures trees.Some? ==>
                && PrunedTo(old(originalRoot), kept, combinationUpperBound) && Fits(old(originalRoot), kept)
                && originalRoot == Restrict(old(originalRoot), kept)
                && Stocked(originalRoot, descendantPermutations, grow)
      ensures trees.Some? ==>
                && NoRepeats(ways) && (forall w :: w in ways <==> Picked(originalRoot, descendantPermutations, w))
                && GivesAll(originalRoot, descendantPermutations, ways, trees.value)
    {
      var ok;
      ok, kept := ComputeDescendantPermutations(grow);
      ways := [map[]];
      if !ok {
        return None, kept, ways;
      }
      permutations := [originalRoot];
      ghost var done := {};
      FrontierStart(originalRoot);
      StartOnePerWay(originalRoot, descendantPermutations);
      var it := new BfsIterator(originalRoot);
      hide Frontier, OnePerWay, Stocked, PrunedTo, Restrict, Fits;
      ghost var root, entries := originalRoot, descendantPermutations;
      while true
        invariant originalRoot == root && descendantPermutations == entries
        invariant Frontier(originalRoot, it.arr, done)
        invariant OnePerWay(originalRoot, descendantPermutations, done, permutations, ways)
        decreases SizeAll(it.arr)
      {
        ghost var queue := it.arr;
        var next := it.Next();
        if next == None {
          break;
        }
        var v := next.value;
        FrontierHead(originalRoot, queue, done);
        FrontierStep(originalRoot, queue, done);
        if v.descendants == [] {
          LeafOnePerWay(originalRoot, descendantPermutations, done, permutations, ways, v);
        } else {
          ways := Expand(grow, v, done, ways);
        }
        done := done + {v.id};
      }
      AllDone(originalRoot, descendantPermutations, done, permutations, ways);
      trees := Some(permutations);
    }
  }

  lemma StartFree<D>(root: Vertex<D>)
    requires Fits(root, map[])
    ensures HasFreeInner(root) <==> AnyFreeInner([root])
    ensures Restrict(root, map[]) == root
  {
    assert HasFreeInner([root][0]) <==> HasFreeInner(root);
  }

  lemma NoneFree<D>()
    ensures !AnyFreeInner<D>([])
  {
  }

  lemma PlannedAll<D>(root: Vertex<D>, kept: Selection, entries: Entries, grow: nat -> nat, bound: int,
                      done: set<string>)
    requires Grows(grow) && Unique(root) && Frontier(root, [], done) && Distinct(kept) && Fits(root, kept)
    requires Planned(root, kept, entries, grow, bound, done)
    ensures PrunedTo(root, kept, bound) && Unique(Restrict(root, kept)) && Stocked(Restrict(root, kept), entries, grow)
  {
    FrontierEnd(root, done);
    PlannedPruned(root, kept, entries, grow, bound, done);
    PlannedStocked(root, kept, entries, grow, bound, done);
    RestrictUnique(root, kept);
  }

  lemma AllDone<D>(root: Vertex<D>, entries: Entries, done: set<string>, permutations: seq<Vertex<D>>, ways: seq<Picks>)
    requires Frontier(root, [], done) && OnePerWay(root, entries, done, permutations, ways)
    ensures NoRepeats(ways) && forall w :: w in ways <==> Picked(root, entries, w)
    ensures GivesAll(root, entries, ways, permutations)
  {
    FrontierEnd(root, done);
    forall w ensures PickedSoFar(root, entries, w, done) <==> Picked(root, entries, w) {
      if Bounded(entries, w) && Fits(root, Chosen(entries, w)) {
        forall id | Reaches(root, Chosen(entries, w), id) ensures id in done {
          ReachesHas(root, Chosen(entries, w), id);
        }
      }
    }
  }

  lemma PartedStep<D>(root: Vertex<D>, entries: Entries, id: string, permutations: seq<Vertex<D>>, ways: seq<Picks>,
                      a: nat, whereExists: seq<Vertex<D>>, go: seq<Picks>, whereNot: seq<Vertex<D>>, stay: seq<Picks>)
    requires |permutations| == |ways| && a < |ways| && NoRepeats(ways) && Gives(root, entries, ways[a], permutations[a])
    requires Parted(root, entries, id, permutations[..a], ways[..a], whereExists, go, whereNot, stay)
    ensures Has(permutations[a], id) ==>
              Parted(root, entries, id, permutations[..a + 1], ways[..a + 1], whereExists + [permutations[a]],
                     go + [ways[a]], whereNot, stay)
    ensures !Has(permutations[a], id) ==>
              Parted(root, entries, id, permutations[..a + 1], ways[..a + 1], whereExists, go,
                     whereNot + [permutations[a]], stay + [ways[a]])
  {
    hide Gives, Has;
    assert permutations[..a + 1] == permutations[..a] + [permutations[a]] && ways[..a + 1] == ways[..a] + [ways[a]];
    assert ways[a] !in ways[..a];
  }

  lemma PartedWays<D>(root: Vertex<D>, entries: Entries, done: set<string>, q: Vertex<D>, permutations: seq<Vertex<D>>,
                      ways: seq<Picks>, whereExists: seq<Vertex<D>>, go: seq<Picks>, whereNot: seq<Vertex<D>>,
                      stay: seq<Picks>)
    requires OnePerWay(root, entries, done, permutations, ways) && Waiting(q, done)
    requires Parted(root, entries, q.id, permutations, ways, whereExists, go, whereNot, stay)
    ensures forall w :: w in stay <==> PickedSoFar(root, entries, w, done) && !Has(PickedTree(root, entries, w), q.id)
    ensures forall w :: w in go <==> PickedSoFar(root, entries, w, done) && Has(PickedTree(root, entries, w), q.id)
    ensures forall w :: w in stay || w in go ==> q.id !in w
    ensures |whereExists| == |go| && NoRepeats(go) && NoRepeats(stay)
    ensures GivesAll(root, entries, go, whereExists) && GivesAll(root, entries, stay, whereNot)
    ensures Expanded(stay, stay, go, q.id, |At(entries, q.id)|, 0, 0)
  {
    hide Gives;
    assert Has(q, q.id);
    forall a | 0 <= a < |go|
      ensures PickedSoFar(root, entries, go[a], done) && Has(PickedTree(root, entries, go[a]), q.id)
    {
      GivesHas(root, entries, go[a], whereExists[a], q.id);
    }
    forall a | 0 <= a < |stay|
      ensures PickedSoFar(root, entries, stay[a], done) && !Has(PickedTree(root, entries, stay[a]), q.id)
    {
      GivesHas(root, entries, stay[a], whereNot[a], q.id);
    }
  }

  /** Those of the trees that have, or do not have, a vertex with the id. */
  function Having<D>(trees: seq<Vertex<D>>, id: string, has: bool): seq<Vertex<D>> {
    if trees == [] then []
    else Having(trees[..|trees| - 1], id, has) +
           if Exists(trees[|trees| - 1], id) == has then [trees[|trees| - 1]] else []
  }

  /** The permutations so far, parted into those that have the vertex and those that do not, with their ways. */
  ghost predicate Parted<D>(root: Vertex<D>, entries: Entries, id: string, permutations: seq<Vertex<D>>,
                            ways: seq<Picks>, whereExists: seq<Vertex<D>>, go: seq<Picks>, whereNot: seq<Vertex<D>>,
                            stay: seq<Picks>)
  {
    && |permutations| == |ways| && |whereExists| == |go| && |whereNot| == |stay|
    && (forall a :: 0 <= a < |go| ==>
         go[a] in ways && Gives(root, entries, go[a], whereExists[a]) && Has(whereExists[a], id))
    && (forall a :: 0 <= a < |stay| ==>
         stay[a] in ways && Gives(root, entries, stay[a], whereNot[a]) && !Has(whereNot[a], id))
    && (forall w :: w in ways ==> w in go || w in stay)
    && NoRepeats(go) && NoRepeats(stay)
  }

  ghost predicate Distinct(kept: Selection) {
    forall id :: id in kept ==> forall a, b :: 0 <= a < b < |kept[id]| ==> kept[id][a] != kept[id][b]
  }

  lemma FrontierHead<D>(root: Vertex<D>, queue: seq<Vertex<D>>, done: set<string>)
    requires queue != [] && Frontier(root, queue, done)
    ensures Has(root, queue[0].id) && Ready(root, queue[0], done) && Waiting(queue[0], done)
  {
  }

  lemma FrontierEnd<D>(root: Vertex<D>, done: set<string>)
    requires Frontier(root, [], done)
    ensures forall id :: Has(root, id) ==> id in done
  {
  }
}
