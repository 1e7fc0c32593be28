/** Combinations of sub-trees, after pobl/common/graph/perm.go. */
module Permutations {
  import opened Wrappers
  import opened Choose
  import opened Sequences
  import opened Tree

  /** The descendants a vertex keeps, by the id of the vertex and their positions. */
  type Selection = map<string, seq<nat>>

  /** The index sets recorded for each vertex. */
  type Entries = map<string, seq<seq<nat>>>

  /** Which recorded entry is picked at each vertex. */
  type Picks = map<string, nat>

  // ---------- Restricting a tree to a selection ----------

  predicate Fits<D>(v: Vertex<D>, sel: Selection) {
    && (v.id in sel ==> InRange(sel[v.id], |v.descendants|))
    && forall j :: 0 <= j < |v.descendants| ==> Fits(v.descendants[j], sel)
  }

  /** Top-down: a vertex in the selection keeps its selected descendants, restricted; any other is kept whole. */
  function Restrict<D>(v: Vertex<D>, sel: Selection): (r: Vertex<D>)
    requires Fits(v, sel)
    ensures r.id == v.id && r.data == v.data && r.threshold == v.threshold
    ensures v.id in sel ==> |r.descendants| == |sel[v.id]|
    decreases v
  {
    if v.id in sel then
      var s := sel[v.id];
      Vertex(v.id, v.data, seq(|s|, j requires 0 <= j < |s| => Restrict(v.descendants[s[j]], sel)), v.threshold)
    else v
  }

  /** Every inner vertex that is done and still reached is in the selection. */
  predicate Complete<D>(v: Vertex<D>, sel: Selection, done: set<string>)
    requires Fits(v, sel)
    decreases v
  {
    && (v.descendants != [] && v.id in done ==> v.id in sel)
    && (v.id in sel ==> forall j :: 0 <= j < |sel[v.id]| ==> Complete(v.descendants[sel[v.id][j]], sel, done))
  }

  /** An inner vertex with this id is left by the restriction, on a path of selected vertices. */
  predicate Reaches<D>(v: Vertex<D>, sel: Selection, id: string)
    requires Fits(v, sel)
    decreases v
  {
    || (v.id == id && v.descendants != [])
    || (v.id in sel && exists j :: 0 <= j < |sel[v.id]| && Reaches(v.descendants[sel[v.id][j]], sel, id))
  }

  /** Nothing in q is done, and its ids are unique. */
  ghost predicate Waiting<D>(q: Vertex<D>, done: set<string>) {
    Unique(q) && forall id :: Has(q, id) ==> id !in done
  }

  lemma ReadyChild<D>(v: Vertex<D>, q: Vertex<D>, done: set<string>, j: nat)
    requires Ready(v, q, done) && Unique(q) && j < |v.descendants|
    ensures Ready(v.descendants[j], q, done)
  {
  }

  lemma {:induction false} RestrictHas<D>(v: Vertex<D>, sel: Selection, id: string)
    requires Fits(v, sel) && Has(Restrict(v, sel), id)
    ensures Has(v, id)
    decreases v
  {
    if v.id in sel && v.id != id {
      var j :| 0 <= j < |sel[v.id]| && Has(Restrict(v, sel).descendants[j], id);
      RestrictHas(v.descendants[sel[v.id][j]], sel, id);
    }
  }

  lemma {:induction false} ReachesHas<D>(v: Vertex<D>, sel: Selection, id: string)
    requires Fits(v, sel) && Reaches(v, sel, id)
    ensures Has(v, id)
    decreases v
  {
    if v.id != id {
      var j :| 0 <= j < |sel[v.id]| && Reaches(v.descendants[sel[v.id][j]], sel, id);
      ReachesHas(v.descendants[sel[v.id][j]], sel, id);
    }
  }

  lemma {:induction false} FitsStep<D>(v: Vertex<D>, sel: Selection, q: Vertex<D>, done: set<string>, s: seq<nat>)
    requires Fits(v, sel) && Ready(v, q, done) && Unique(q) && InRange(s, |q.descendants|)
    ensures Fits(v, sel[q.id := s])
    decreases v
  {
    forall j | 0 <= j < |v.descendants| ensures Fits(v.descendants[j], sel[q.id := s]) {
      ReadyChild(v, q, done, j);
      FitsStep(v.descendants[j], sel, q, done, s);
    }
  }

  lemma RestrictAt<D>(q: Vertex<D>, sel: Selection, done: set<string>, s: seq<nat>)
    requires Waiting(q, done) && sel.Keys <= done && InRange(s, |q.descendants|)
    requires Fits(q, sel) && Fits(q, sel[q.id := s])
    ensures Restrict(q, sel) == q
    ensures Restrict(q, sel[q.id := s]) == Replace(q, q.id, Select(q.descendants, s))
  {
    assert Has(q, q.id);
    var sel' := sel[q.id := s];
    forall j | 0 <= j < |s| ensures Restrict(q, sel').descendants[j] == q.descendants[s[j]] {
      var u := q.descendants[s[j]];
      assert Has(u, u.id) && Has(q, u.id);
    }
    assert Restrict(q, sel').descendants == Select(q.descendants, s);
  }

  lemma NotBelow<D>(v: Vertex<D>, sel: Selection, q: Vertex<D>, done: set<string>)
    requires Fits(v, sel) && Ready(v, q, done) && Complete(v, sel, done) && v.id !in sel && v.id != q.id
    ensures !Has(v, q.id)
  {
  }

  /** Adding a waiting vertex to the selection is replacing its descendants, wherever it is left. */
  lemma {:induction false} RestrictStep<D>(v: Vertex<D>, sel: Selection, q: Vertex<D>, done: set<string>, s: seq<nat>)
    requires Fits(v, sel) && Fits(v, sel[q.id := s]) && Ready(v, q, done) && Waiting(q, done) && Complete(v, sel, done)
    requires sel.Keys <= done && InRange(s, |q.descendants|)
    ensures Restrict(v, sel[q.id := s]) == Replace(Restrict(v, sel), q.id, Select(q.descendants, s))
    decreases v
  {
    var sel', ds := sel[q.id := s], Select(q.descendants, s);
    if v.id == q.id {
      RestrictAt(q, sel, done, s);
    } else if v.id in sel {
      var at := sel[v.id];
      var left, right := Restrict(v, sel'), Replace(Restrict(v, sel), q.id, ds);
      forall j | 0 <= j < |at| ensures left.descendants[j] == right.descendants[j] {
        ReadyChild(v, q, done, at[j]);
        RestrictStep(v.descendants[at[j]], sel, q, done, s);
      }
      assert left.descendants == right.descendants;
    } else {
      NotBelow(v, sel, q, done);
      ReplaceAbsent(v, q.id, ds);
    }
  }

  /** The test for the vertex in the restricted tree says whether it is reached. */
  lemma {:induction false} HasReached<D>(v: Vertex<D>, sel: Selection, q: Vertex<D>, done: set<string>)
    requires Fits(v, sel) && Ready(v, q, done) && Waiting(q, done) && Complete(v, sel, done) && q.descendants != []
    ensures Has(Restrict(v, sel), q.id) <==> Reaches(v, sel, q.id)
    decreases v
  {
    if v.id == q.id {
      assert v == q;
    } else if v.id in sel {
      var at, r := sel[v.id], Restrict(v, sel);
      forall j | 0 <= j < |at| ensures Has(r.descendants[j], q.id) <==> Reaches(v.descendants[at[j]], sel, q.id) {
        ReadyChild(v, q, done, at[j]);
        HasReached(v.descendants[at[j]], sel, q, done);
      }
    } else {
      NotBelow(v, sel, q, done);
    }
  }

  lemma {:induction false} LeafNotReached<D>(v: Vertex<D>, sel: Selection, q: Vertex<D>, done: set<string>)
    requires Fits(v, sel) && Ready(v, q, done) && Waiting(q, done) && q.descendants == []
    ensures !Reaches(v, sel, q.id)
    decreases v
  {
    if v.id == q.id {
      assert v == q;
      assert v.id in sel ==> InRange(sel[v.id], 0);
    } else if v.id in sel {
      var at := sel[v.id];
      forall j | 0 <= j < |at| ensures !Reaches(v.descendants[at[j]], sel, q.id) {
        ReadyChild(v, q, done, at[j]);
        LeafNotReached(v.descendants[at[j]], sel, q, done);
      }
    }
  }

  /** Adding a waiting vertex to the selection changes what is reached only below it. */
  lemma {:induction false} ReachesStep<D>(v: Vertex<D>, sel: Selection, q: Vertex<D>, done: set<string>, s: seq<nat>,
                                          id: string)
    requires Fits(v, sel) && Fits(v, sel[q.id := s]) && Ready(v, q, done) && Unique(q) && q.id !in sel
    requires InRange(s, |q.descendants|)
    requires forall j :: 0 <= j < |q.descendants| ==> !Has(q.descendants[j], id)
    ensures Reaches(v, sel[q.id := s], id) <==> Reaches(v, sel, id)
    decreases v
  {
    var sel' := sel[q.id := s];
    if v.id == q.id {
      assert v == q;
      forall j | 0 <= j < |s| ensures !Reaches(q.descendants[s[j]], sel', id) {
        if Reaches(q.descendants[s[j]], sel', id) {
          ReachesHas(q.descendants[s[j]], sel', id);
        }
      }
    } else if v.id in sel {
      var at := sel[v.id];
      forall j | 0 <= j < |at|
        ensures Reaches(v.descendants[at[j]], sel', id) <==> Reaches(v.descendants[at[j]], sel, id)
      {
        ReadyChild(v, q, done, at[j]);
        ReachesStep(v.descendants[at[j]], sel, q, done, s, id);
      }
    }
  }

  lemma {:induction false} RestrictUnique<D>(v: Vertex<D>, sel: Selection)
    requires Fits(v, sel) && Unique(v)
    requires forall id :: id in sel ==> forall a, b :: 0 <= a < b < |sel[id]| ==> sel[id][a] != sel[id][b]
    ensures Unique(Restrict(v, sel))
    decreases v
  {
    if v.id in sel {
      var at, r := sel[v.id], Restrict(v, sel);
      forall j | 0 <= j < |at| ensures Unique(r.descendants[j]) && !Has(r.descendants[j], v.id) {
        RestrictUnique(v.descendants[at[j]], sel);
        if Has(r.descendants[j], v.id) {
          RestrictHas(v.descendants[at[j]], sel, v.id);
        }
      }
      forall a, b | 0 <= a < b < |at| ensures Disjoint(r.descendants[a], r.descendants[b]) {
        RestrictDisjoint(v, sel, a, b);
      }
    }
  }

  lemma RestrictDisjoint<D>(v: Vertex<D>, sel: Selection, a: nat, b: nat)
    requires Fits(v, sel) && Unique(v) && v.id in sel && a < b < |sel[v.id]| && sel[v.id][a] != sel[v.id][b]
    ensures Disjoint(Restrict(v, sel).descendants[a], Restrict(v, sel).descendants[b])
  {
    var x, y := v.descendants[sel[v.id][a]], v.descendants[sel[v.id][b]];
    assert Disjoint(x, y) || Disjoint(y, x);
    forall id ensures !(Has(Restrict(x, sel), id) && Has(Restrict(y, sel), id)) {
      if Has(Restrict(x, sel), id) {
        RestrictHas(x, sel, id);
      }
      if Has(Restrict(y, sel), id) {
        RestrictHas(y, sel, id);
      }
    }
  }

  // ---------- Pruning and recording ----------

  function At(entries: Entries, id: string): seq<seq<nat>> {
    if id in entries then entries[id] else []
  }

  lemma SelectWithout<T>(items: seq<T>, kept: seq<nat>, victim: nat)
    requires Increasing(kept, 0, |items|) && victim < |kept|
    ensures Increasing(Without(kept, victim), 0, |items|)
    ensures Select(items, Without(kept, victim)) == Without(Select(items, kept), victim)
  {
  }

  lemma SelectAll<T>(items: seq<T>)
    ensures Increasing(FirstSet(|items|), 0, |items|) && Select(items, FirstSet(|items|)) == items
  {
  }

  lemma PrunedSizeStep(n: nat, k: nat, bound: int)
    ensures !CombinationsExceed(n, k, bound) ==> PrunedSize(n, k, bound) == Some(n)
    ensures CombinationsExceed(n, k, bound) ==>
              PrunedSize(n, k, bound) == if n == 0 then None else PrunedSize(n - 1, k, bound)
  {
  }

  /** Removes descendants at random while there are too many combinations; fails when the random pick panics. */
  method Prune<T>(items: seq<T>, threshold: nat, bound: int) returns (ok: bool, pruned: seq<T>, ghost kept: seq<nat>)
    ensures PrunedSize(|items|, threshold, bound) == if ok then Some(|pruned|) else None
    ensures Increasing(kept, 0, |items|) && pruned == Select(items, kept)
  {
    hide PrunedSize, CombinationsExceed;
    pruned, kept := items, FirstSet(|items|);
    SelectAll(items);
    while CombinationsExceed(|pruned|, threshold, bound)
      invariant Increasing(kept, 0, |items|) && pruned == Select(items, kept)
      invariant PrunedSize(|pruned|, threshold, bound) == PrunedSize(|items|, threshold, bound)
      decreases |pruned|
    {
      PrunedSizeStep(|pruned|, threshold, bound);
      if pruned == [] {
        return false, pruned, kept;
      }
      var victim: nat :| victim < |pruned|;
      SelectWithout(items, kept, victim);
      pruned, kept := Without(pruned, victim), Without(kept, victim);
    }
    PrunedSizeStep(|pruned|, threshold, bound);
    ok := true;
  }

  ghost predicate SameElsewhere(entries: Entries, entries': Entries, id: string) {
    forall i :: i != id ==> (i in entries' <==> i in entries) && At(entries', i) == At(entries, i)
  }

  /** What recording has established of the tree so far: which descendants are kept, and the index sets into those. */
  ghost predicate Planned<D>(v: Vertex<D>, kept: Selection, entries: Entries, grow: nat -> nat, bound: int,
                             done: set<string>)
    requires Grows(grow)
    decreases v
  {
    && (v.id in kept <==> v.descendants != [] && v.id in done)
    && (v.id in kept ==>
          && Increasing(kept[v.id], 0, |v.descendants|)
          && PrunedSize(|v.descendants|, v.threshold, bound) == Some(|kept[v.id]|)
          && At(entries, v.id) == Recorded(grow, |kept[v.id]|, v.threshold))
    && (v.id !in kept ==> v.id !in entries)
    && forall j :: 0 <= j < |v.descendants| ==> Planned(v.descendants[j], kept, entries, grow, bound, done)
  }

  lemma {:induction false} PlannedFits<D>(v: Vertex<D>, kept: Selection, entries: Entries, grow: nat -> nat, bound: int,
                                          done: set<string>)
    requires Grows(grow) && Planned(v, kept, entries, grow, bound, done)
    ensures Fits(v, kept) && Complete(v, kept, done)
    decreases v
  {
    forall j | 0 <= j < |v.descendants| ensures Fits(v.descendants[j], kept) && Complete(v.descendants[j], kept, done) {
      PlannedFits(v.descendants[j], kept, entries, grow, bound, done);
    }
  }

  lemma {:induction false} PlannedStart<D>(v: Vertex<D>, grow: nat -> nat, bound: int)
    requires Grows(grow)
    ensures Planned(v, map[], map[], grow, bound, {})
  {
    forall j | 0 <= j < |v.descendants| ensures Planned(v.descendants[j], map[], map[], grow, bound, {}) {
      PlannedStart(v.descendants[j], grow, bound);
    }
  }

  lemma {:induction false} PlannedLeaf<D>(v: Vertex<D>, kept: Selection, entries: Entries, grow: nat -> nat, bound: int,
                                          done: set<string>, q: Vertex<D>)
    requires Grows(grow) && Planned(v, kept, entries, grow, bound, done)
    requires Ready(v, q, done) && Unique(q) && q.descendants == []
    ensures Planned(v, kept, entries, grow, bound, done + {q.id})
    decreases v
  {
    forall j | 0 <= j < |v.descendants| ensures Planned(v.descendants[j], kept, entries, grow, bound, done + {q.id}) {
      ReadyChild(v, q, done, j);
      PlannedLeaf(v.descendants[j], kept, entries, grow, bound, done, q);
    }
  }

  lemma {:induction false} PlannedStep<D>(v: Vertex<D>, kept: Selection, entries: Entries, entries': Entries,
                                          grow: nat -> nat, bound: int, done: set<string>, q: Vertex<D>, s: seq<nat>)
    requires Grows(grow) && Planned(v, kept, entries, grow, bound, done)
    requires Ready(v, q, done) && Unique(q) && q.descendants != []
    requires Increasing(s, 0, |q.descendants|) && PrunedSize(|q.descendants|, q.threshold, bound) == Some(|s|)
    requires At(entries', q.id) == Recorded(grow, |s|, q.threshold)
    requires SameElsewhere(entries, entries', q.id)
    ensures Planned(v, kept[q.id := s], entries', grow, bound, done + {q.id})
    decreases v
  {
    hide Increasing, PrunedSize, Recorded;
    forall j | 0 <= j < |v.descendants|
      ensures Planned(v.descendants[j], kept[q.id := s], entries', grow, bound, done + {q.id})
    {
      ReadyChild(v, q, done, j);
      PlannedStep(v.descendants[j], kept, entries, entries', grow, bound, done, q, s);
    }
  }

  /** Every vertex that still has descendants has the index sets into those; no index set is out of range. */
  ghost predicate Stocked<D>(v: Vertex<D>, entries: Entries, grow: nat -> nat)
    requires Grows(grow)
    decreases v
  {
    && (v.descendants != [] ==> At(entries, v.id) == Recorded(grow, |v.descendants|, v.threshold))
    && (forall e :: 0 <= e < |At(entries, v.id)| ==> InRange(At(entries, v.id)[e], |v.descendants|))
    && forall j :: 0 <= j < |v.descendants| ==> Stocked(v.descendants[j], entries, grow)
  }

  lemma RecordedInRange(grow: nat -> nat, n: nat, k: nat)
    requires Grows(grow)
    ensures forall e :: 0 <= e < |Recorded(grow, n, k)| ==> InRange(Recorded(grow, n, k)[e], n)
  {
    RecordedSets(grow, n, k);
    forall e | 0 <= e < |Recorded(grow, n, k)| ensures InRange(Recorded(grow, n, k)[e], n) {
      assert Recorded(grow, n, k)[e] in Recorded(grow, n, k);
    }
  }

  lemma {:induction false} PlannedStocked<D>(v: Vertex<D>, kept: Selection, entries: Entries, grow: nat -> nat,
                                             bound: int, done: set<string>)
    requires Grows(grow) && Planned(v, kept, entries, grow, bound, done) && Fits(v, kept)
    requires forall id :: Has(v, id) ==> id in done
    ensures Stocked(Restrict(v, kept), entries, grow)
    decreases v
  {
    assert Has(v, v.id);
    if v.id in kept {
      var s, r := kept[v.id], Restrict(v, kept);
      RecordedInRange(grow, |s|, v.threshold);
      hide Recorded, Increasing, PrunedSize;
      forall j | 0 <= j < |s| ensures Stocked(r.descendants[j], entries, grow) {
        PlannedStocked(v.descendants[s[j]], kept, entries, grow, bound, done);
      }
    }
  }

  /** Every inner vertex keeps, in order, as many descendants as pruning leaves it. */
  ghost predicate PrunedTo<D>(v: Vertex<D>, kept: Selection, bound: int)
    decreases v
  {
    && (v.id in kept <==> v.descendants != [])
    && (v.id in kept ==>
          && Increasing(kept[v.id], 0, |v.descendants|)
          && PrunedSize(|v.descendants|, v.threshold, bound) == Some(|kept[v.id]|))
    && forall j :: 0 <= j < |v.descendants| ==> PrunedTo(v.descendants[j], kept, bound)
  }

  lemma {:induction false} PlannedPruned<D>(v: Vertex<D>, kept: Selection, entries: Entries, grow: nat -> nat,
                                            bound: int, done: set<string>)
    requires Grows(grow) && Planned(v, kept, entries, grow, bound, done)
    requires forall id :: Has(v, id) ==> id in done
    ensures PrunedTo(v, kept, bound)
    decreases v
  {
    assert Has(v, v.id);
    forall j | 0 <= j < |v.descendants| ensures PrunedTo(v.descendants[j], kept, bound) {
      PlannedPruned(v.descendants[j], kept, entries, grow, bound, done);
    }
  }

  /** Some inner vertex needs none of its descendants. */
  predicate HasFreeInner<D>(v: Vertex<D>) {
    || (v.descendants != [] && v.threshold == 0)
    || exists j :: 0 <= j < |v.descendants| && HasFreeInner(v.descendants[j])
  }

  predicate AnyFreeInner<D>(queue: seq<Vertex<D>>) {
    exists a :: 0 <= a < |queue| && HasFreeInner(queue[a])
  }

  lemma FreeInnerAdvance<D>(queue: seq<Vertex<D>>)
    requires queue != []
    ensures AnyFreeInner(queue) <==>
              (queue[0].descendants != [] && queue[0].threshold == 0) || AnyFreeInner(Advance(queue))
  {
    var q, next, n := queue[0], Advance(queue), |queue| - 1;
    if AnyFreeInner(queue) {
      var a :| 0 <= a < |queue| && HasFreeInner(queue[a]);
      if a > 0 {
        assert HasFreeInner(next[a - 1]);
      } else if !(q.descendants != [] && q.threshold == 0) {
        var j :| 0 <= j < |q.descendants| && HasFreeInner(q.descendants[j]);
        assert HasFreeInner(next[n + j]);
      }
    }
    if AnyFreeInner(next) {
      var a :| 0 <= a < |next| && HasFreeInner(next[a]);
      if a < n {
        assert HasFreeInner(queue[a + 1]);
      } else {
        assert HasFreeInner(q.descendants[a - n]);
        assert HasFreeInner(queue[0]);
      }
    }
  }
}
