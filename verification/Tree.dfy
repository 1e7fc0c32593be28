/** Trees of vertices and their breadth-first traversal, after pobl/common/graph/tree.go. */
module Tree {
  import opened Wrappers

  datatype Vertex<D> = Vertex(id: string, data: D, descendants: seq<Vertex<D>>, threshold: nat)

  // ---------- Find, Clone, replace ----------

  function Find<D>(v: Vertex<D>, id: string): (r: Option<Vertex<D>>)
    ensures r.Some? <==> Has(v, id)
    ensures r.Some? ==> r.value.id == id
    decreases v, |v.descendants| + 1
  {
    if v.id == id then Some(v) else FindFrom(v, 0, id)
  }

  function FindFrom<D>(v: Vertex<D>, j: nat, id: string): (r: Option<Vertex<D>>)
    requires j <= |v.descendants|
    ensures r.Some? <==> exists i :: j <= i < |v.descendants| && Has(v.descendants[i], id)
    ensures r.Some? ==> r.value.id == id
    decreases v, |v.descendants| - j
  {
    if j == |v.descendants| then None
    else
      var r := Find(v.descendants[j], id);
      if r.Some? then r else FindFrom(v, j + 1, id)
  }

  /** Some vertex of the tree has this id. */
  predicate Has<D>(v: Vertex<D>, id: string) {
    v.id == id || exists j :: 0 <= j < |v.descendants| && Has(v.descendants[j], id)
  }

  predicate Exists<D>(v: Vertex<D>, id: string) {
    Find(v, id).Some?
  }

  /** A copy of the tree; the thresholds are not copied. */
  function Clone<D>(v: Vertex<D>): Vertex<D> {
    Vertex(v.id, v.data, seq(|v.descendants|, j requires 0 <= j < |v.descendants| => Clone(v.descendants[j])), 0)
  }

  function Replace<D>(v: Vertex<D>, id: string, descendants: seq<Vertex<D>>): Vertex<D>
    decreases v
  {
    if v.id == id then v.(descendants := descendants)
    else v.(descendants := seq(|v.descendants|,
                               j requires 0 <= j < |v.descendants| => Replace(v.descendants[j], id, descendants)))
  }

  lemma {:induction false} ReplaceAbsent<D>(v: Vertex<D>, id: string, descendants: seq<Vertex<D>>)
    requires !Has(v, id)
    ensures Replace(v, id, descendants) == v
    decreases v
  {
    forall j | 0 <= j < |v.descendants| ensures Replace(v.descendants[j], id, descendants) == v.descendants[j] {
      ReplaceAbsent(v.descendants[j], id, descendants);
    }
    assert Replace(v, id, descendants).descendants == v.descendants;
  }

  lemma {:induction false} CloneHas<D>(v: Vertex<D>, id: string)
    ensures Has(Clone(v), id) <==> Has(v, id)
  {
    forall j | 0 <= j < |v.descendants| ensures Has(Clone(v).descendants[j], id) <==> Has(v.descendants[j], id) {
      CloneHas(v.descendants[j], id);
    }
  }

  /** The same vertices in the same places, whatever their thresholds. */
  ghost predicate SameShape<D>(v: Vertex<D>, u: Vertex<D>)
    decreases v
  {
    && v.id == u.id && v.data == u.data && |v.descendants| == |u.descendants|
    && forall j :: 0 <= j < |v.descendants| ==> SameShape(v.descendants[j], u.descendants[j])
  }

  ghost predicate NoThresholds<D>(v: Vertex<D>) {
    v.threshold == 0 && forall j :: 0 <= j < |v.descendants| ==> NoThresholds(v.descendants[j])
  }

  /** Clone copies everything but the thresholds. */
  lemma {:induction false} CloneIsCopy<D>(v: Vertex<D>)
    ensures SameShape(Clone(v), v) && NoThresholds(Clone(v))
    decreases v
  {
    forall j | 0 <= j < |v.descendants|
      ensures SameShape(Clone(v).descendants[j], v.descendants[j]) && NoThresholds(Clone(v).descendants[j])
    {
      CloneIsCopy(v.descendants[j]);
    }
  }

  /** Two trees have the same copy exactly when they differ in thresholds only. */
  lemma {:induction false} SameCloneIff<D>(v: Vertex<D>, u: Vertex<D>)
    ensures Clone(v) == Clone(u) <==> SameShape(v, u)
    decreases v
  {
    if |v.descendants| == |u.descendants| {
      forall j | 0 <= j < |v.descendants|
        ensures Clone(v).descendants[j] == Clone(u).descendants[j] <==> SameShape(v.descendants[j], u.descendants[j])
      {
        SameCloneIff(v.descendants[j], u.descendants[j]);
      }
      assert SameShape(v, u) ==> Clone(v).descendants == Clone(u).descendants;
    } else {
      assert |Clone(v).descendants| != |Clone(u).descendants|;
    }
  }

  lemma {:induction false} CloneTwice<D>(v: Vertex<D>)
    ensures Clone(Clone(v)) == Clone(v)
  {
    forall j | 0 <= j < |v.descendants| ensures Clone(Clone(v)).descendants[j] == Clone(v).descendants[j] {
      CloneTwice(v.descendants[j]);
    }
    assert Clone(Clone(v)).descendants == Clone(v).descendants;
  }

  /** Up to thresholds, replacing in a copy is replacing in the tree, whatever the thresholds of the replacement. */
  lemma {:induction false} ReplaceInClone<D>(v: Vertex<D>, u: Vertex<D>, id: string, descendants: seq<Vertex<D>>)
    requires Clone(v) == Clone(u)
    ensures Clone(Replace(v, id, descendants)) == Clone(Replace(u, id, descendants))
    decreases v
  {
    assert |v.descendants| == |Clone(v).descendants| == |Clone(u).descendants| == |u.descendants|;
    if v.id != id {
      var left, right := Clone(Replace(v, id, descendants)), Clone(Replace(u, id, descendants));
      forall j | 0 <= j < |v.descendants| ensures left.descendants[j] == right.descendants[j] {
        assert Clone(v.descendants[j]) == Clone(v).descendants[j] == Clone(u).descendants[j] == Clone(u.descendants[j]);
        ReplaceInClone(v.descendants[j], u.descendants[j], id, descendants);
      }
      assert left.descendants == right.descendants;
    }
  }

  // ---------- Trees with unique ids ----------

  ghost predicate Disjoint<D>(v: Vertex<D>, u: Vertex<D>) {
    forall id :: !(Has(v, id) && Has(u, id))
  }

  ghost predicate Unique<D>(v: Vertex<D>) {
    && UniqueAll(v.descendants)
    && forall j :: 0 <= j < |v.descendants| ==> !Has(v.descendants[j], v.id)
  }

  ghost predicate UniqueAll<D>(forest: seq<Vertex<D>>)
    decreases forest
  {
    && (forall j :: 0 <= j < |forest| ==> Unique(forest[j]))
    && (forall i, j :: 0 <= i < j < |forest| ==> Disjoint(forest[i], forest[j]))
  }

  // ---------- Breadth-first traversal ----------

  function Size<D>(v: Vertex<D>): nat {
    1 + SizeAll(v.descendants)
  }

  function SizeAll<D>(forest: seq<Vertex<D>>): nat
    decreases forest
  {
    if forest == [] then 0 else Size(forest[0]) + SizeAll(forest[1..])
  }

  lemma {:induction false} SizeConcat<D>(a: seq<Vertex<D>>, b: seq<Vertex<D>>)
    ensures SizeAll(a + b) == SizeAll(a) + SizeAll(b)
  {
    if a == [] {
      assert a + b == b;
    } else {
      assert (a + b)[1..] == a[1..] + b;
      SizeConcat(a[1..], b);
    }
  }

  class BfsIterator<D> {
    var arr: seq<Vertex<D>>

    constructor (v: Vertex<D>)
      ensures arr == [v]
    {
      arr := [v];
    }

    method Enqueue(v: Vertex<D>)
      modifies this
      ensures arr == old(arr) + [v]
    {
      arr := arr + [v];
    }

    method Dequeue() returns (v: Vertex<D>)
      requires arr != []
      modifies this
      ensures old(arr) == [v] + arr
    {
      v := arr[0];
      arr := arr[1..];
    }

    method Next() returns (r: Option<Vertex<D>>)
      modifies this
      ensures old(arr) == [] ==> r == None && arr == []
      ensures old(arr) != [] ==> r == Some(old(arr)[0]) && arr == Advance(old(arr))
      ensures old(arr) != [] ==> SizeAll(arr) + 1 == SizeAll(old(arr))
    {
      if arr == [] {
        return None;
      }
      ghost var before := arr;
      var v := Dequeue();
      for j := 0 to |v.descendants|
        invariant arr == before[1..] + v.descendants[..j]
      {
        Enqueue(v.descendants[j]);
      }
      assert arr == before[1..] + v.descendants;
      SizeConcat(before[1..], v.descendants);
      r := Some(v);
    }
  }

  function Advance<D>(queue: seq<Vertex<D>>): seq<Vertex<D>>
    requires queue != []
  {
    queue[1..] + queue[0].descendants
  }

  /** Wherever q occurs in v, it occurs whole and below vertices that are done. */
  ghost predicate Ready<D>(v: Vertex<D>, q: Vertex<D>, done: set<string>)
    decreases v
  {
    Has(v, q.id) ==>
      || v == q
      || (v.id != q.id && v.id in done && forall j :: 0 <= j < |v.descendants| ==> Ready(v.descendants[j], q, done))
  }

  /** The queue of a traversal: what is not done lies, once and whole, in the trees that wait. */
  ghost predicate Frontier<D>(root: Vertex<D>, queue: seq<Vertex<D>>, done: set<string>) {
    && UniqueAll(queue)
    && (forall a, id :: 0 <= a < |queue| && Has(queue[a], id) ==> id !in done)
    && (forall a :: 0 <= a < |queue| ==> Has(root, queue[a].id) && Ready(root, queue[a], done))
    && (forall id :: Has(root, id) ==> id in done || Waits(queue, id))
  }

  ghost predicate Waits<D>(queue: seq<Vertex<D>>, id: string) {
    exists a :: 0 <= a < |queue| && Has(queue[a], id)
  }

  lemma FrontierStart<D>(root: Vertex<D>)
    requires Unique(root)
    ensures Frontier(root, [root], {})
  {
    forall id | Has(root, id) ensures Waits([root], id) {
      assert Has([root][0], id);
    }
  }

  lemma {:induction false} ReadyMore<D>(v: Vertex<D>, q: Vertex<D>, done: set<string>, more: set<string>)
    requires Ready(v, q, done) && done <= more
    ensures Ready(v, q, more)
    decreases v
  {
    if Has(v, q.id) && v != q {
      forall j | 0 <= j < |v.descendants| ensures Ready(v.descendants[j], q, more) {
        ReadyMore(v.descendants[j], q, done, more);
      }
    }
  }

  lemma {:induction false} ReadyHas<D>(v: Vertex<D>, q: Vertex<D>, done: set<string>, id: string)
    requires Ready(v, q, done) && Has(v, q.id) && Has(q, id)
    ensures Has(v, id)
    decreases v
  {
    if v != q {
      var j :| 0 <= j < |v.descendants| && Has(v.descendants[j], q.id);
      ReadyHas(v.descendants[j], q, done, id);
    }
  }

  /** Once q is done its descendants are ready. */
  lemma {:induction false} ReadyBelow<D>(v: Vertex<D>, q: Vertex<D>, done: set<string>, c: nat)
    requires Unique(v) && Has(v, q.id) && Ready(v, q, done) && c < |q.descendants|
    ensures Has(v, q.descendants[c].id) && Ready(v, q.descendants[c], done + {q.id})
    decreases v
  {
    var u := q.descendants[c];
    assert Has(q, u.id);
    ReadyHas(v, q, done, u.id);
    if v == q {
      forall j | 0 <= j < |v.descendants| ensures Ready(v.descendants[j], u, done + {q.id}) {
        if j != c {
          assert Has(u, u.id) && Disjoint(v.descendants[j], u);
        }
      }
    } else {
      var i :| 0 <= i < |v.descendants| && Has(v.descendants[i], q.id);
      ReadyBelow(v.descendants[i], q, done, c);
      forall j | 0 <= j < |v.descendants| ensures Ready(v.descendants[j], u, done + {q.id}) {
        if j != i {
          assert Disjoint(v.descendants[i], v.descendants[j]);
        }
      }
    }
  }

  lemma AdvanceUnique<D>(queue: seq<Vertex<D>>)
    requires queue != [] && UniqueAll(queue)
    ensures UniqueAll(Advance(queue))
  {
    var q, next := queue[0], Advance(queue);
    forall i, j | 0 <= i < j < |next| ensures Disjoint(next[i], next[j]) {
      var n := |queue| - 1;
      if i < n <= j {
        assert Disjoint(q, queue[i + 1]) && next[i] == queue[i + 1] && next[j] == q.descendants[j - n];
        assert forall id :: Has(next[j], id) ==> Has(q, id);
      } else if i < n {
        assert Disjoint(queue[i + 1], queue[j + 1]);
      } else {
        assert UniqueAll(q.descendants) && Disjoint(q.descendants[i - n], q.descendants[j - n]);
      }
    }
    forall j | 0 <= j < |next| ensures Unique(next[j]) {
      if j >= |queue| - 1 {
        assert UniqueAll(q.descendants) && next[j] == q.descendants[j - (|queue| - 1)];
      }
    }
  }

  lemma AdvanceWaits<D>(queue: seq<Vertex<D>>, id: string)
    requires queue != []
    ensures Waits(queue, id) <==> id == queue[0].id || Waits(Advance(queue), id)
  {
    var q, next := queue[0], Advance(queue);
    var n := |queue| - 1;
    if Waits(queue, id) && q.id != id {
      var a :| 0 <= a < |queue| && Has(queue[a], id);
      if a > 0 {
        assert Has(next[a - 1], id);
      } else {
        var j :| 0 <= j < |q.descendants| && Has(q.descendants[j], id);
        assert Has(next[n + j], id);
      }
    }
    if Waits(next, id) {
      var a :| 0 <= a < |next| && Has(next[a], id);
      if a < n {
        assert Has(queue[a + 1], id);
      } else {
        assert Has(q.descendants[a - n], id);
      }
    }
  }

  lemma AdvanceUndone<D>(queue: seq<Vertex<D>>, done: set<string>, a: nat, id: string)
    requires queue != [] && UniqueAll(queue) && a < |Advance(queue)| && Has(Advance(queue)[a], id)
    requires forall a, id :: 0 <= a < |queue| && Has(queue[a], id) ==> id !in done
    ensures id !in done + {queue[0].id}
  {
    var q, next, n := queue[0], Advance(queue), |queue| - 1;
    if a < n {
      assert next[a] == queue[a + 1] && Disjoint(q, queue[a + 1]) && Has(q, q.id);
    } else {
      assert next[a] == q.descendants[a - n] && Has(q, id);
    }
  }

  lemma AdvanceReady<D>(root: Vertex<D>, queue: seq<Vertex<D>>, done: set<string>, a: nat)
    requires Unique(root) && queue != [] && Frontier(root, queue, done) && a < |Advance(queue)|
    ensures Has(root, Advance(queue)[a].id) && Ready(root, Advance(queue)[a], done + {queue[0].id})
  {
    var n := |queue| - 1;
    if a < n {
      ReadyMore(root, queue[a + 1], done, done + {queue[0].id});
    } else {
      ReadyBelow(root, queue[0], done, a - n);
    }
  }

  /** Taking a vertex from the queue and enqueueing its descendants keeps the frontier. */
  lemma FrontierStep<D>(root: Vertex<D>, queue: seq<Vertex<D>>, done: set<string>)
    requires Unique(root) && queue != [] && Frontier(root, queue, done)
    ensures Frontier(root, Advance(queue), done + {queue[0].id})
  {
    var next, more := Advance(queue), done + {queue[0].id};
    AdvanceUnique(queue);
    forall a, id | 0 <= a < |next| && Has(next[a], id) ensures id !in more {
      AdvanceUndone(queue, done, a, id);
    }
    forall a | 0 <= a < |next| ensures Has(root, next[a].id) && Ready(root, next[a], more) {
      AdvanceReady(root, queue, done, a);
    }
    forall id | Has(root, id) ensures id in more || Waits(next, id) {
      AdvanceWaits(queue, id);
    }
  }
}
