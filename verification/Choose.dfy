/** Index sets of k out of n, as pobl/common/graph/choose.go builds them. */
module Choose {
  import opened Wrappers

  function Binomial(n: nat, k: nat): (c: nat)
    ensures n >= k ==> c >= 1
    ensures n < k ==> c == 0
    ensures n == k || k == 0 ==> c == 1
  {
    if k == 0 then 1
    else if n == 0 then 0
    else Binomial(n - 1, k - 1) + Binomial(n - 1, k)
  }

  lemma Pascal(n: nat, k: nat)
    requires n > 0 && k > 0
    ensures Binomial(n, k) == Binomial(n - 1, k - 1) + Binomial(n - 1, k)
  {
  }

  /** CombinationsExceed compares C(n, k) with the bound; with fewer than k elements it answers false. */
  predicate CombinationsExceed(n: nat, k: nat, bound: int) {
    n >= k && Binomial(n, k) > bound
  }

  /**
   * The number of descendants left when one is removed for as long as there are too many combinations. There is
   * none when the last one has been removed and the combinations still exceed the bound: the random pick panics.
   */
  function PrunedSize(n: nat, k: nat, bound: int): Option<nat> {
    if !CombinationsExceed(n, k, bound) then Some(n)
    else if n == 0 then None
    else PrunedSize(n - 1, k, bound)
  }

  /**
   * With a bound of at least one the loop ends, keeps at least the threshold where there was that much, and keeps
   * as many as the bound allows. Without, it goes below the threshold, or panics when there is nothing below.
   */
  lemma {:induction false} PrunedSizeExact(n: nat, k: nat, bound: int)
    ensures PrunedSize(n, k, bound) == None <==> k == 0 && bound <= 0
    ensures PrunedSize(n, k, bound).Some? ==>
              var s := PrunedSize(n, k, bound).value;
              && s <= n && (n < k ==> s == n)
              && (bound >= 1 ==> Binomial(s, k) <= bound && (n >= k ==> s >= k))
              && (bound >= 1 ==> forall m :: s < m <= n ==> Binomial(m, k) > bound)
              && (bound <= 0 ==> s < k && (n >= k ==> s == k - 1))
  {
    if CombinationsExceed(n, k, bound) && n > 0 {
      PrunedSizeExact(n - 1, k, bound);
    }
  }

  // ---------- The index sets ----------

  predicate Increasing(s: seq<nat>, lo: nat, hi: nat) {
    && (forall j :: 0 <= j < |s| ==> lo <= s[j] < hi)
    && (forall a, b :: 0 <= a < b < |s| ==> s[a] < s[b])
  }

  predicate Precedes(s: seq<nat>, t: seq<nat>)
    requires |s| == |t|
  {
    exists p :: 0 <= p < |s| && s[..p] == t[..p] && s[p] < t[p]
  }

  /** The sets choose reaches from candidate i with some candidates already taken. */
  function Combinations(n: nat, k: nat, i: nat, taken: seq<nat>): (sets: seq<seq<nat>>)
    requires |taken| <= k && i <= n
    ensures forall s :: s in sets ==> |s| == k
    decreases n - i
  {
    if |taken| == k then [taken]
    else if k - |taken| > n - i then []
    else Combinations(n, k, i + 1, taken + [i]) + Combinations(n, k, i + 1, taken)
  }

  ghost predicate Extends(s: seq<nat>, n: nat, k: nat, i: nat, taken: seq<nat>) {
    |s| == k && taken <= s && Increasing(s[|taken|..], i, n)
  }

  lemma {:induction false} CombinationsCount(n: nat, k: nat, i: nat, taken: seq<nat>)
    requires |taken| <= k && i <= n
    ensures |Combinations(n, k, i, taken)| == Binomial(n - i, k - |taken|)
    decreases n - i
  {
    hide Binomial;
    if |taken| < k <= n - i + |taken| {
      Pascal(n - i, k - |taken|);
      CombinationsCount(n, k, i + 1, taken + [i]);
      CombinationsCount(n, k, i + 1, taken);
    }
  }

  lemma ExtendsSplit(s: seq<nat>, n: nat, k: nat, i: nat, taken: seq<nat>)
    requires |taken| < k && i < n
    ensures Extends(s, n, k, i, taken) <==> Extends(s, n, k, i + 1, taken + [i]) || Extends(s, n, k, i + 1, taken)
  {
    if |s| == k && taken <= s {
      var rest := s[|taken|..];
      assert rest[1..] == s[|taken| + 1..];
      assert s == taken + rest;
      if rest[0] == i {
        assert s[..|taken| + 1] == taken + [i];
        assert taken + [i] <= s;
        if Increasing(rest, i, n) {
          assert forall j :: 0 <= j < |rest| - 1 ==> rest[1..][j] == rest[j + 1];
          assert Increasing(rest[1..], i + 1, n);
        }
        if Increasing(rest[1..], i + 1, n) {
          assert forall j :: 0 < j < |rest| ==> rest[j] == rest[1..][j - 1];
        }
      } else {
        assert s[|taken|] == rest[0];
        assert Increasing(rest, i, n) ==> Increasing(rest, i + 1, n);
      }
    }
  }

  lemma TooFewLeft(s: seq<nat>, lo: nat, hi: nat)
    requires Increasing(s, lo, hi) && lo <= hi
    ensures |s| <= hi - lo
    decreases |s|
  {
    if s != [] {
      TooFewLeft(s[..|s| - 1], lo, s[|s| - 1]);
    }
  }

  /** Exactly the increasing k-element sets that continue what was taken, in lexicographic order, each once. */
  lemma {:induction false} CombinationsExact(n: nat, k: nat, i: nat, taken: seq<nat>)
    requires |taken| <= k && i <= n
    ensures forall s :: s in Combinations(n, k, i, taken) <==> Extends(s, n, k, i, taken)
    decreases n - i
  {
    if |taken| == k {
      forall s | Extends(s, n, k, i, taken) ensures s == taken {
        assert s == s[..|taken|];
      }
    } else if k - |taken| > n - i {
      forall s | Extends(s, n, k, i, taken) ensures false {
        TooFewLeft(s[|taken|..], i, n);
      }
    } else {
      CombinationsExact(n, k, i + 1, taken + [i]);
      CombinationsExact(n, k, i + 1, taken);
      forall s
        ensures Extends(s, n, k, i, taken) <==> Extends(s, n, k, i + 1, taken + [i]) || Extends(s, n, k, i + 1, taken)
      {
        ExtendsSplit(s, n, k, i, taken);
      }
    }
  }

  ghost predicate Ordered(sets: seq<seq<nat>>, k: nat) {
    && (forall s :: s in sets ==> |s| == k)
    && (forall a, b :: 0 <= a < b < |sets| ==> Precedes(sets[a], sets[b]))
  }

  lemma OrderedConcat(first: seq<seq<nat>>, second: seq<seq<nat>>, k: nat)
    requires Ordered(first, k) && Ordered(second, k)
    requires forall s, t :: s in first && t in second ==> Precedes(s, t)
    ensures Ordered(first + second, k)
  {
    hide Precedes;
    var sets := first + second;
    forall a, b | 0 <= a < b < |sets| ensures |sets[a]| == |sets[b]| && Precedes(sets[a], sets[b]) {
      if a < |first| <= b {
        assert sets[a] in first && sets[b] == second[b - |first|] && sets[b] in second;
      }
    }
  }

  lemma PickedFirst(s: seq<nat>, t: seq<nat>, n: nat, k: nat, i: nat, taken: seq<nat>)
    requires |taken| < k && Extends(s, n, k, i + 1, taken + [i]) && Extends(t, n, k, i + 1, taken)
    ensures Precedes(s, t)
  {
    assert s[|taken|] == (taken + [i])[|taken|] == i;
    assert t[|taken|] == t[|taken|..][0];
    assert s[..|taken|] == taken == t[..|taken|];
  }

  /** The sets come in lexicographic order, so none comes twice. */
  lemma {:induction false} CombinationsOrdered(n: nat, k: nat, i: nat, taken: seq<nat>)
    requires |taken| <= k && i <= n
    ensures Ordered(Combinations(n, k, i, taken), k)
    decreases n - i
  {
    if |taken| < k <= n - i + |taken| {
      var first, second := Combinations(n, k, i + 1, taken + [i]), Combinations(n, k, i + 1, taken);
      CombinationsOrdered(n, k, i + 1, taken + [i]);
      CombinationsOrdered(n, k, i + 1, taken);
      forall s, t | s in first && t in second ensures Precedes(s, t) {
        CombinationsExact(n, k, i + 1, taken + [i]);
        CombinationsExact(n, k, i + 1, taken);
        PickedFirst(s, t, n, k, i, taken);
      }
      OrderedConcat(first, second, k);
    }
  }

  // ---------- Slices over shared backing arrays ----------

  /** A slice of integers: the position of its backing array in memory and how much of that array is in use. */
  datatype Slice = Slice(id: nat, len: nat)

  /** Every backing array allocated so far; the length of an array is the capacity of the slices over it. */
  class Memory {
    var arrays: seq<seq<nat>>

    constructor ()
      ensures arrays == [[]]
    {
      arrays := [[]];
    }
  }

  /** grow(c) is the capacity append gives a full slice of capacity c. */
  ghost predicate Grows(grow: nat -> nat) {
    forall c :: grow(c) > c
  }

  /** The capacity of a slice that was built from nil by appending one element at a time. */
  function Capacity(grow: nat -> nat, len: nat): (c: nat)
    requires Grows(grow)
    ensures c >= len
  {
    if len == 0 then 0
    else
      var before := Capacity(grow, len - 1);
      if len - 1 < before then before else grow(before)
  }

  /** How many leading elements of a k-element slice were in place when its backing array was allocated. */
  function Owned(grow: nat -> nat, k: nat): (m: nat)
    requires Grows(grow)
    ensures m <= k
    ensures m > 0 ==> Capacity(grow, m - 1) == m - 1
    ensures forall d :: m <= d < k ==> Capacity(grow, d) != d
  {
    if k == 0 || Capacity(grow, k - 1) == k - 1 then k
    else Owned(grow, k - 1)
  }

  /** What is left of a set once the sets after it have been written through the same backing array. */
  function Stored(s: seq<nat>, n: nat, m: nat): (t: seq<nat>)
    requires m <= |s| <= n
    ensures |t| == |s|
  {
    s[..m] + seq(|s| - m, j requires j >= 0 => n - |s| + m + j)
  }

  function StoredAll(sets: seq<seq<nat>>, n: nat, m: nat): (all: seq<seq<nat>>)
    requires forall s :: s in sets ==> m <= |s| <= n
    ensures |all| == |sets|
    ensures forall j :: 0 <= j < |sets| ==> all[j] == Stored(sets[j], n, m)
  {
    seq(|sets|, j requires 0 <= j < |sets| => Stored(sets[j], n, m))
  }

  class OrderedSet {
    var elements: seq<Slice>

    constructor ()
      ensures elements == []
    {
      elements := [];
    }

    method Add(o: Slice)
      modifies this
      ensures elements == old(elements) + [o]
    {
      elements := elements + [o];
    }
  }

  ghost predicate InMemory(grow: nat -> nat, arrays: seq<seq<nat>>, s: Slice)
    requires Grows(grow)
  {
    s.id < |arrays| && s.len <= |arrays[s.id]| == Capacity(grow, s.len)
  }

  function Content(arrays: seq<seq<nat>>, s: Slice): seq<nat>
    requires s.id < |arrays| && s.len <= |arrays[s.id]|
  {
    arrays[s.id][..s.len]
  }

  /** Only the unused part of one array may differ; arrays may have been added. */
  ghost predicate Extended(before: seq<seq<nat>>, after: seq<seq<nat>>, s: Slice) {
    && s.id < |before| <= |after|
    && (forall a :: 0 <= a < |before| && a != s.id ==> after[a] == before[a])
    && s.len <= |before[s.id]| == |after[s.id]| && after[s.id][..s.len] == before[s.id][..s.len]
  }

  /** append writes in place while there is room and otherwise moves to a new, larger array. */
  method Append(grow: nat -> nat, memory: Memory, s: Slice, x: nat) returns (r: Slice)
    requires Grows(grow) && InMemory(grow, memory.arrays, s)
    modifies memory
    ensures Extended(old(memory.arrays), memory.arrays, s)
    ensures InMemory(grow, memory.arrays, r) && Content(memory.arrays, r) == old(Content(memory.arrays, s)) + [x]
    ensures r.len == s.len + 1
    ensures if s.len < |old(memory.arrays)[s.id]| then r.id == s.id && |memory.arrays| == |old(memory.arrays)|
            else r.id == |old(memory.arrays)|
  {
    var arr := memory.arrays[s.id];
    if s.len < |arr| {
      memory.arrays := memory.arrays[s.id := arr[s.len := x]];
      r := Slice(s.id, s.len + 1);
    } else {
      memory.arrays := memory.arrays + [arr + [x] + seq(grow(|arr|) - |arr| - 1, _ => 0)];
      r := Slice(|memory.arrays| - 1, s.len + 1);
    }
  }

  // ---------- What choose leaves behind ----------

  ghost predicate Reads(arrays: seq<seq<nat>>, slice: Slice, s: seq<nat>, n: nat, m: nat) {
    && m <= |s| <= n && slice.len == |s|
    && slice.id < |arrays| && slice.len <= |arrays[slice.id]| && Content(arrays, slice) == Stored(s, n, m)
  }

  ghost predicate Records(arrays: seq<seq<nat>>, slices: seq<Slice>, sets: seq<seq<nat>>, n: nat, m: nat) {
    |slices| == |sets| && forall j :: 0 <= j < |slices| ==> Reads(arrays, slices[j], sets[j], n, m)
  }

  /** The largest choice of the last k - d elements. */
  function Tail(n: nat, k: nat, d: nat): (t: seq<nat>)
    requires d <= k <= n
    ensures |t| == k - d
  {
    seq(k - d, j requires j >= 0 => n - k + d + j)
  }

  /** The array reads as the largest set that continues what was taken. */
  ghost predicate Largest(content: seq<nat>, n: nat, k: nat, taken: seq<nat>)
    requires |taken| <= k <= n
  {
    k <= |content| && content[..k] == taken + Tail(n, k, |taken|)
  }

  lemma LargestStep(content: seq<nat>, n: nat, k: nat, i: nat, taken: seq<nat>)
    requires |taken| < k <= n && k - |taken| == n - i && Largest(content, n, k, taken + [i])
    ensures Largest(content, n, k, taken)
  {
  }

  /** A call that already writes into the final backing array records slices over that array only. */
  ghost predicate Shared(arrays: seq<seq<nat>>, recorded: seq<Slice>, n: nat, k: nat, i: nat, current: Slice,
                         taken: seq<nat>)
    requires |taken| <= k && |taken| <= i <= n
  {
    && current.id < |arrays|
    && (forall j :: 0 <= j < |recorded| ==> recorded[j] == Slice(current.id, k))
    && (k - |taken| <= n - i ==> Largest(arrays[current.id], n, k, taken))
  }

  /** Any other call records slices over arrays allocated since, which read as the sets do up to the owned part. */
  ghost predicate Separate(arrays: seq<seq<nat>>, from: nat, recorded: seq<Slice>, sets: seq<seq<nat>>, n: nat, m: nat)
  {
    && (forall j :: 0 <= j < |recorded| ==> recorded[j].id >= from)
    && Records(arrays, recorded, sets, n, m)
  }

  ghost predicate Chose(grow: nat -> nat, n: nat, k: nat, i: nat, current: Slice, before: seq<seq<nat>>,
                        after: seq<seq<nat>>, recorded: seq<Slice>)
    requires Grows(grow) && current.len <= i <= n && current.len <= k
    requires InMemory(grow, before, current)
  {
    var m, taken := Owned(grow, k), Content(before, current);
    && Extended(before, after, current)
    && (k - current.len > n - i ==> after == before)
    && |recorded| == |Combinations(n, k, i, taken)|
    && if current.len < m then Separate(after, |before|, recorded, Combinations(n, k, i, taken), n, m)
       else Shared(after, recorded, n, k, i, current, taken)
  }

  lemma LargestReads(arrays: seq<seq<nat>>, id: nat, s: seq<nat>, n: nat, k: nat, taken: seq<nat>)
    requires |taken| <= k <= n && id < |arrays| && Largest(arrays[id], n, k, taken) && |s| == k && taken <= s
    ensures Reads(arrays, Slice(id, k), s, n, |taken|)
  {
    assert s[..|taken|] == taken;
  }

  /** Slices over one array all read as the last set written there, which is the largest one. */
  lemma SharedRecords(arrays: seq<seq<nat>>, slices: seq<Slice>, n: nat, k: nat, i: nat, current: Slice,
                      taken: seq<nat>)
    requires |taken| <= k && |taken| <= i <= n
    requires |slices| == |Combinations(n, k, i, taken)| && Shared(arrays, slices, n, k, i, current, taken)
    ensures Records(arrays, slices, Combinations(n, k, i, taken), n, |taken|)
  {
    hide Reads, Largest;
    var sets := Combinations(n, k, i, taken);
    if k - |taken| <= n - i {
      forall j | 0 <= j < |slices| ensures Reads(arrays, slices[j], sets[j], n, |taken|) {
        assert sets[j] in sets;
        CombinationsExact(n, k, i, taken);
        LargestReads(arrays, current.id, sets[j], n, k, taken);
      }
    }
  }

  lemma RecordsKept(before: seq<seq<nat>>, after: seq<seq<nat>>, current: Slice, slices: seq<Slice>,
                    sets: seq<seq<nat>>, n: nat, m: nat)
    requires Extended(before, after, current) && Records(before, slices, sets, n, m)
    requires forall j :: 0 <= j < |slices| ==> slices[j].id != current.id
    ensures Records(after, slices, sets, n, m)
  {
    hide Stored;
  }

  lemma RecordsConcat(arrays: seq<seq<nat>>, slices: seq<Slice>, sets: seq<seq<nat>>, slices': seq<Slice>,
                      sets': seq<seq<nat>>, n: nat, m: nat)
    requires Records(arrays, slices, sets, n, m) && Records(arrays, slices', sets', n, m)
    ensures Records(arrays, slices + slices', sets + sets', n, m)
  {
    hide Reads;
  }

  /** The memory before and after append, after the first recursive call, and after the second. */
  datatype Trace = Trace(a0: seq<seq<nat>>, a1: seq<seq<nat>>, a2: seq<seq<nat>>, a3: seq<seq<nat>>)

  ghost predicate Step(grow: nat -> nat, n: nat, k: nat, i: nat, current: Slice, more: Slice, t: Trace,
                       picked: seq<Slice>, left: seq<Slice>)
    requires Grows(grow)
  {
    && current.len < k && current.len <= i && k - current.len <= n - i
    && InMemory(grow, t.a0, current) && InMemory(grow, t.a1, more) && InMemory(grow, t.a2, current)
    && more.len == current.len + 1 && Content(t.a1, more) == Content(t.a0, current) + [i]
    && (if current.len < |t.a0[current.id]| then more.id == current.id && |t.a1| == |t.a0| else more.id == |t.a0|)
    && Extended(t.a0, t.a1, current) && Content(t.a2, current) == Content(t.a0, current)
    && Chose(grow, n, k, i + 1, more, t.a1, t.a2, picked) && Chose(grow, n, k, i + 1, current, t.a2, t.a3, left)
  }

  lemma SharedStep(grow: nat -> nat, n: nat, k: nat, i: nat, current: Slice, more: Slice, t: Trace, picked: seq<Slice>,
                   left: seq<Slice>)
    requires Grows(grow) && Step(grow, n, k, i, current, more, t, picked, left) && Owned(grow, k) <= current.len
    ensures Shared(t.a3, picked + left, n, k, i, current, Content(t.a0, current))
  {
    hide Largest, Extended;
    if k - current.len == n - i {
      LargestStep(t.a2[current.id], n, k, i, Content(t.a0, current));
    }
  }

  lemma PickedSeparate(grow: nat -> nat, n: nat, k: nat, i: nat, current: Slice, more: Slice, t: Trace,
                       picked: seq<Slice>, left: seq<Slice>)
    requires Grows(grow) && Step(grow, n, k, i, current, more, t, picked, left) && current.len < Owned(grow, k)
    ensures Separate(t.a2, |t.a0|, picked, Combinations(n, k, i + 1, Content(t.a0, current) + [i]), n, Owned(grow, k))
  {
    hide Reads, Largest, Combinations;
    if current.len + 1 == Owned(grow, k) {
      SharedRecords(t.a2, picked, n, k, i + 1, more, Content(t.a0, current) + [i]);
    }
  }

  lemma SeparateStep(grow: nat -> nat, n: nat, k: nat, i: nat, current: Slice, more: Slice, t: Trace,
                     picked: seq<Slice>, left: seq<Slice>)
    requires Grows(grow) && Step(grow, n, k, i, current, more, t, picked, left) && current.len < Owned(grow, k)
    ensures Separate(t.a3, |t.a0|, picked + left, Combinations(n, k, i, Content(t.a0, current)), n, Owned(grow, k))
  {
    var m, taken := Owned(grow, k), Content(t.a0, current);
    var sets, sets' := Combinations(n, k, i + 1, taken + [i]), Combinations(n, k, i + 1, taken);
    assert Combinations(n, k, i, taken) == sets + sets';
    hide Records, Combinations;
    PickedSeparate(grow, n, k, i, current, more, t, picked, left);
    RecordsKept(t.a2, t.a3, current, picked, sets, n, m);
    RecordsConcat(t.a3, picked, sets, left, sets', n, m);
  }

  lemma ChoseStep(grow: nat -> nat, n: nat, k: nat, i: nat, current: Slice, more: Slice, t: Trace, picked: seq<Slice>,
                  left: seq<Slice>)
    requires Grows(grow) && Step(grow, n, k, i, current, more, t, picked, left)
    ensures Chose(grow, n, k, i, current, t.a0, t.a3, picked + left)
  {
    hide Shared, Separate;
    assert Extended(t.a0, t.a3, current);
    if current.len < Owned(grow, k) {
      SeparateStep(grow, n, k, i, current, more, t, picked, left);
    } else {
      SharedStep(grow, n, k, i, current, more, t, picked, left);
    }
  }

  lemma ChoseKeeps(grow: nat -> nat, n: nat, k: nat, i: nat, current: Slice, more: Slice, a0: seq<seq<nat>>,
                   a1: seq<seq<nat>>, a2: seq<seq<nat>>, picked: seq<Slice>)
    requires Grows(grow) && current.len <= i < n && current.len < k
    requires InMemory(grow, a0, current) && InMemory(grow, a1, more) && Extended(a0, a1, current)
    requires more == Slice(current.id, current.len + 1) || (more.len == current.len + 1 && more.id >= |a0|)
    requires Chose(grow, n, k, i + 1, more, a1, a2, picked)
    ensures InMemory(grow, a2, current) && Content(a2, current) == Content(a0, current)
  {
    hide Capacity, Owned, Combinations, Shared, Separate;
    if more.id == current.id {
      assert Content(a2, current) == a2[more.id][..more.len][..current.len];
    }
  }

  lemma ChoseNone(grow: nat -> nat, n: nat, k: nat, i: nat, current: Slice, arrays: seq<seq<nat>>)
    requires Grows(grow) && current.len <= i <= n && 0 < k - current.len && n - i < k - current.len
    requires InMemory(grow, arrays, current)
    ensures Chose(grow, n, k, i, current, arrays, arrays, [])
  {
  }

  lemma ChoseWhole(grow: nat -> nat, n: nat, k: nat, i: nat, current: Slice, arrays: seq<seq<nat>>)
    requires Grows(grow) && current.len == k <= i <= n && InMemory(grow, arrays, current)
    ensures Chose(grow, n, k, i, current, arrays, arrays, [current])
  {
  }

  /**
   * choose records one slice per set. A call that already writes into the final backing array leaves every
   * slice it records over that array, reading as the last set; any other call leaves slices over arrays of
   * their own that read as the sets do up to the owned part.
   */
  method ChooseFrom(grow: nat -> nat, n: nat, k: nat, i: nat, current: Slice, memory: Memory, subGroups: OrderedSet)
    returns (ghost recorded: seq<Slice>)
    requires Grows(grow) && current.len <= i <= n && current.len <= k
    requires InMemory(grow, memory.arrays, current)
    modifies memory, subGroups
    ensures subGroups.elements == old(subGroups.elements) + recorded
    ensures Chose(grow, n, k, i, current, old(memory.arrays), memory.arrays, recorded)
    decreases n - i
  {
    hide Chose;
    if current.len == k {
      subGroups.Add(current);
      ChoseWhole(grow, n, k, i, current, memory.arrays);
      return [current];
    }
    if k - current.len > n - i {
      ChoseNone(grow, n, k, i, current, memory.arrays);
      return [];
    }
    ghost var a0 := memory.arrays;
    var more := Append(grow, memory, current, i);
    ghost var a1 := memory.arrays;
    ghost var picked := ChooseFrom(grow, n, k, i + 1, more, memory, subGroups);
    ghost var a2 := memory.arrays;
    ChoseKeeps(grow, n, k, i, current, more, a0, a1, a2, picked);
    ghost var left := ChooseFrom(grow, n, k, i + 1, current, memory, subGroups);
    recorded := picked + left;
    ChoseStep(grow, n, k, i, current, more, Trace(a0, a1, a2, memory.arrays), picked, left);
  }

  /** The index sets as they read once all of them are recorded. */
  function Recorded(grow: nat -> nat, n: nat, k: nat): seq<seq<nat>>
    requires Grows(grow)
  {
    if n < k then [] else StoredAll(Combinations(n, k, 0, []), n, Owned(grow, k))
  }

  method ChooseKoutOfN(grow: nat -> nat, n: nat, k: nat) returns (sets: seq<seq<nat>>)
    requires Grows(grow)
    ensures sets == Recorded(grow, n, k)
  {
    hide Owned, Combinations, Stored, Chose, Records, Recorded, Content;
    var memory := new Memory();
    var subGroups := new OrderedSet();
    ghost var recorded := ChooseFrom(grow, n, k, 0, Slice(0, 0), memory, subGroups);
    ChoseRecords(grow, n, k, memory.arrays, recorded);
    var arrays, elements := memory.arrays, subGroups.elements;
    assert elements == recorded;
    sets := [];
    for j := 0 to |elements|
      invariant sets == Recorded(grow, n, k)[..j]
    {
      ContentRecorded(grow, n, k, arrays, recorded, j);
      sets := sets + [Content(arrays, elements[j])];
    }
  }

  lemma ContentRecorded(grow: nat -> nat, n: nat, k: nat, arrays: seq<seq<nat>>, recorded: seq<Slice>, j: nat)
    requires Grows(grow) && j < |recorded| == |Recorded(grow, n, k)|
    requires Records(arrays, recorded, Combinations(n, k, 0, []), n, Owned(grow, k))
    ensures recorded[j].id < |arrays| && recorded[j].len <= |arrays[recorded[j].id]|
    ensures Content(arrays, recorded[j]) == Recorded(grow, n, k)[j]
  {
    hide Owned, Combinations, Stored, Content;
    var sets := Combinations(n, k, 0, []);
    assert Reads(arrays, recorded[j], sets[j], n, Owned(grow, k));
  }

  lemma ChoseRecords(grow: nat -> nat, n: nat, k: nat, arrays: seq<seq<nat>>, recorded: seq<Slice>)
    requires Grows(grow) && InMemory(grow, [[]], Slice(0, 0))
    requires Chose(grow, n, k, 0, Slice(0, 0), [[]], arrays, recorded)
    ensures |recorded| == |Recorded(grow, n, k)|
    ensures Records(arrays, recorded, Combinations(n, k, 0, []), n, Owned(grow, k))
  {
    CombinationsCount(n, k, 0, []);
    if k > 0 {
      assert Capacity(grow, 0) == 0;
    } else {
      SharedRecords(arrays, recorded, n, k, 0, Slice(0, 0), []);
    }
  }

  lemma StoredIncreasing(s: seq<nat>, n: nat, m: nat)
    requires Increasing(s, 0, n) && m <= |s| <= n
    ensures Increasing(Stored(s, n, m), 0, n)
  {
    var t := Stored(s, n, m);
    forall a, b | 0 <= a < b < |s| ensures t[a] < t[b] {
      if a < m <= b {
        assert Increasing(s[a + 1..], s[a] + 1, n);
        TooFewLeft(s[a + 1..], s[a] + 1, n);
      }
    }
  }

  lemma MemberIncreasing(n: nat, k: nat, s: seq<nat>)
    requires s in Combinations(n, k, 0, [])
    ensures |s| == k && Increasing(s, 0, n)
  {
    CombinationsExact(n, k, 0, []);
    assert s == s[0..];
  }

  lemma RecordedAt(grow: nat -> nat, n: nat, k: nat, j: nat)
    requires Grows(grow) && j < |Recorded(grow, n, k)|
    ensures |Recorded(grow, n, k)[j]| == k && Increasing(Recorded(grow, n, k)[j], 0, n)
  {
    var s := Combinations(n, k, 0, [])[j];
    hide Owned, Stored, Increasing, Combinations;
    MemberIncreasing(n, k, s);
    StoredIncreasing(s, n, Owned(grow, k));
  }

  /** choose records C(n, k) sets, each of k increasing positions below n. */
  lemma RecordedSets(grow: nat -> nat, n: nat, k: nat)
    requires Grows(grow)
    ensures |Recorded(grow, n, k)| == Binomial(n, k)
    ensures forall s :: s in Recorded(grow, n, k) ==> |s| == k && Increasing(s, 0, n)
  {
    hide Owned, Stored, Increasing, Combinations, Binomial;
    CombinationsCount(n, k, 0, []);
    var sets := Recorded(grow, n, k);
    assert |sets| == Binomial(n, k);
    hide Recorded;
    forall j | 0 <= j < |sets| ensures |sets[j]| == k && Increasing(sets[j], 0, n) {
      RecordedAt(grow, n, k, j);
    }
  }

  /** The positions 0 to k - 1. */
  function FirstSet(k: nat): (s: seq<nat>)
    ensures |s| == k
  {
    seq(k, j requires j >= 0 => j)
  }

  lemma FirstSetChosen(n: nat, k: nat)
    requires k <= n
    ensures FirstSet(k) in Combinations(n, k, 0, [])
  {
    CombinationsExact(n, k, 0, []);
    assert FirstSet(k)[0..] == FirstSet(k) && Extends(FirstSet(k), n, k, 0, []);
  }

  lemma OwnsWhole(grow: nat -> nat, n: nat, k: nat)
    requires Grows(grow) && Owned(grow, k) == k
    ensures Recorded(grow, n, k) == Combinations(n, k, 0, [])
  {
    hide Owned;
    var sets := Combinations(n, k, 0, []);
    if n >= k {
      forall j | 0 <= j < |sets| ensures Stored(sets[j], n, k) == sets[j] {
        assert sets[j] in sets;
      }
    }
  }

  lemma OnlySet(grow: nat -> nat, k: nat)
    requires Grows(grow)
    ensures Recorded(grow, k, k) == Combinations(k, k, 0, [])
  {
    hide Owned;
    CombinationsCount(k, k, 0, []);
    FirstSetChosen(k, k);
    hide Combinations;
    assert Combinations(k, k, 0, []) == [FirstSet(k)];
    assert Stored(FirstSet(k), k, Owned(grow, k)) == FirstSet(k);
  }

  /** A last element written after the array was allocated ends as the largest position. */
  lemma LastOverwritten(grow: nat -> nat, n: nat, k: nat, s: seq<nat>)
    requires Grows(grow) && 0 < k <= n && Capacity(grow, k - 1) != k - 1
    requires s in Recorded(grow, n, k)
    ensures |s| == k && s[k - 1] == n - 1
  {
  }

  /**
   * The recorded sets are the k-element sets of positions exactly when there is at most one of them, or when the
   * last append always moves to an array of its own.
   */
  lemma RecordedRightIff(grow: nat -> nat, n: nat, k: nat)
    requires Grows(grow)
    ensures Recorded(grow, n, k) == Combinations(n, k, 0, []) <==> n <= k || k == 0 || Capacity(grow, k - 1) == k - 1
  {
    if n < k {
      CombinationsCount(n, k, 0, []);
    } else if Owned(grow, k) == k {
      OwnsWhole(grow, n, k);
    } else if n == k {
      OnlySet(grow, k);
    } else {
      hide Recorded, Combinations;
      FirstSetChosen(n, k);
      if FirstSet(k) in Recorded(grow, n, k) {
        LastOverwritten(grow, n, k, FirstSet(k));
      }
    }
  }

  /** Capacities 1, 2, 4 and then doubling, as for small slices. */
  function Doubling(c: nat): nat {
    if c == 0 then 1 else 2 * c
  }

  /** Four out of five: the first set loses its last element to the second. */
  lemma SetOverwritten()
    ensures Grows(Doubling)
    ensures FirstSet(4) in Combinations(5, 4, 0, []) && FirstSet(4) !in Recorded(Doubling, 5, 4)
  {
    hide Recorded, Combinations;
    FirstSetChosen(5, 4);
    assert Capacity(Doubling, 1) == 1;
    assert Capacity(Doubling, 2) == 2;
    assert Capacity(Doubling, 3) == 4;
    if FirstSet(4) in Recorded(Doubling, 5, 4) {
      LastOverwritten(Doubling, 5, 4, FirstSet(4));
    }
  }
}
