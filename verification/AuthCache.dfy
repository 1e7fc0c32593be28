/**
 * The discovery service's cache of authorisation answers (discovery/authcache.go),
 * as atomic steps of any number of concurrent calls: one step for every locked region,
 * one for every reading of the configuration sequence, and one for the outside world raising it.
 */
module AuthCache {
  import opened Wrappers

  /** An eligibility answer: for which request, and under which configuration sequence, it was computed. */
  datatype Answer<D> = Answer(data: D, seq_: nat)

  // ---------- The locked regions ----------

  /** How many of n entries the purge removes: counting down from a negative number never reaches zero. */
  function Evicted(evict: int, n: nat): nat {
    if evict < 0 || evict > n then n else evict
  }

  ghost predicate Purged<K, D>(entries: map<K, Answer<D>>, evict: int, entries': map<K, Answer<D>>) {
    && (forall k | k in entries' :: k in entries && entries'[k] == entries[k])
    && |entries'| == |entries| - Evicted(evict, |entries|)
  }

  predicate PurgeNeeded<K, D>(entries: map<K, Answer<D>>, maxCacheSize: int) {
    |entries| + 1 > maxCacheSize
  }

  /** What is left of the entries when room is made for one more: all, or all but so many of them. */
  ghost predicate Kept<K, D>(entries: map<K, Answer<D>>, maxCacheSize: int, evict: int, entries': map<K, Answer<D>>) {
    if |entries| + 1 <= maxCacheSize then entries' == entries
    else
      && (forall k | k in entries' :: k in entries && entries'[k] == entries[k])
      && |entries'| == if 0 <= evict <= |entries| then |entries| - evict else 0
  }

  lemma KeptIs<K, D>(entries: map<K, Answer<D>>, maxCacheSize: int, evict: int)
    ensures !PurgeNeeded(entries, maxCacheSize) ==> Kept(entries, maxCacheSize, evict, entries)
    ensures PurgeNeeded(entries, maxCacheSize) ==>
              forall entries' | Purged(entries, evict, entries') :: Kept(entries, maxCacheSize, evict, entries')
  {
  }

  class AccessCache<K(==), D> {
    var lastSequence: nat
    var entries: map<K, Answer<D>>

    constructor ()
      ensures lastSequence == 0 && entries == map[]
    {
      lastSequence, entries := 0, map[];
    }

    method IsValid(currSeq: nat) returns (valid: bool)
      ensures valid <==> currSeq == lastSequence
    {
      return currSeq == lastSequence;
    }

    method Lookup(key: K) returns (found: Option<Answer<D>>)
      ensures found == if key in entries then Some(entries[key]) else None
    {
      return if key in entries then Some(entries[key]) else None;
    }

    method ConfigChange(currSeq: nat)
      modifies this
      ensures lastSequence == currSeq && entries == map[]
    {
      lastSequence := currSeq;
      entries := map[];
    }

    method IsPurgeNeeded(maxCacheSize: int) returns (needed: bool)
      ensures needed <==> PurgeNeeded(entries, maxCacheSize)
    {
      return |entries| + 1 > maxCacheSize;
    }

    /** Deletes entries, in the arbitrary order of Go's map iteration, until the counter is zero. */
    method PurgeEntries(evict: int)
      modifies this
      ensures Purged(old(entries), evict, entries) && lastSequence == old(lastSequence)
    {
      var entries2evict := evict;
      var todo := entries.Keys;
      while todo != {}
        invariant todo <= old(entries).Keys && entries.Keys == todo
        invariant forall k | k in entries :: entries[k] == old(entries)[k]
        invariant entries2evict == evict - (|old(entries)| - |entries|)
        invariant 0 <= evict ==> 0 <= entries2evict
        invariant evict < 0 ==> entries2evict < 0
        invariant lastSequence == old(lastSequence)
      {
        if entries2evict == 0 {
          return;
        }
        entries2evict := entries2evict - 1;
        var key :| key in todo;
        ghost var before := entries;
        entries := entries - {key};
        assert entries.Keys == before.Keys - {key};
        todo := todo - {key};
      }
    }

    method Store(key: K, answer: Answer<D>)
      modifies this
      ensures entries == old(entries)[key := answer] && lastSequence == old(lastSequence)
    {
      entries := entries[key := answer];
    }

    ghost function Snapshot(sequence: nat): Memory<K, D>
      reads this
    {
      Memory(sequence, lastSequence, entries, None)
    }

    /**
     * A call between whose steps no other call runs. The readings of the sequence are given: at the start, where the
     * eligibility is computed, and before storing. Every step it takes is a step of the state machine below.
     */
    method EligibleForService(c: Setting<K, D>, ghost id: nat, data: D, first: nat, computed: nat, second: nat)
      returns (answer: Option<Answer<D>>, ghost moments: seq<Moment<K, D>>)
      requires first <= computed <= second
      modifies this
      ensures moments != [] && moments[0] == Moment(Begun, old(Snapshot(first)))
      ensures Alone(c, id, data, moments)
      ensures var last := moments[|moments| - 1];
              && last.memory == Snapshot(last.memory.sequence) && first <= last.memory.sequence <= second
              && (if answer == None then last.pc == KeyFailed else last.pc.Returned? && last.pc.answer == answer.value)
      ensures answer == None <==> c.key(data) == None
      ensures c.key(data) == None ==> unchanged(this)
      ensures c.key(data).Some? && first == old(lastSequence) && c.key(data).value in old(entries) ==>
                unchanged(this) && answer == Some(old(entries)[c.key(data).value])
      ensures c.key(data).Some? && !(first == old(lastSequence) && c.key(data).value in old(entries)) ==>
                && answer == Some(Answer(data, computed)) && lastSequence == first
                && Kept(if first == old(lastSequence) then old(entries) else map[], c.maxCacheSize, c.evict,
                        if first == second then entries - {c.key(data).value} else entries)
                && (first == second ==> c.key(data).value in entries && entries[c.key(data).value] == answer.value)
    {
      hide Alone, Then;
      moments := Start(c, id, data, Moment(Begun, Snapshot(first)));
      if c.key(data) == None {
        moments := Then(c, id, data, moments, Moment(KeyFailed, Snapshot(first)));
        return None, moments;
      }
      var key := c.key(data).value;
      var currSeq := first;
      moments := Then(c, id, data, moments, Moment(Read(currSeq), Snapshot(first)));
      var valid := IsValid(currSeq);
      if valid {
        moments := Then(c, id, data, moments, Moment(Pc.Valid(currSeq), Snapshot(first)));
        var found := Lookup(key);
        if found.Some? {
          moments := Then(c, id, data, moments, Moment(Returned(currSeq, found.value, first), Snapshot(first)));
          return found, moments;
        }
      } else {
        moments := Then(c, id, data, moments, Moment(Stale(currSeq), Snapshot(first)));
        ConfigChange(currSeq);
      }
      moments := Then(c, id, data, moments, Moment(Missed(currSeq), Snapshot(first)));
      ghost var later;
      answer, later := ComputeAndStore(c, id, data, key, moments, first, computed, second);
      return answer, later;
    }

    /** Purges when one more entry would be too many. */
    method PurgeEntriesIfNeeded(c: Setting<K, D>, ghost id: nat, data: D, ghost moments: seq<Moment<K, D>>,
                                ghost currSeq: nat)
      returns (ghost later: seq<Moment<K, D>>)
      requires moments != [] && Alone(c, id, data, moments)
      requires moments[|moments| - 1] == Moment(Missed(currSeq), Snapshot(currSeq))
      modifies this
      ensures later != [] && later[0] == moments[0] && Alone(c, id, data, later)
      ensures later[|later| - 1] == Moment(Computing(currSeq), Snapshot(currSeq))
      ensures lastSequence == old(lastSequence) && Kept(old(entries), c.maxCacheSize, c.evict, entries)
    {
      hide Alone, Then, Purged, PurgeNeeded, Kept;
      KeptIs(entries, c.maxCacheSize, c.evict);
      later := moments;
      var needed := IsPurgeNeeded(c.maxCacheSize);
      if needed {
        later := Then(c, id, data, later, Moment(Purging(currSeq), Snapshot(currSeq)));
        PurgeEntries(c.evict);
      }
      later := Then(c, id, data, later, Moment(Computing(currSeq), Snapshot(currSeq)));
    }

    /** The rest of a call that found nothing in the cache. */
    method ComputeAndStore(c: Setting<K, D>, ghost id: nat, data: D, key: K, ghost moments: seq<Moment<K, D>>,
                           currSeq: nat, computed: nat, second: nat)
      returns (answer: Option<Answer<D>>, ghost later: seq<Moment<K, D>>)
      requires currSeq <= computed <= second && c.key(data) == Some(key) && key !in entries
      requires moments != [] && Alone(c, id, data, moments)
      requires moments[|moments| - 1] == Moment(Missed(currSeq), Snapshot(currSeq))
      modifies this
      ensures later != [] && later[0] == moments[0] && Alone(c, id, data, later)
      ensures answer == Some(Answer(data, computed))
      ensures later[|later| - 1] == Moment(Returned(currSeq, Answer(data, computed), second), Snapshot(second))
      ensures lastSequence == old(lastSequence)
      ensures Kept(old(entries), c.maxCacheSize, c.evict, if currSeq == second then entries - {key} else entries)
      ensures currSeq == second ==> key in entries && entries[key] == Answer(data, computed)
    {
      hide Alone, Then, Purged, PurgeNeeded;
      later := PurgeEntriesIfNeeded(c, id, data, moments, currSeq);
      ghost var kept := entries;
      var a := Answer(data, computed);
      later := Then(c, id, data, later, Moment(Computed(currSeq, computed), Snapshot(computed)));
      later := Then(c, id, data, later, Moment(Locked(currSeq, computed), Snapshot(computed).(lock := Some(id))));
      if currSeq == second {
        later := Then(c, id, data, later, Moment(Confirmed(currSeq, computed), Snapshot(second).(lock := Some(id))));
        Store(key, a);
        assert entries - {key} == kept;
      }
      later := Then(c, id, data, later, Moment(Returned(currSeq, a, second), Snapshot(second)));
      return Some(a), later;
    }
  }

  /** A call's place and the memory it sees. */
  datatype Moment<K, D> = Moment(pc: Pc<D>, memory: Memory<K, D>)

  /** The sequence may rise before a step; otherwise each moment comes from the last by a step of the call. */
  ghost predicate Follows<K, D>(c: Setting<K, D>, id: nat, data: D, before: Moment<K, D>, after: Moment<K, D>) {
    && before.memory.sequence <= after.memory.sequence
    && Region(c, id, data, before.pc, before.memory.(sequence := after.memory.sequence), after.pc, after.memory)
  }

  ghost predicate Alone<K, D>(c: Setting<K, D>, id: nat, data: D, moments: seq<Moment<K, D>>) {
    forall i | 0 <= i < |moments| - 1 :: Follows(c, id, data, moments[i], moments[i + 1])
  }

  ghost function Start<K, D>(c: Setting<K, D>, id: nat, data: D, first: Moment<K, D>): (r: seq<Moment<K, D>>)
    ensures r == [first] && Alone(c, id, data, r)
  {
    [first]
  }

  ghost function Then<K, D>(c: Setting<K, D>, id: nat, data: D, moments: seq<Moment<K, D>>,
                            next: Moment<K, D>): (r: seq<Moment<K, D>>)
    requires moments != [] && Alone(c, id, data, moments) && Follows(c, id, data, moments[|moments| - 1], next)
    ensures |r| == |moments| + 1 && r[0] == moments[0] && r[|r| - 1] == next && Alone(c, id, data, r)
  {
    moments + [next]
  }

  // ---------- Calls and steps ----------

  /** Where a call of EligibleForService is; currSeq is the sequence it read first. */
  datatype Pc<D> =
    | Begun                                    // about to read the sequence
    | Read(currSeq: nat)                       // about to call isValid
    | Valid(currSeq: nat)                      // about to call lookup
    | Stale(currSeq: nat)                      // about to call configChange
    | Missed(currSeq: nat)                     // about to call isPurgeNeeded
    | Purging(currSeq: nat)                    // about to purge
    | Computing(currSeq: nat)                  // about to compute the eligibility
    | Computed(currSeq: nat, at: nat)          // about to take the lock
    | Locked(currSeq: nat, at: nat)            // holds the lock, about to read the sequence again
    | Confirmed(currSeq: nat, at: nat)         // holds the lock, about to store
    | Returned(currSeq: nat, answer: Answer<D>, end: nat)
    | KeyFailed                                // the request could not be turned into a key
  {
    /** Between reading the sequence and returning. */
    predicate InFlight() {
      !Returned? && !KeyFailed?
    }

    /** Past the size check, and may still store an entry. */
    predicate MayStore() {
      Computing? || Computed? || Locked? || Confirmed?
    }

    predicate HoldsLock() {
      Locked? || Confirmed?
    }
  }

  datatype Call<D> = Call(data: D, pc: Pc<D>)

  /** Cache settings, the key of a request (None when marshalling fails), and a bound on concurrent calls. */
  datatype Setting<!K, !D> = Setting(key: D -> Option<K>, maxCacheSize: int, evict: int, maxCalls: nat)

  /** The configuration sequence of the channel, the cache's fields, and which call holds the cache's lock. */
  datatype Memory<K, D> = Memory(sequence: nat, lastSequence: nat, entries: map<K, Answer<D>>, lock: Option<nat>)

  datatype State<K, D> = State(memory: Memory<K, D>, calls: map<nat, Call<D>>)

  datatype Step<D> =
    | Raise(sequence: nat)
    | Begin(id: nat, data: D)
    | Advance(id: nat)

  ghost predicate Init<K, D>(s: State<K, D>) {
    s.memory.lastSequence == 0 && s.memory.entries == map[] && s.memory.lock == None && s.calls == map[]
  }

  function InFlight<K, D>(s: State<K, D>): set<nat> {
    set id | id in s.calls && s.calls[id].pc.InFlight()
  }

  function MayStore<K, D>(s: State<K, D>): set<nat> {
    set id | id in s.calls && s.calls[id].pc.MayStore()
  }

  /** One step of call id, from pc to pc'. Regions under the cache's lock need it to be free. */
  ghost predicate Region<K, D>(c: Setting<K, D>, id: nat, data: D, pc: Pc<D>, m: Memory<K, D>, pc': Pc<D>,
                               m': Memory<K, D>)
  {
    match pc
    case Begun =>
      m' == m && pc' == if c.key(data).None? then KeyFailed else Read(m.sequence)
    case Read(currSeq) =>
      m.lock == None && m' == m && pc' == if currSeq == m.lastSequence then Valid(currSeq) else Stale(currSeq)
    case Valid(currSeq) =>
      && m.lock == None && m' == m && c.key(data).Some?
      && var key := c.key(data).value;
         pc' == if key in m.entries then Returned(currSeq, m.entries[key], m.sequence) else Missed(currSeq)
    case Stale(currSeq) =>
      m.lock == None && m' == m.(lastSequence := currSeq, entries := map[]) && pc' == Missed(currSeq)
    case Missed(currSeq) =>
      && m.lock == None && m' == m
      && pc' == if PurgeNeeded(m.entries, c.maxCacheSize) then Purging(currSeq) else Computing(currSeq)
    case Purging(currSeq) =>
      && m.lock == None && m' == m.(entries := m'.entries) && Purged(m.entries, c.evict, m'.entries)
      && pc' == Computing(currSeq)
    case Computing(currSeq) =>
      m' == m && pc' == Computed(currSeq, m.sequence)
    case Computed(currSeq, at) =>
      m.lock == None && m' == m.(lock := Some(id)) && pc' == Locked(currSeq, at)
    case Locked(currSeq, at) =>
      if currSeq != m.sequence then m' == m.(lock := None) && pc' == Returned(currSeq, Answer(data, at), m.sequence)
      else m' == m && pc' == Confirmed(currSeq, at)
    case Confirmed(currSeq, at) =>
      && c.key(data).Some?
      && m' == m.(lock := None, entries := m.entries[c.key(data).value := Answer(data, at)])
      && pc' == Returned(currSeq, Answer(data, at), m.sequence)
    case Returned(_, _, _) => false
    case KeyFailed => false
  }

  ghost predicate Advances<K, D>(c: Setting<K, D>, s: State<K, D>, id: nat, s': State<K, D>) {
    && id in s.calls && id in s'.calls
    && s'.calls == s.calls[id := Call(s.calls[id].data, s'.calls[id].pc)]
    && Region(c, id, s.calls[id].data, s.calls[id].pc, s.memory, s'.calls[id].pc, s'.memory)
  }

  ghost predicate Next<K, D>(c: Setting<K, D>, s: State<K, D>, step: Step<D>, s': State<K, D>) {
    match step
    case Raise(sequence) => s.memory.sequence <= sequence && s' == s.(memory := s.memory.(sequence := sequence))
    case Begin(id, data) =>
      id !in s.calls && |InFlight(s)| < c.maxCalls && s' == s.(calls := s.calls[id := Call(data, Begun)])
    case Advance(id) => Advances(c, s, id, s')
  }

  /** A finite execution: any interleaving of any calls. */
  ghost predicate Run<K, D>(c: Setting<K, D>, states: seq<State<K, D>>, steps: seq<Step<D>>) {
    && |states| == |steps| + 1
    && Init(states[0])
    && forall i | 0 <= i < |steps| :: Next(c, states[i], steps[i], states[i + 1])
  }

  // ---------- No stale answers ----------

  ghost predicate CollisionFree<K, D(!new)>(c: Setting<K, D>) {
    forall d, e :: c.key(d).Some? && c.key(d) == c.key(e) ==> d == e
  }

  /** Every entry was computed under a sequence no older than the one the cache is valid for. */
  ghost predicate EntriesFresh<K, D>(c: Setting<K, D>, m: Memory<K, D>) {
    && m.lastSequence <= m.sequence
    && forall k | k in m.entries ::
         m.lastSequence <= m.entries[k].seq_ <= m.sequence && c.key(m.entries[k].data) == Some(k)
  }

  /** The answer is for this request, and was computed between the call's first reading and its return. */
  ghost predicate Fresh<D>(call: Call<D>, now: nat)
    requires call.pc.Returned?
  {
    && call.pc.answer.data == call.data
    && call.pc.currSeq <= call.pc.answer.seq_ <= call.pc.end <= now
  }

  /** What a call relies on, given the cache. */
  ghost predicate CallOk<K, D>(c: Setting<K, D>, m: Memory<K, D>, id: nat, call: Call<D>) {
    && (!call.pc.Begun? && !call.pc.KeyFailed? ==> c.key(call.data).Some?)
    && (call.pc.HoldsLock() ==> m.lock == Some(id))
    && match call.pc
       case Begun => true
       case KeyFailed => true
       case Valid(currSeq) => currSeq <= m.sequence && forall k | k in m.entries :: currSeq <= m.entries[k].seq_
       case Computed(currSeq, at) => currSeq <= at <= m.sequence
       case Locked(currSeq, at) => currSeq <= at <= m.sequence
       case Confirmed(currSeq, at) => currSeq == at && m.lastSequence <= at <= m.sequence
       case Returned(_, _, _) => Fresh(call, m.sequence)
       case pc => pc.currSeq <= m.sequence
  }

  /** While one call is about to store, no other relies on anything newer. */
  ghost predicate StoreOk<D>(calls: map<nat, Call<D>>) {
    forall id, j | id in calls && j in calls && calls[id].pc.Confirmed? && calls[j].pc.Valid? ::
      calls[j].pc.currSeq <= calls[id].pc.at
  }

  ghost predicate Inv<K, D>(c: Setting<K, D>, s: State<K, D>) {
    EntriesFresh(c, s.memory) && StoreOk(s.calls) && forall id | id in s.calls :: CallOk(c, s.memory, id, s.calls[id])
  }

  lemma EntriesFreshStep<K, D>(c: Setting<K, D>, id: nat, data: D, pc: Pc<D>, m: Memory<K, D>, pc': Pc<D>,
                               m': Memory<K, D>)
    requires EntriesFresh(c, m) && CallOk(c, m, id, Call(data, pc)) && Region(c, id, data, pc, m, pc', m')
    ensures EntriesFresh(c, m')
  {
  }

  lemma OwnCallStep<K, D(!new)>(c: Setting<K, D>, id: nat, data: D, pc: Pc<D>, m: Memory<K, D>, pc': Pc<D>,
                                m': Memory<K, D>)
    requires CollisionFree(c)
    requires EntriesFresh(c, m) && CallOk(c, m, id, Call(data, pc)) && Region(c, id, data, pc, m, pc', m')
    ensures CallOk(c, m', id, Call(data, pc'))
  {
    if pc.Valid? && c.key(data).value in m.entries {
      assert c.key(m.entries[c.key(data).value].data) == c.key(data);
    }
  }

  /** What a step of one call leaves true of another: only the store and the change of sequence touch the entries. */
  lemma OtherCallStep<K, D>(c: Setting<K, D>, id: nat, data: D, pc: Pc<D>, m: Memory<K, D>, pc': Pc<D>,
                            m': Memory<K, D>, j: nat, other: Call<D>)
    requires j != id && CallOk(c, m, id, Call(data, pc)) && Region(c, id, data, pc, m, pc', m')
    requires CallOk(c, m, j, other)
    requires pc.Confirmed? && other.pc.Valid? ==> other.pc.currSeq <= pc.at
    ensures CallOk(c, m', j, other)
  {
  }

  lemma StoreOkStep<K, D>(c: Setting<K, D>, s: State<K, D>, id: nat, s': State<K, D>)
    requires Inv(c, s) && Advances(c, s, id, s')
    ensures StoreOk(s'.calls)
  {
    var pc, pc' := s.calls[id].pc, s'.calls[id].pc;
    forall i, j | i in s'.calls && j in s'.calls && s'.calls[i].pc.Confirmed? && s'.calls[j].pc.Valid?
      ensures s'.calls[j].pc.currSeq <= s'.calls[i].pc.at
    {
      assert CallOk(c, s.memory, id, s.calls[id]);
      assert CallOk(c, s.memory, i, s.calls[i]) && CallOk(c, s.memory, j, s.calls[j]);
    }
  }

  lemma RaiseStep<K, D>(c: Setting<K, D>, s: State<K, D>, sequence: nat)
    requires Inv(c, s) && s.memory.sequence <= sequence
    ensures Inv(c, s.(memory := s.memory.(sequence := sequence)))
  {
    forall id | id in s.calls
      ensures CallOk(c, s.memory.(sequence := sequence), id, s.calls[id])
    {
      assert CallOk(c, s.memory, id, s.calls[id]);
    }
  }

  lemma AdvanceStep<K, D(!new)>(c: Setting<K, D>, s: State<K, D>, id: nat, s': State<K, D>)
    requires CollisionFree(c) && Inv(c, s) && Advances(c, s, id, s')
    ensures Inv(c, s')
  {
    StoreOkStep(c, s, id, s');
    hide Region, CallOk, EntriesFresh;
    var data, pc, pc' := s.calls[id].data, s.calls[id].pc, s'.calls[id].pc;
    assert CallOk(c, s.memory, id, s.calls[id]);
    EntriesFreshStep(c, id, data, pc, s.memory, pc', s'.memory);
    OwnCallStep(c, id, data, pc, s.memory, pc', s'.memory);
    forall j | j in s'.calls && j != id
      ensures CallOk(c, s'.memory, j, s'.calls[j])
    {
      OtherCallStep(c, id, data, pc, s.memory, pc', s'.memory, j, s.calls[j]);
    }
  }

  /** Every step of every call, and every change of configuration, keeps the cache fresh. */
  lemma InvStep<K, D(!new)>(c: Setting<K, D>, s: State<K, D>, step: Step<D>, s': State<K, D>)
    requires CollisionFree(c) && Inv(c, s) && Next(c, s, step, s')
    ensures Inv(c, s')
  {
    match step
    case Raise(sequence) => RaiseStep(c, s, sequence);
    case Begin(id, data) => assert CallOk(c, s.memory, id, Call(data, Begun));
    case Advance(id) => AdvanceStep(c, s, id, s');
  }

  lemma {:induction false} InvHolds<K, D(!new)>(c: Setting<K, D>, states: seq<State<K, D>>, steps: seq<Step<D>>, i: nat)
    requires CollisionFree(c) && Run(c, states, steps) && i < |states|
    ensures Inv(c, states[i])
  {
    if i > 0 {
      InvHolds(c, states, steps, i - 1);
      InvStep(c, states[i - 1], steps[i - 1], states[i]);
    }
  }

  /** In any interleaving, a returned answer is no older than the call and no newer than its return. */
  lemma NoStaleAnswers<K, D(!new)>(c: Setting<K, D>, states: seq<State<K, D>>, steps: seq<Step<D>>, i: nat, id: nat)
    requires CollisionFree(c) && Run(c, states, steps) && i < |states|
    requires id in states[i].calls && states[i].calls[id].pc.Returned?
    ensures Fresh(states[i].calls[id], states[i].memory.sequence)
    ensures EntriesFresh(c, states[i].memory)
  {
    InvHolds(c, states, steps, i);
    assert CallOk(c, states[i].memory, id, states[i].calls[id]);
  }

  // ---------- Size bound ----------

  /** What the size check keeps the cache to: even a maximum below one admits a single entry. */
  function Limit<K, D>(c: Setting<K, D>): int {
    if c.maxCacheSize < 1 then 1 else c.maxCacheSize
  }

  /** Entries and calls that may still add one stay within the limit. */
  ghost predicate SizeInv<K, D>(c: Setting<K, D>, s: State<K, D>) {
    && |InFlight(s)| <= c.maxCalls
    && |s.memory.entries| + |MayStore(s)| <= Limit(c) + c.maxCalls - 1
  }

  lemma MovedSets<K, D>(s: State<K, D>, s': State<K, D>, id: nat)
    requires id in s.calls && id in s'.calls && s'.calls == s.calls[id := s'.calls[id]]
    ensures MayStore(s') == if s'.calls[id].pc.MayStore() then MayStore(s) + {id} else MayStore(s) - {id}
    ensures InFlight(s') == if s'.calls[id].pc.InFlight() then InFlight(s) + {id} else InFlight(s) - {id}
  {
  }

  lemma Subset(a: set<nat>, b: set<nat>)
    requires a <= b
    ensures |a| <= |b|
  {
    if a != {} {
      var x :| x in a;
      Subset(a - {x}, b - {x});
    }
  }

  /** A call that has not passed the size check leaves room for itself among the calls in flight. */
  lemma RoomForOne<K, D>(s: State<K, D>, id: nat)
    requires id in s.calls && s.calls[id].pc.InFlight() && !s.calls[id].pc.MayStore()
    ensures |MayStore(s)| + 1 <= |InFlight(s)|
  {
    Subset(MayStore(s) + {id}, InFlight(s));
  }

  /** What a step can do to the number of entries and to the calls that may still store. */
  lemma SizeEffect<K, D>(c: Setting<K, D>, id: nat, data: D, pc: Pc<D>, m: Memory<K, D>, pc': Pc<D>, m': Memory<K, D>)
    requires Region(c, id, data, pc, m, pc', m')
    ensures pc.InFlight()
    ensures || (pc'.MayStore() == pc.MayStore() && m'.entries == m.entries)
            || (!pc'.MayStore() && m'.entries == map[])
            || (!pc.MayStore() && !PurgeNeeded(m.entries, c.maxCacheSize) && m'.entries == m.entries)
            || (!pc.MayStore() && Purged(m.entries, c.evict, m'.entries))
            || (pc.MayStore() && !pc'.MayStore() && |m'.entries| <= |m.entries| + 1)
  {
    hide Purged;
    if pc.Confirmed? {
      assert m'.entries.Keys == m.entries.Keys + {c.key(data).value};
    }
  }

  lemma SizeAdvances<K, D>(c: Setting<K, D>, s: State<K, D>, id: nat, s': State<K, D>)
    requires c.evict != 0
    requires SizeInv(c, s) && Advances(c, s, id, s')
    ensures SizeInv(c, s')
  {
    hide Region;
    SizeEffect(c, id, s.calls[id].data, s.calls[id].pc, s.memory, s'.calls[id].pc, s'.memory);
    MovedSets(s, s', id);
    assert id in InFlight(s) && (id in MayStore(s) <==> s.calls[id].pc.MayStore());
    Subset(MayStore(s'), InFlight(s'));
    if !s.calls[id].pc.MayStore() {
      RoomForOne(s, id);
    }
    hide MayStore, InFlight;
  }

  /**
   * If anything is evicted at all, then in any interleaving of at most maxCalls calls the cache overshoots its size by
   * less than the number of calls.
   */
  lemma {:induction false} SizeBound<K, D>(c: Setting<K, D>, states: seq<State<K, D>>, steps: seq<Step<D>>, i: nat)
    requires c.evict != 0 && Run(c, states, steps) && i < |states|
    ensures SizeInv(c, states[i])
    ensures |states[i].memory.entries| <= Limit(c) + c.maxCalls - 1
  {
    if i == 0 {
      assert InFlight(states[0]) == {} && MayStore(states[0]) == {};
    } else {
      var s, s' := states[i - 1], states[i];
      SizeBound(c, states, steps, i - 1);
      match steps[i - 1]
      case Raise(_) => assert InFlight(s') == InFlight(s) && MayStore(s') == MayStore(s);
      case Begin(id, _) => assert InFlight(s') == InFlight(s) + {id} && MayStore(s') == MayStore(s);
      case Advance(id) => SizeAdvances(c, s, id, s');
    }
  }

  // ---------- Without eviction there is no bound ----------

  function Last<T>(s: seq<T>): T
    requires s != []
  {
    s[|s| - 1]
  }

  lemma Extend<K, D>(c: Setting<K, D>, states: seq<State<K, D>>, steps: seq<Step<D>>, step: Step<D>, s': State<K, D>)
    requires Run(c, states, steps) && Next(c, Last(states), step, s')
    ensures Run(c, states + [s'], steps + [step])
  {
    hide Next;
  }

  /** Lets call id, alone in flight and with the lock free, take a step. */
  lemma Move<K, D>(c: Setting<K, D>, states: seq<State<K, D>>, steps: seq<Step<D>>, id: nat, pc': Pc<D>,
                   m': Memory<K, D>)
    returns (states': seq<State<K, D>>, steps': seq<Step<D>>)
    requires Run(c, states, steps) && id in Last(states).calls
    requires var s := Last(states);
             Region(c, id, s.calls[id].data, s.calls[id].pc, s.memory, pc', m')
    ensures Run(c, states', steps')
    ensures var s := Last(states);
            Last(states') == State(m', s.calls[id := Call(s.calls[id].data, pc')])
  {
    hide Region;
    var s := Last(states);
    var s' := State(m', s.calls[id := Call(s.calls[id].data, pc')]);
    Extend(c, states, steps, Advance(id), s');
    states', steps' := states + [s'], steps + [Advance(id)];
  }

  /** No call is in flight, the lock is free, the cache is valid, and n requests below n are cached. */
  ghost predicate Resting(s: State<nat, nat>, n: nat) {
    && s.memory.lock == None && s.memory.sequence == s.memory.lastSequence == 0
    && |s.memory.entries| == n
    && (forall k | k in s.memory.entries :: k < n)
    && (forall id | id in s.calls :: id < n && !s.calls[id].pc.InFlight())
  }

  ghost predicate PlainKeys(c: Setting<nat, nat>) {
    c.evict == 0 && c.maxCalls >= 1 && forall d: nat :: c.key(d) == Some(d)
  }

  /** The cache is resting except that call n has come as far as pc. */
  ghost predicate RestingBut(s: State<nat, nat>, n: nat, pc: Pc<nat>) {
    && n in s.calls && s.calls[n] == Call(n, pc)
    && Resting(s.(calls := s.calls - {n}), n)
  }

  lemma CallMisses(c: Setting<nat, nat>, states: seq<State<nat, nat>>, steps: seq<Step<nat>>, n: nat)
    returns (states': seq<State<nat, nat>>, steps': seq<Step<nat>>)
    requires PlainKeys(c) && Run(c, states, steps) && Resting(Last(states), n)
    ensures Run(c, states', steps') && RestingBut(Last(states'), n, Missed(0))
  {
    var s := Last(states);
    assert InFlight(s) == {};
    var begun := s.(calls := s.calls[n := Call(n, Begun)]);
    Extend(c, states, steps, Begin(n, n), begun);
    states', steps' := states + [begun], steps + [Begin(n, n)];
    hide Run;
    states', steps' := Move(c, states', steps', n, Read(0), s.memory);
    states', steps' := Move(c, states', steps', n, Pc.Valid(0), s.memory);
    states', steps' := Move(c, states', steps', n, Missed(0), s.memory);
  }

  lemma CallPasses(c: Setting<nat, nat>, states: seq<State<nat, nat>>, steps: seq<Step<nat>>, n: nat)
    returns (states': seq<State<nat, nat>>, steps': seq<Step<nat>>)
    requires PlainKeys(c) && Run(c, states, steps) && RestingBut(Last(states), n, Missed(0))
    ensures Run(c, states', steps') && RestingBut(Last(states'), n, Computing(0))
  {
    var s := Last(states);
    assert s.memory.lock == None;
    hide Run, Resting;
    states', steps' := states, steps;
    if PurgeNeeded(s.memory.entries, c.maxCacheSize) {
      states', steps' := Move(c, states', steps', n, Purging(0), s.memory);
    }
    states', steps' := Move(c, states', steps', n, Computing(0), s.memory);
    var s' := Last(states');
    assert s'.calls - {n} == s.calls - {n};
    assert s'.(calls := s'.calls - {n}) == s.(calls := s.calls - {n});
  }

  lemma CallLocks(c: Setting<nat, nat>, states: seq<State<nat, nat>>, steps: seq<Step<nat>>, n: nat)
    returns (states': seq<State<nat, nat>>, steps': seq<Step<nat>>)
    requires Run(c, states, steps) && RestingBut(Last(states), n, Computing(0))
    ensures Run(c, states', steps')
    ensures var s := Last(states);
            Last(states') == State(s.memory.(lock := Some(n)), s.calls[n := Call(n, Locked(0, 0))])
  {
    var s := Last(states);
    assert s.memory.lock == None && s.memory.sequence == 0;
    hide Run, Resting;
    states', steps' := Move(c, states, steps, n, Computed(0, 0), s.memory);
    states', steps' := Move(c, states', steps', n, Locked(0, 0), s.memory.(lock := Some(n)));
    assert Last(states').calls == s.calls[n := Call(n, Locked(0, 0))];
  }

  lemma CallStores(c: Setting<nat, nat>, states: seq<State<nat, nat>>, steps: seq<Step<nat>>, n: nat)
    returns (states': seq<State<nat, nat>>, steps': seq<Step<nat>>)
    requires PlainKeys(c) && Run(c, states, steps) && RestingBut(Last(states), n, Computing(0))
    ensures Run(c, states', steps') && Resting(Last(states'), n + 1)
  {
    var m := Last(states).memory;
    assert m.lock == None && m.sequence == 0 && m.lastSequence == 0;
    hide Run, Resting;
    states', steps' := CallLocks(c, states, steps, n);
    states', steps' := Move(c, states', steps', n, Confirmed(0, 0), m.(lock := Some(n)));
    states', steps' := Move(c, states', steps', n, Returned(0, Answer(n, 0), 0),
                            m.(entries := m.entries[n := Answer(n, 0)]));
    assert Last(states').calls == Last(states).calls[n := Call(n, Returned(0, Answer(n, 0), 0))];
    RestingAgain(Last(states), Last(states'), n);
  }

  lemma RestingAgain(s: State<nat, nat>, s': State<nat, nat>, n: nat)
    requires RestingBut(s, n, Computing(0))
    requires s'.memory == s.memory.(entries := s.memory.entries[n := Answer(n, 0)])
    requires s'.calls == s.calls[n := Call(n, Returned(0, Answer(n, 0), 0))]
    ensures Resting(s', n + 1)
  {
    forall id | id in s'.calls
      ensures id < n + 1 && !s'.calls[id].pc.InFlight()
    {
      assert id == n || id in s.calls - {n};
    }
  }

  /** If the retention ratio leaves nothing to evict, one caller alone fills the cache beyond any size. */
  lemma {:induction false} NoBoundWithoutEviction(c: Setting<nat, nat>, n: nat)
    returns (states: seq<State<nat, nat>>, steps: seq<Step<nat>>)
    requires PlainKeys(c)
    ensures Run(c, states, steps) && |Last(states).memory.entries| == n
    ensures Resting(Last(states), n)
  {
    if n == 0 {
      states, steps := [State(Memory(0, 0, map[], None), map[])], [];
    } else {
      states, steps := NoBoundWithoutEviction(c, n - 1);
      states, steps := CallMisses(c, states, steps, n - 1);
      states, steps := CallPasses(c, states, steps, n - 1);
      states, steps := CallStores(c, states, steps, n - 1);
    }
  }
}
