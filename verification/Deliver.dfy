/** Session access control and the block loop, after pobl/common/deliver/acl.go and pobl/common/deliver/deliver.go. */
module Deliver {
  import opened Wrappers
  import opened ConfigTree

  // ---------- What happens, in order ----------

  datatype Event =
    | Observed(sequence: uint64)
    | Checked(ok: bool)
    | Sent(block: uint64)

  function Newest(log: seq<Event>): Option<uint64> {
    if log == [] then None
    else
      var before, e := Newest(log[..|log| - 1]), log[|log| - 1];
      if e.Observed? && (before == None || e.sequence > before.value) then Some(e.sequence) else before
  }

  /** Since the newest sequence observed first appeared, a check has succeeded. */
  predicate Covered(log: seq<Event>) {
    log != [] &&
    var before, e := log[..|log| - 1], log[|log| - 1];
    match e
    case Observed(_) => Newest(log) == Newest(before) && Covered(before)
    case Checked(ok) => (ok && Newest(before).Some?) || Covered(before)
    case Sent(_) => Covered(before)
  }

  /** Every block was sent under cover. */
  predicate Safe(log: seq<Event>) {
    forall p :: 0 <= p < |log| && log[p].Sent? ==> Covered(log[..p])
  }

  function Blocks(log: seq<Event>): seq<uint64> {
    if log == [] then []
    else Blocks(log[..|log| - 1]) + if log[|log| - 1].Sent? then [log[|log| - 1].block] else []
  }

  lemma Extend(log: seq<Event>, e: Event)
    ensures Newest(log + [e]) ==
              if e.Observed? && (Newest(log) == None || e.sequence > Newest(log).value) then Some(e.sequence)
              else Newest(log)
    ensures e.Observed? ==> (Covered(log + [e]) <==> Newest(log + [e]) == Newest(log) && Covered(log))
    ensures e.Checked? ==> (Covered(log + [e]) <==> (e.ok && Newest(log).Some?) || Covered(log))
    ensures e.Sent? ==> (Covered(log + [e]) <==> Covered(log))
    ensures Safe(log + [e]) <==> Safe(log) && (e.Sent? ==> Covered(log))
    ensures Blocks(log + [e]) == Blocks(log) + if e.Sent? then [e.block] else []
  {
    var more := log + [e];
    assert more[..|log|] == log;
    assert forall p :: 0 <= p < |log| ==> more[..p] == log[..p];
    assert forall p :: 0 <= p < |log| ==> more[p] == log[p];
    assert Safe(more) ==> forall p :: 0 <= p < |log| && log[p].Sent? ==> more[p].Sent? && Covered(log[..p]);
  }

  /** A sequence at position o is newest from there on: greater than all before it and not exceeded after it. */
  ghost predicate Appears(log: seq<Event>, o: nat) {
    && o < |log| && log[o].Observed?
    && (forall p :: 0 <= p < o && log[p].Observed? ==> log[p].sequence < log[o].sequence)
    && (forall p :: o <= p < |log| && log[p].Observed? ==> log[p].sequence <= log[o].sequence)
  }

  lemma AppearsStill(log: seq<Event>, o: nat)
    requires log != [] && Appears(log[..|log| - 1], o)
    requires log[|log| - 1].Observed? ==> log[|log| - 1].sequence <= log[o].sequence
    ensures Appears(log, o)
  {
    var before := log[..|log| - 1];
    assert forall p :: 0 <= p < |before| ==> log[p] == before[p];
  }

  lemma AppearsNow(log: seq<Event>)
    requires log != [] && log[|log| - 1].Observed?
    requires forall p :: 0 <= p < |log| - 1 && log[p].Observed? ==> log[p].sequence < log[|log| - 1].sequence
    ensures Appears(log, |log| - 1)
  {
  }

  lemma {:induction false} NewestBounds(log: seq<Event>, p: nat)
    requires p < |log| && log[p].Observed?
    ensures Newest(log).Some? && log[p].sequence <= Newest(log).value
  {
    if p < |log| - 1 {
      assert log[..|log| - 1][p] == log[p];
      NewestBounds(log[..|log| - 1], p);
    }
  }

  lemma {:induction false} NewestAppears(log: seq<Event>) returns (o: nat)
    requires Newest(log).Some?
    ensures Appears(log, o) && log[o].sequence == Newest(log).value
  {
    var n := |log| - 1;
    var before, e := log[..n], log[n];
    if Newest(before) == Newest(log) {
      o := NewestAppears(before);
      AppearsStill(log, o);
    } else {
      forall p | 0 <= p < n && log[p].Observed? ensures log[p].sequence < e.sequence {
        assert before[p] == log[p];
        NewestBounds(before, p);
      }
      AppearsNow(log);
      o := n;
    }
  }

  /** Cover means a successful check at some point after the newest sequence first appeared. */
  lemma {:induction false} CoverMeaning(log: seq<Event>) returns (o: nat, c: nat)
    requires Covered(log)
    ensures Appears(log, o) && Newest(log) == Some(log[o].sequence)
    ensures o < c < |log| && log[c] == Checked(true)
  {
    var n := |log| - 1;
    var before, e := log[..n], log[n];
    if e == Checked(true) && Newest(before).Some? {
      o := NewestAppears(before);
      c := n;
    } else {
      o, c := CoverMeaning(before);
    }
    AppearsStill(log, o);
  }

  // ---------- Session access control ----------

  /** What one evaluation reads: the time, the config sequence, and the answer of the policy checker if asked. */
  datatype Observation = Observation(now: int, sequence: uint64, allowed: bool)

  function Later(a: uint64, b: uint64): uint64 {
    if a > b then a else b
  }

  class SessionAccessControl {
    /** None is the zero time: the identity does not expire. */
    const sessionEndTime: Option<int>
    var lastConfigSequence: uint64
    var usedAtLeastOnce: bool
    ghost var log: seq<Event>

    constructor (sessionEndTime: Option<int>)
      ensures this.sessionEndTime == sessionEndTime && !usedAtLeastOnce && log == [] && Valid()
    {
      this.sessionEndTime := sessionEndTime;
      lastConfigSequence, usedAtLeastOnce, log := 0, false, [];
    }

    predicate Expired(now: int) {
      sessionEndTime.Some? && now > sessionEndTime.value
    }

    /** The sequence last acted on is the newest observed. */
    ghost predicate Valid()
      reads this
    {
      && (usedAtLeastOnce <==> Newest(log).Some?)
      && lastConfigSequence == if usedAtLeastOnce then Newest(log).value else 0
    }

    ghost predicate CheckNeeded(obs: Observation)
      reads this
    {
      !usedAtLeastOnce || obs.sequence > lastConfigSequence
    }

    /** Asks the policy checker again exactly when it was never asked or the sequence has risen. */
    method Evaluate(obs: Observation) returns (ok: bool)
      requires Valid()
      modifies this
      ensures Valid()
      ensures ok <==> !Expired(obs.now) && (old(CheckNeeded(obs)) ==> obs.allowed)
      ensures log == old(log) +
                if Expired(obs.now) then []
                else if old(CheckNeeded(obs)) then [Observed(obs.sequence), Checked(obs.allowed)]
                else [Observed(obs.sequence)]
      ensures Blocks(log) == old(Blocks(log)) && (Safe(log) <==> old(Safe(log)))
      ensures !Expired(obs.now) ==> (Covered(log) <==> if old(CheckNeeded(obs)) then obs.allowed else old(Covered(log)))
      ensures !Expired(obs.now) ==> usedAtLeastOnce
      ensures !Expired(obs.now) ==> lastConfigSequence == Later(obs.sequence, old(lastConfigSequence))
    {
      hide Newest, Covered, Safe, Blocks;
      if sessionEndTime.Some? && obs.now > sessionEndTime.value {
        return false;
      }
      Extend(log, Observed(obs.sequence));
      Extend(log + [Observed(obs.sequence)], Checked(obs.allowed));
      var policyCheckNeeded := !usedAtLeastOnce;
      log := log + [Observed(obs.sequence)];
      if obs.sequence > lastConfigSequence {
        lastConfigSequence := obs.sequence;
        policyCheckNeeded := true;
      }
      if !policyCheckNeeded {
        return true;
      }
      usedAtLeastOnce := true;
      log := log + [Checked(obs.allowed)];
      ok := obs.allowed;
    }
  }

  /**
   * Evaluate does not remember a refusal: after one, as long as the identity has not expired and the sequence has not
   * risen, the session is allowed whatever the policy checker would answer, and not under cover. A caller is safe only
   * if it stops at the first refusal.
   */
  method RefusalForgotten(ac: SessionAccessControl, obs: Observation, again: Observation)
    returns (first: bool, second: bool)
    requires ac.Valid() && !ac.Expired(obs.now) && !ac.Expired(again.now)
    requires again.sequence <= obs.sequence
    modifies ac
    ensures ac.Valid() && second
    ensures !first ==> !Covered(ac.log)
  {
    first := ac.Evaluate(obs);
    second := ac.Evaluate(again);
  }

  // ---------- The block loop ----------

  datatype Status = SUCCESS | BAD_REQUEST | FORBIDDEN | NOT_FOUND | SERVICE_UNAVAILABLE | INTERNAL_SERVER_ERROR

  /** Unset is a position whose type is none of the three. */
  datatype SeekPosition = SeekOldest | SeekNewest | SeekSpecified(number: uint64) | Unset

  datatype Arrival =
    | Cancelled
    | ConsenterError
    | Read(status: Status, block: uint64)

  /** What one pass of the loop meets: the ledger height, how the wait for the cursor ends, the evaluation, the send. */
  datatype Pass = Pass(height: uint64, arrival: Arrival, observation: Observation, sendOk: bool)

  function Predecessor(v: uint64): uint64 {
    if v == 0 then MAX_UINT64 else v - 1
  }

  /** The k-th block from a given one. */
  function Plus(v: uint64, k: nat): (r: uint64)
    ensures v + k <= MAX_UINT64 ==> r == v + k
  {
    if k == 0 then v else Successor(Plus(v, k - 1))
  }

  /** The block to stop at; none when the client asks to stop before the start. */
  function StopNumber(start: SeekPosition, stop: SeekPosition, number: uint64, height: uint64): Option<uint64> {
    match stop
    case SeekOldest => Some(number)
    case SeekNewest => if start == stop then Some(number) else Some(Predecessor(height))
    case SeekSpecified(n) => if n < number then None else Some(n)
    case Unset => Some(0)
  }

  /** A cursor that yields consecutive blocks. */
  ghost predicate Consecutive(passes: seq<Pass>, number: uint64) {
    forall k :: 0 <= k < |passes| && passes[k].arrival.Read? && passes[k].arrival.status == SUCCESS ==>
      passes[k].arrival.block == Plus(number, k)
  }

  /** The newest sequence seen by the first evaluation and those of the passes. */
  function Highest(first: Observation, passes: seq<Pass>): uint64 {
    if passes == [] then first.sequence
    else Later(passes[|passes| - 1].observation.sequence, Highest(first, passes[..|passes| - 1]))
  }

  /** The k-th pass finds the block ready, reads it, is allowed and sends it. */
  ghost predicate Sends(end: Option<int>, failIfNotReady: bool, number: uint64, first: Observation, passes: seq<Pass>,
                        k: nat)
    requires k < |passes|
  {
    var p := passes[k];
    && (failIfNotReady ==> Plus(number, k) <= Predecessor(p.height))
    && p.arrival == Read(SUCCESS, Plus(number, k))
    && !(end.Some? && p.observation.now > end.value)
    && (p.observation.sequence > Highest(first, passes[..k]) ==> p.observation.allowed)
    && p.sendOk
  }

  /** The first k passes have sent their blocks. */
  ghost predicate AllSend(end: Option<int>, failIfNotReady: bool, number: uint64, first: Observation, passes: seq<Pass>,
                          k: nat)
    requires k <= |passes|
  {
    forall j :: 0 <= j < k ==> Sends(end, failIfNotReady, number, first, passes, j)
  }

  ghost predicate NotYet(start: uint64, stopNum: uint64, k: nat) {
    forall j :: 0 <= j < k ==> Plus(start, j) != stopNum
  }

  /** The status that ends the loop in a pass, by what that pass met first. */
  ghost predicate Ended(status: Status, p: Pass, late: bool, refused: bool) {
    if late then status == NOT_FOUND
    else
      match p.arrival
      case Cancelled => status == INTERNAL_SERVER_ERROR
      case ConsenterError => status == SERVICE_UNAVAILABLE
      case Read(read, _) =>
        if read != SUCCESS then status == read
        else if refused then status == FORBIDDEN
        else !p.sendOk && status == INTERNAL_SERVER_ERROR
  }

  lemma SendsIff(end: Option<int>, failIfNotReady: bool, number: uint64, first: Observation, passes: seq<Pass>, k: nat)
    requires k < |passes| && Consecutive(passes, number)
    ensures Highest(first, passes[..k + 1]) == Later(passes[k].observation.sequence, Highest(first, passes[..k]))
    ensures passes[k].arrival.Read? && passes[k].arrival.status == SUCCESS ==>
              passes[k].arrival.block == Plus(number, k)
    ensures Sends(end, failIfNotReady, number, first, passes, k) <==>
            var p := passes[k];
            && (failIfNotReady ==> Plus(number, k) <= Predecessor(p.height))
            && p.arrival.Read? && p.arrival.status == SUCCESS
            && !(end.Some? && p.observation.now > end.value)
            && (p.observation.sequence > Highest(first, passes[..k]) ==> p.observation.allowed)
            && p.sendOk
    ensures AllSend(end, failIfNotReady, number, first, passes, k + 1) <==>
              AllSend(end, failIfNotReady, number, first, passes, k) && Sends(end, failIfNotReady, number, first,
                                                                              passes, k)
  {
    assert passes[..k + 1][..k] == passes[..k];
  }

  lemma NothingYet(end: Option<int>, failIfNotReady: bool, start: uint64, stopNum: uint64, first: Observation,
                   passes: seq<Pass>)
    ensures AllSend(end, failIfNotReady, start, first, passes, 0) && NotYet(start, stopNum, 0)
    ensures Plus(start, 0) == start && Range(start, 0) == [] && Highest(first, passes[..0]) == first.sequence
  {
  }

  lemma PlusStep(start: uint64, stopNum: uint64, k: nat)
    ensures Plus(start, k + 1) == Successor(Plus(start, k)) && Range(start, k + 1) == Range(start, k) + [Plus(start, k)]
    ensures NotYet(start, stopNum, k + 1) <==> NotYet(start, stopNum, k) && Plus(start, k) != stopNum
  {
  }

  /**
   * The loop. It returns nothing while it waits for a further pass. It reports success exactly when every pass so far
   * has sent its block and the last one is the stop block; every block it hands out goes out under cover.
   */
  method SendBlocks(ac: SessionAccessControl, failIfNotReady: bool, start: uint64, stopNum: uint64, first: Observation,
                    passes: seq<Pass>)
    returns (status: Option<Status>, ghost done: nat)
    requires ac.Valid() && ac.usedAtLeastOnce && ac.lastConfigSequence == first.sequence
    requires Covered(ac.log) && Safe(ac.log) && Blocks(ac.log) == [] && Consecutive(passes, start)
    modifies ac
    ensures ac.Valid() && Safe(ac.log) && done <= |passes|
    ensures AllSend(ac.sessionEndTime, failIfNotReady, start, first, passes, done)
    ensures status == Some(SUCCESS) ==> done > 0 && Plus(start, done - 1) == stopNum
    ensures NotYet(start, stopNum, if status == Some(SUCCESS) then done - 1 else done)
    ensures status == None ==> done == |passes|
    ensures status != None && status != Some(SUCCESS) ==>
              && done < |passes| && !Sends(ac.sessionEndTime, failIfNotReady, start, first, passes, done)
              && var p := passes[done];
                 Ended(status.value, p, failIfNotReady && Plus(start, done) > Predecessor(p.height),
                       ac.Expired(p.observation.now)
                       || (p.observation.sequence > Highest(first, passes[..done]) && !p.observation.allowed))
    ensures Blocks(ac.log) == Range(start, done)
              || (status == Some(INTERNAL_SERVER_ERROR) && Blocks(ac.log) == Range(start, done + 1))
  {
    hide Newest, Covered, Safe, Blocks, Sends, AllSend, NotYet, Plus, Range, Highest, Consecutive, Predecessor;
    NothingYet(ac.sessionEndTime, failIfNotReady, start, stopNum, first, passes);
    var number := start;
    done := 0;
    for k := 0 to |passes|
      invariant ac.Valid() && ac.usedAtLeastOnce && ac.lastConfigSequence == Highest(first, passes[..k])
      invariant Covered(ac.log) && Safe(ac.log) && Blocks(ac.log) == Range(start, k)
      invariant number == Plus(start, k) && done == k
      invariant AllSend(ac.sessionEndTime, failIfNotReady, start, first, passes, k) && NotYet(start, stopNum, k)
    {
      var p := passes[k];
      SendsIff(ac.sessionEndTime, failIfNotReady, start, first, passes, k);
      PlusStep(start, stopNum, k);
      if failIfNotReady && number > Predecessor(p.height) {
        return Some(NOT_FOUND), done;
      }
      match p.arrival {
        case Cancelled => return Some(INTERNAL_SERVER_ERROR), done;
        case ConsenterError => return Some(SERVICE_UNAVAILABLE), done;
        case Read(_, _) =>
      }
      if p.arrival.status != SUCCESS {
        return Some(p.arrival.status), done;
      }
      number := Successor(number);
      var ok := ac.Evaluate(p.observation);
      if !ok {
        return Some(FORBIDDEN), done;
      }
      Extend(ac.log, Sent(p.arrival.block));
      ac.log := ac.log + [Sent(p.arrival.block)];
      if !p.sendOk {
        return Some(INTERNAL_SERVER_ERROR), done;
      }
      done := done + 1;
      if stopNum == p.arrival.block {
        return Some(SUCCESS), done;
      }
    }
    status := None;
  }

  /** The blocks from start on, k of them. */
  function Range(start: uint64, k: nat): (r: seq<uint64>)
    ensures |r| == k
  {
    if k == 0 then [] else Range(start, k - 1) + [Plus(start, k - 1)]
  }

  function Target(start: Option<SeekPosition>, stop: Option<SeekPosition>, number: uint64,
                  height: uint64): Option<uint64>
  {
    if start == None || stop == None then None else StopNumber(start.value, stop.value, number, height)
  }

  /**
   * A deliver request, from the creation of its session: refused, malformed, or run by the loop. A successful run has
   * sent the blocks from the start to the position the client asked to stop at, and no others.
   */
  method DeliverBlocks(ac: SessionAccessControl, start: Option<SeekPosition>, stop: Option<SeekPosition>,
                       failIfNotReady: bool, number: uint64, height: uint64, first: Observation, passes: seq<Pass>)
    returns (status: Option<Status>, ghost looped: bool, ghost done: nat)
    requires ac.Valid() && !ac.usedAtLeastOnce && ac.log == [] && Consecutive(passes, number)
    modifies ac
    ensures Safe(ac.log)
    ensures ac.Expired(first.now) || !first.allowed ==>
              !looped && status == Some(FORBIDDEN) && Blocks(ac.log) == []
    ensures !ac.Expired(first.now) && first.allowed ==>
              (!looped <==> start.None? || stop.None? || (stop.value.SeekSpecified? && stop.value.number < number))
    ensures !ac.Expired(first.now) && first.allowed && !looped ==>
              status == Some(BAD_REQUEST) && Blocks(ac.log) == []
    ensures looped ==> Target(start, stop, number, height).Some?
    ensures status == Some(SUCCESS) ==>
              && looped && done > 0 && Target(start, stop, number, height) == Some(Plus(number, done - 1))
              && NotYet(number, Plus(number, done - 1), done - 1)
              && Blocks(ac.log) == Range(number, done)
    ensures status == Some(SUCCESS) && stop.value.SeekSpecified? ==>
              && number <= stop.value.number
              && Blocks(ac.log) == Range(number, stop.value.number - number + 1)
    ensures status == Some(SUCCESS) && (stop.value.SeekOldest? || (stop.value.SeekNewest? && start == stop)) ==>
              Blocks(ac.log) == [number]
    ensures status == Some(SUCCESS) && stop.value.SeekNewest? && start != stop ==>
              && Blocks(ac.log) == Range(number, (height - 1 - number) % BLOCK_NUMBERS + 1)
              && Blocks(ac.log)[|Blocks(ac.log)| - 1] == (height - 1) % BLOCK_NUMBERS
    ensures status == Some(SUCCESS) && stop.value.Unset? ==>
              Blocks(ac.log) == Range(number, (0 - number) % BLOCK_NUMBERS + 1)
    ensures looped && status != Some(SUCCESS) ==>
              && done <= |passes| && AllSend(ac.sessionEndTime, failIfNotReady, number, first, passes, done)
              && NotYet(number, Target(start, stop, number, height).value, done)
              && (status == None ==> done == |passes|)
              && (status != None ==>
                    && done < |passes| && !Sends(ac.sessionEndTime, failIfNotReady, number, first, passes, done)
                    && var p := passes[done];
                       Ended(status.value, p, failIfNotReady && Plus(number, done) > Predecessor(p.height),
                             ac.Expired(p.observation.now)
                             || (p.observation.sequence > Highest(first, passes[..done]) && !p.observation.allowed)))
              && (Blocks(ac.log) == Range(number, done)
                   || (status == Some(INTERNAL_SERVER_ERROR) && Blocks(ac.log) == Range(number, done + 1)))
  {
    hide Newest, Covered, Safe, Blocks, Sends, AllSend, NotYet, Plus, Range, Consecutive, Highest, Ended;
    done, looped := 0, false;
    EmptyLog();
    var ok := ac.Evaluate(first);
    if !ok {
      return Some(FORBIDDEN), looped, done;
    }
    if start == None || stop == None {
      return Some(BAD_REQUEST), looped, done;
    }
    var stopNum := StopNumber(start.value, stop.value, number, height);
    if stopNum == None {
      return Some(BAD_REQUEST), looped, done;
    }
    looped := true;
    status, done := SendBlocks(ac, failIfNotReady, number, stopNum.value, first, passes);
    if status == Some(SUCCESS) {
      StartToStop(number, stopNum.value, done);
      OneBlock(number);
    }
  }

  lemma OneBlock(number: uint64)
    ensures Range(number, 1) == [number]
    ensures forall h: uint64 :: Predecessor(h) == (h - 1) % BLOCK_NUMBERS
    ensures forall h: uint64 :: (Predecessor(h) - number) % BLOCK_NUMBERS == (h - 1 - number) % BLOCK_NUMBERS
  {
    assert Range(number, 0) == [];
  }

  lemma EmptyLog()
    ensures Newest([]) == None && Safe([]) && Blocks([]) == []
  {
  }

  lemma {:induction false} RangeAt(start: uint64, k: nat, j: nat)
    requires j < k
    ensures Range(start, k)[j] == Plus(start, j)
  {
    if j < k - 1 {
      RangeAt(start, k - 1, j);
    }
  }

  const BLOCK_NUMBERS := MAX_UINT64 + 1

  lemma {:induction false} PlusMod(v: uint64, k: nat)
    ensures Plus(v, k) == (v + k) % BLOCK_NUMBERS
  {
    if k > 0 {
      PlusMod(v, k - 1);
      WrapStep(v + (k - 1));
    }
  }

  lemma WrapStep(n: nat)
    ensures Successor(n % BLOCK_NUMBERS) == (n + 1) % BLOCK_NUMBERS
  {
  }

  /** How far the stop is from the start, counting on from the largest block number to 0. */
  function Gap(start: uint64, stopNum: uint64): (gap: nat)
    ensures gap == (stopNum - start) % BLOCK_NUMBERS
    ensures start <= stopNum ==> gap == stopNum - start
    ensures start + gap <= MAX_UINT64 <==> start <= stopNum
  {
    if start <= stopNum then stopNum - start else BLOCK_NUMBERS - (start - stopNum)
  }

  lemma GapReached(start: uint64, stopNum: uint64, k: nat)
    ensures k < Gap(start, stopNum) ==> Plus(start, k) != stopNum
    ensures k == Gap(start, stopNum) ==> Plus(start, k) == stopNum
  {
    PlusMod(start, k);
  }

  /**
   * A run that first meets the stop block has sent the blocks from start to stop, in order. It has done so without
   * running through all block numbers exactly when the stop is not before the start.
   */
  lemma StartToStop(start: uint64, stopNum: uint64, done: nat)
    requires done > 0 && Plus(start, done - 1) == stopNum && NotYet(start, stopNum, done - 1)
    ensures done == Gap(start, stopNum) + 1 && Range(start, done)[done - 1] == stopNum
    ensures forall j :: 0 <= j < done ==> Range(start, done)[j] == (start + j) % BLOCK_NUMBERS
    ensures start + (done - 1) <= MAX_UINT64 <==> start <= stopNum
    ensures start <= stopNum ==>
              done == stopNum - start + 1 && forall j :: 0 <= j < done ==> Range(start, done)[j] == start + j
  {
    hide Plus, Gap;
    GapReached(start, stopNum, done - 1);
    GapReached(start, stopNum, Gap(start, stopNum));
    RangeAt(start, done, done - 1);
    forall j | 0 <= j < done ensures Range(start, done)[j] == (start + j) % BLOCK_NUMBERS {
      RangeAt(start, done, j);
      PlusMod(start, j);
    }
  }

  /**
   * Only a specified stop is compared with the start. A request from the block after the newest one up to the newest
   * one is taken, and cannot succeed before every other block number has been sent.
   */
  lemma NewestBehindStart(height: uint64, done: nat)
    requires height > 0
    ensures Target(Some(SeekSpecified(height)), Some(SeekNewest), height, height) == Some(height - 1)
    ensures done <= MAX_UINT64 ==> NotYet(height, height - 1, done)
  {
    forall j | 0 <= j < done && j < MAX_UINT64 ensures Plus(height, j) != height - 1 {
      GapReached(height, height - 1, j);
    }
  }

  /** Every block sent follows a check that succeeded after the newest sequence observed by then had appeared. */
  lemma SentUnderCheck(log: seq<Event>, p: nat) returns (o: nat, c: nat)
    requires Safe(log) && p < |log| && log[p].Sent?
    ensures o < c < p && log[c] == Checked(true) && Appears(log[..p], o)
  {
    o, c := CoverMeaning(log[..p]);
  }
}
