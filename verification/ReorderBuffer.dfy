/** The per-client reorder buffer, ProcessMsgChan in pobl/core/chaincode/handler.go. */
module ReorderBuffer {
  import opened Wrappers

  type int64 = c: int | -0x8000_0000_0000_0000 <= c < 0x8000_0000_0000_0000

  const MAX: int64 := 0x7fff_ffff_ffff_ffff
  const CLIENT: string := "CLIENT"

  datatype TxParams = TxParams(peerId: string, txCount: int64)

  datatype TxParamsMsg<M> = TxParamsMsg(txParams: Option<TxParams>, msg: Option<M>)

  // ---------- Counts and keys ----------

  function Successor(c: int64): int64 {
    if c == MAX then -MAX - 1 else c + 1
  }

  /** The count of the k-th dispatch: 0, 1, 2, ... wrapping around as 64-bit integers do. */
  function Nth(k: nat): (c: int64)
    ensures k <= MAX ==> c == k
  {
    if k == 0 then 0 else Successor(Nth(k - 1))
  }

  function Digits(n: nat): (s: string)
    ensures s != [] && forall j :: 0 <= j < |s| ==> '0' <= s[j] <= '9'
  {
    var last := ['0' + (n % 10) as char];
    if n < 10 then last else Digits(n / 10) + last
  }

  function Value(s: string): int {
    if s == "" then 0 else 10 * Value(s[..|s| - 1]) + (s[|s| - 1] as int - '0' as int)
  }

  lemma {:induction false} DigitsValue(n: nat)
    ensures Value(Digits(n)) == n
  {
    var s := Digits(n);
    if n >= 10 {
      DigitsValue(n / 10);
      assert s[..|s| - 1] == Digits(n / 10);
    } else {
      assert s[..|s| - 1] == "";
    }
  }

  function FormatInt(n: int): (s: string)
    ensures s != [] && (s[0] == '-' <==> n < 0)
  {
    if n < 0 then "-" + Digits(-n) else Digits(n)
  }

  lemma FormatIntInjective(a: int, b: int)
    requires FormatInt(a) == FormatInt(b)
    ensures a == b
  {
    hide Value;
    assert FormatInt(a)[1..] == FormatInt(b)[1..];
    if a < 0 {
      assert Digits(-a) == FormatInt(a)[1..] && Digits(-b) == FormatInt(b)[1..];
      DigitsValue(-a);
      DigitsValue(-b);
    } else {
      DigitsValue(a);
      DigitsValue(b);
    }
  }

  function Key(peerId: string, count: int64): string {
    peerId + "#" + FormatInt(count)
  }

  lemma KeyInjective(peerId: string, a: int64, b: int64)
    requires Key(peerId, a) == Key(peerId, b)
    ensures a == b
  {
    var n := |peerId + "#"|;
    assert Key(peerId, a)[n..] == FormatInt(a) && Key(peerId, b)[n..] == FormatInt(b);
    FormatIntInjective(a, b);
  }

  // ---------- What the buffer keeps ----------

  predicate IsClient<M>(m: TxParamsMsg<M>) {
    m.txParams.Some? && m.txParams.value.peerId == CLIENT
  }

  function Count<M>(m: TxParamsMsg<M>): int64
    requires IsClient(m)
  {
    m.txParams.value.txCount
  }

  function Clients<M>(s: seq<TxParamsMsg<M>>): (r: seq<TxParamsMsg<M>>)
    ensures forall j :: 0 <= j < |r| ==> IsClient(r[j])
  {
    if s == [] then []
    else Clients(s[..|s| - 1]) + if IsClient(s[|s| - 1]) then [s[|s| - 1]] else []
  }

  function Others<M>(s: seq<TxParamsMsg<M>>): seq<TxParamsMsg<M>> {
    if s == [] then []
    else Others(s[..|s| - 1]) + if IsClient(s[|s| - 1]) then [] else [s[|s| - 1]]
  }

  lemma Appended<M>(s: seq<TxParamsMsg<M>>, m: TxParamsMsg<M>)
    ensures Clients(s + [m]) == if IsClient(m) then Clients(s) + [m] else Clients(s)
    ensures Others(s + [m]) == if IsClient(m) then Others(s) else Others(s) + [m]
  {
    assert (s + [m])[..|s|] == s;
  }

  lemma {:induction false} ClientsIn<M>(s: seq<TxParamsMsg<M>>, m: TxParamsMsg<M>)
    ensures m in Clients(s) <==> m in s && IsClient(m)
  {
    if s != [] {
      ClientsIn(s[..|s| - 1], m);
      assert s == s[..|s| - 1] + [s[|s| - 1]];
    }
  }

  /** No two client messages carry the same count. */
  ghost predicate DistinctCounts<M>(clients: seq<TxParamsMsg<M>>)
    requires forall j :: 0 <= j < |clients| ==> IsClient(clients[j])
  {
    forall i, j :: 0 <= i < j < |clients| ==> Count(clients[i]) != Count(clients[j])
  }

  ghost predicate Dispatched<M>(clients: seq<TxParamsMsg<M>>, next: int64) {
    && next == Nth(|clients|)
    && forall k :: 0 <= k < |clients| ==> IsClient(clients[k]) && Count(clients[k]) == Nth(k)
  }

  ghost predicate Pending<M>(received: seq<TxParamsMsg<M>>, pending: map<string, TxParamsMsg<M>>) {
    forall key :: key in pending ==>
      IsClient(pending[key]) && key == Key(CLIENT, Count(pending[key])) && pending[key] in received
  }

  ghost predicate HasCount<M>(s: seq<TxParamsMsg<M>>, c: int64) {
    exists m :: m in s && IsClient(m) && Count(m) == c
  }

  ghost predicate Kept<M>(received: seq<TxParamsMsg<M>>, sent: seq<TxParamsMsg<M>>,
                          pending: map<string, TxParamsMsg<M>>)
  {
    && (forall m :: m in sent ==> m in received)
    && (forall m :: m in received && IsClient(m) ==> HasCount(sent, Count(m)) || Key(CLIENT, Count(m)) in pending)
    && Others(sent) == Others(received)
    && |Clients(sent)| + |pending| <= |Clients(received)|
  }

  /** Under distinct counts nothing is both dispatched and pending. */
  ghost predicate Apart<M>(received: seq<TxParamsMsg<M>>, sent: seq<TxParamsMsg<M>>,
                           pending: map<string, TxParamsMsg<M>>)
  {
    DistinctCounts(Clients(received)) ==> forall m :: m in sent && IsClient(m) ==> Key(CLIENT, Count(m)) !in pending
  }

  /**
   * The client messages dispatched are numbered 0, 1, 2, ... up to next; for what was received a message
   * with its count is dispatched or pending; what is pending is filed under its count. Other messages pass in order.
   */
  ghost predicate Consistent<M>(received: seq<TxParamsMsg<M>>, sent: seq<TxParamsMsg<M>>,
                                pending: map<string, TxParamsMsg<M>>, next: int64)
  {
    && Dispatched(Clients(sent), next)
    && Pending(received, pending)
    && Kept(received, sent, pending)
    && Apart(received, sent, pending)
  }

  lemma HasMore<M>(s: seq<TxParamsMsg<M>>, m: TxParamsMsg<M>, c: int64)
    ensures HasCount(s + [m], c) <==> HasCount(s, c) || (IsClient(m) && Count(m) == c)
  {
    if HasCount(s, c) {
      var x :| x in s && IsClient(x) && Count(x) == c;
      assert x in s + [m];
    }
    assert m in s + [m];
  }

  lemma KeptMore<M>(received: seq<TxParamsMsg<M>>, sent: seq<TxParamsMsg<M>>, pending: map<string, TxParamsMsg<M>>,
                    m: TxParamsMsg<M>)
    requires Kept(received, sent, pending)
    ensures Kept(received + [m], sent + [m], pending)
  {
    hide Key, Clients, Others, HasCount;
    Appended(received, m);
    Appended(sent, m);
    forall x | x in received + [m] && IsClient(x)
      ensures HasCount(sent + [m], Count(x)) || Key(CLIENT, Count(x)) in pending
    {
      HasMore(sent, m, Count(x));
    }
  }

  lemma OtherSent<M>(received: seq<TxParamsMsg<M>>, sent: seq<TxParamsMsg<M>>, pending: map<string, TxParamsMsg<M>>,
                     next: int64, m: TxParamsMsg<M>)
    requires Consistent(received, sent, pending, next) && !IsClient(m)
    ensures Consistent(received + [m], sent + [m], pending, next)
  {
    hide Key, Clients, Others, Kept;
    KeptMore(received, sent, pending, m);
    Appended(received, m);
    Appended(sent, m);
  }

  lemma Stored<M>(received: seq<TxParamsMsg<M>>, sent: seq<TxParamsMsg<M>>, pending: map<string, TxParamsMsg<M>>,
                  next: int64, m: TxParamsMsg<M>)
    requires Consistent(received, sent, pending, next) && IsClient(m) && Count(m) != next
    requires Key(CLIENT, next) !in pending
    ensures var pending' := pending[Key(CLIENT, Count(m)) := m];
            Consistent(received + [m], sent, pending', next) && Key(CLIENT, next) !in pending'
  {
    hide Key, Clients, Others, Nth, Apart;
    Appended(received, m);
    if Key(CLIENT, Count(m)) == Key(CLIENT, next) {
      KeyInjective(CLIENT, Count(m), next);
    }
    StoredApart(received, sent, pending, m);
  }

  lemma StoredApart<M>(received: seq<TxParamsMsg<M>>, sent: seq<TxParamsMsg<M>>, pending: map<string, TxParamsMsg<M>>,
                       m: TxParamsMsg<M>)
    requires Kept(received, sent, pending) && Apart(received, sent, pending) && IsClient(m)
    ensures Apart(received + [m], sent, pending[Key(CLIENT, Count(m)) := m])
  {
    Appended(received, m);
    var clients := Clients(received);
    if DistinctCounts(clients + [m]) {
      DistinctPrefix(clients, m);
      forall x | x in sent && IsClient(x) ensures Key(CLIENT, Count(x)) != Key(CLIENT, Count(m)) {
        ClientsIn(received, x);
        if Key(CLIENT, Count(x)) == Key(CLIENT, Count(m)) {
          KeyInjective(CLIENT, Count(x), Count(m));
        }
      }
    }
  }

  lemma DistinctPrefix<M>(clients: seq<TxParamsMsg<M>>, m: TxParamsMsg<M>)
    requires forall j :: 0 <= j < |clients| ==> IsClient(clients[j])
    requires IsClient(m) && DistinctCounts(clients + [m])
    ensures DistinctCounts(clients) && forall x :: x in clients ==> Count(x) != Count(m)
  {
    var all := clients + [m];
    assert forall j :: 0 <= j < |clients| ==> all[j] == clients[j];
    assert all[|clients|] == m;
  }

  /** A message with the next count is dispatched at once. */
  lemma Sent<M>(received: seq<TxParamsMsg<M>>, sent: seq<TxParamsMsg<M>>, pending: map<string, TxParamsMsg<M>>,
                next: int64, m: TxParamsMsg<M>)
    requires Consistent(received, sent, pending, next) && IsClient(m) && Count(m) == next
    requires Key(CLIENT, next) !in pending
    ensures Consistent(received + [m], sent + [m], pending, Successor(next))
  {
    hide Key, Clients, Others, Kept;
    KeptMore(received, sent, pending, m);
    Appended(received, m);
    Appended(sent, m);
    if DistinctCounts(Clients(received) + [m]) {
      DistinctPrefix(Clients(received), m);
    }
  }

  /** A pending message with the next count moves to the dispatched ones. */
  lemma Drained<M>(received: seq<TxParamsMsg<M>>, sent: seq<TxParamsMsg<M>>, pending: map<string, TxParamsMsg<M>>,
                   next: int64)
    requires Consistent(received, sent, pending, next) && Key(CLIENT, next) in pending
    ensures var key := Key(CLIENT, next);
            IsClient(pending[key]) && Consistent(received, sent + [pending[key]], pending - {key}, Successor(next))
  {
    hide Key, Clients, Others, Kept, Apart;
    var key := Key(CLIENT, next);
    var m := pending[key];
    KeyInjective(CLIENT, next, Count(m));
    Appended(sent, m);
    DrainedKept(received, sent, pending, m);
  }

  lemma DrainedKept<M>(received: seq<TxParamsMsg<M>>, sent: seq<TxParamsMsg<M>>, pending: map<string, TxParamsMsg<M>>,
                       m: TxParamsMsg<M>)
    requires Pending(received, pending) && Kept(received, sent, pending) && Apart(received, sent, pending)
    requires IsClient(m) && Key(CLIENT, Count(m)) in pending && pending[Key(CLIENT, Count(m))] == m
    ensures Kept(received, sent + [m], pending - {Key(CLIENT, Count(m))})
    ensures Apart(received, sent + [m], pending - {Key(CLIENT, Count(m))})
  {
    hide Key, Clients, Others, HasCount;
    var key := Key(CLIENT, Count(m));
    Appended(sent, m);
    assert |pending - {key}| == |pending| - 1;
    assert m in sent + [m];
    forall x | x in received && IsClient(x)
      ensures HasCount(sent + [m], Count(x)) || Key(CLIENT, Count(x)) in pending - {key}
    {
      HasMore(sent, m, Count(x));
      if Key(CLIENT, Count(x)) == key {
        KeyInjective(CLIENT, Count(x), Count(m));
      }
    }
  }

  // ---------- The loop ----------

  class Handler<M(!new)> {
    var PeerTxCount: map<string, int64>
    var MsgMap: map<string, TxParamsMsg<M>>
    /** Messages taken from the channel, and those handed to serialSendAsync. */
    ghost var received: seq<TxParamsMsg<M>>
    ghost var sent: seq<TxParamsMsg<M>>

    constructor ()
      ensures Valid() && received == [] && sent == []
    {
      PeerTxCount, MsgMap, received, sent := map[], map[], [], [];
    }

    function Next(): int64
      reads this
    {
      if CLIENT in PeerTxCount then PeerTxCount[CLIENT] else 0
    }

    ghost predicate Valid()
      reads this
    {
      && PeerTxCount.Keys <= {CLIENT}
      && Consistent(received, sent, MsgMap, Next()) && Key(CLIENT, Next()) !in MsgMap
    }

    method SerialSendAsync(m: TxParamsMsg<M>)
      modifies this`sent
      ensures sent == old(sent) + [m]
    {
      sent := sent + [m];
    }

    /** Handles one message; a message without content ends the loop. */
    method Receive(m: TxParamsMsg<M>) returns (stop: bool)
      requires Valid()
      modifies this
      ensures Valid()
      ensures stop <==> m.msg.None?
      ensures received == if stop then old(received) else old(received) + [m]
      ensures stop ==> sent == old(sent)
      ensures !IsClient(m) || stop ==> MsgMap == old(MsgMap) && Next() == old(Next())
      ensures !stop && !(IsClient(m) && Count(m) != old(Next())) ==> old(sent) + [m] <= sent
      ensures !stop && IsClient(m) && Count(m) != old(Next()) ==>
                sent == old(sent) && Next() == old(Next()) && MsgMap == old(MsgMap)[Key(CLIENT, Count(m)) := m]
    {
      hide Consistent, Key;
      if m.msg.None? {
        return true;
      }
      stop := false;
      if m.txParams.None? || m.txParams.value.peerId != CLIENT {
        OtherSent(received, sent, MsgMap, Next(), m);
        SerialSendAsync(m);
        received := received + [m];
        return;
      }
      var peerId := m.txParams.value.peerId;
      if peerId !in PeerTxCount {
        PeerTxCount := PeerTxCount[peerId := 0];
      }
      var txcount := PeerTxCount[peerId];
      if txcount == m.txParams.value.txCount {
        Sent(received, sent, MsgMap, txcount, m);
        SerialSendAsync(m);
        received := received + [m];
        txcount := Successor(txcount);
        var key := Key(peerId, txcount);
        while key in MsgMap
          invariant PeerTxCount.Keys == {CLIENT} && received == old(received) + [m] && old(sent) + [m] <= sent
          invariant Consistent(received, sent, MsgMap, txcount) && key == Key(CLIENT, txcount)
          decreases |MsgMap|
        {
          Drained(received, sent, MsgMap, txcount);
          SerialSendAsync(MsgMap[key]);
          MsgMap := MsgMap - {key};
          txcount := Successor(txcount);
          key := Key(peerId, txcount);
        }
        PeerTxCount := PeerTxCount[peerId := txcount];
      } else {
        Stored(received, sent, MsgMap, txcount, m);
        MsgMap := MsgMap[Key(peerId, m.txParams.value.txCount) := m];
        received := received + [m];
      }
    }

    /** The loop over what arrives on the channel, up to the first message without content. */
    method ProcessMsgChan(messages: seq<TxParamsMsg<M>>) returns (handled: nat)
      requires Valid()
      modifies this
      ensures Valid() && handled <= |messages| && received == old(received) + messages[..handled]
      ensures forall j :: 0 <= j < handled ==> messages[j].msg.Some?
      ensures handled < |messages| ==> messages[handled].msg.None?
    {
      hide Consistent, Key;
      handled := 0;
      while handled < |messages|
        invariant Valid() && handled <= |messages| && received == old(received) + messages[..handled]
        invariant forall j :: 0 <= j < handled ==> messages[j].msg.Some?
      {
        var stop := Receive(messages[handled]);
        if stop {
          return;
        }
        handled := handled + 1;
      }
    }
  }

  // ---------- Arrival in any order ----------

  /** Under distinct counts the map holds exactly the client messages that were received and not dispatched. */
  lemma HoldsTheOthers<M>(received: seq<TxParamsMsg<M>>, sent: seq<TxParamsMsg<M>>,
                          pending: map<string, TxParamsMsg<M>>, next: int64, m: TxParamsMsg<M>)
    requires Consistent(received, sent, pending, next) && DistinctCounts(Clients(received))
    requires IsClient(m)
    ensures (Key(CLIENT, Count(m)) in pending && pending[Key(CLIENT, Count(m))] == m) <==> m in received && m !in sent
  {
    hide Key;
    var key := Key(CLIENT, Count(m));
    ClientsIn(received, m);
    if m in received {
      if key in pending {
        KeyInjective(CLIENT, Count(pending[key]), Count(m));
        ClientsIn(received, pending[key]);
        SameCount(Clients(received), pending[key], m);
      } else {
        var x :| x in sent && IsClient(x) && Count(x) == Count(m);
        ClientsIn(received, x);
        SameCount(Clients(received), x, m);
      }
    }
  }

  lemma SameCount<M>(clients: seq<TxParamsMsg<M>>, x: TxParamsMsg<M>, m: TxParamsMsg<M>)
    requires forall j :: 0 <= j < |clients| ==> IsClient(clients[j])
    requires DistinctCounts(clients) && x in clients && m in clients && Count(x) == Count(m)
    ensures x == m
  {
    var i :| 0 <= i < |clients| && clients[i] == x;
    var j :| 0 <= j < |clients| && clients[j] == m;
    assert Count(clients[i]) == Count(clients[j]);
  }

  /** The next count to dispatch has not arrived. */
  lemma NextIsMissing<M>(received: seq<TxParamsMsg<M>>, sent: seq<TxParamsMsg<M>>, pending: map<string, TxParamsMsg<M>>,
                         next: int64)
    requires Consistent(received, sent, pending, next) && Key(CLIENT, next) !in pending
    requires |Clients(received)| <= MAX
    ensures next == |Clients(sent)| && !HasCount(received, next)
  {
    hide Key;
    forall m | m in sent && IsClient(m) ensures Count(m) < next {
      SentBelow(sent, next, m);
    }
  }

  lemma SentBelow<M>(sent: seq<TxParamsMsg<M>>, next: int64, m: TxParamsMsg<M>)
    requires Dispatched(Clients(sent), next) && |Clients(sent)| <= MAX && m in sent && IsClient(m)
    ensures Count(m) < next
  {
    ClientsIn(sent, m);
    var k :| 0 <= k < |Clients(sent)| && Clients(sent)[k] == m;
  }

  lemma {:induction false} Pigeonhole(s: seq<int>, n: nat)
    requires forall j :: 0 <= j < |s| ==> 0 <= s[j] < n
    requires forall i, j :: 0 <= i < j < |s| ==> s[i] != s[j]
    ensures |s| <= n
    decreases n
  {
    assert |s| > 0 ==> s[0] < n;
    if n > 0 {
      if i :| 0 <= i < |s| && s[i] == n - 1 {
        Pigeonhole(s[..i] + s[i + 1..], n - 1);
      } else {
        Pigeonhole(s, n - 1);
      }
    }
  }

  /** Counts that are distinct and below n, n of them, leave none out. */
  lemma NoneMissing<M>(clients: seq<TxParamsMsg<M>>, n: nat, c: int64)
    requires forall j :: 0 <= j < |clients| ==> IsClient(clients[j])
    requires DistinctCounts(clients) && |clients| == n && 0 <= c < n
    requires forall j :: 0 <= j < |clients| ==> 0 <= Count(clients[j]) < n
    ensures HasCount(clients, c)
  {
    var counts := seq(n, j requires 0 <= j < n => Count(clients[j]));
    if forall j :: 0 <= j < n ==> counts[j] != c {
      Pigeonhole(counts + [c], n);
    } else {
      var j :| 0 <= j < n && counts[j] == c;
      assert clients[j] in clients;
    }
  }

  /** Client messages numbered 0 to n - 1 are dispatched in that order, however they arrive, and none stays. */
  lemma AnyArrivalOrder<M>(received: seq<TxParamsMsg<M>>, sent: seq<TxParamsMsg<M>>,
                           pending: map<string, TxParamsMsg<M>>, next: int64, n: nat)
    requires Consistent(received, sent, pending, next) && Key(CLIENT, next) !in pending
    requires |Clients(received)| == n <= MAX && DistinctCounts(Clients(received))
    requires forall j :: 0 <= j < n ==> 0 <= Count(Clients(received)[j]) < n
    ensures next == n == |Clients(sent)| && pending == map[]
    ensures forall k :: 0 <= k < n ==> Count(Clients(sent)[k]) == k
  {
    NextIsMissing(received, sent, pending, next);
    if next < n {
      NoneMissing(Clients(received), n, next);
      var m :| m in Clients(received) && IsClient(m) && Count(m) == next;
      ClientsIn(received, m);
    }
  }
}
