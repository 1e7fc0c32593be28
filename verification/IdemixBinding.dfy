/**
 * What an accepted proof says about what was hashed (idemix/issuerkey.go, idemix/credrequest.go, idemix/signature.go).
 */
module IdemixBinding {
  import opened Wrappers
  import opened Modular
  import opened IdemixCurve
  import opened IdemixIssuerKey
  import opened IdemixIssuance
  import opened IdemixSignature
  import opened IdemixCompleteness

  // ---------- Acceptance ----------

  /** What an accepted signature has been checked for, apart from its challenge. */
  lemma AcceptedShape(c: Curve, sig: Signature, disclosure: seq<byte>, ipk: IssuerPublicKey, msg: seq<byte>,
                      values: seq<nat>, rhIndex: int)
    requires c.Ok() && Verify(c, sig, disclosure, ipk, msg, values, rhIndex) == Ok(())
    ensures 0 <= rhIndex < |disclosure| == |ipk.attributeNames| <= |ipk.hAttrs| && ValuesGiven(disclosure, values)
    ensures exists k :: rhIndex <= k < |disclosure| && disclosure[k] == 0
    ensures |sig.proofSAttrs| == |Hidden(disclosure, |disclosure|)|
    ensures sig.revocationAlg == ALG_NO_REVOCATION && sig.proofC < c.q
    ensures sig.aPrime.log % c.q != 0 && Eq(c.q, ipk.w.log * sig.aPrime.log, sig.aBar.log)
  {
    hide Hidden, SignHead, VerT1, VerT2, VerT3, SearchInts, Challenge;
    SearchFinds(disclosure, rhIndex);
  }

  // ---------- Hashed strings ----------

  /** Encodings tell points, and numbers below the order, apart. */
  ghost predicate Encodes(c: Curve) {
    && c.q > 0
    && (forall p, r :: c.g1Bytes(p) == c.g1Bytes(r) ==> Eq(c.q, p.log, r.log))
    && (forall p, r :: c.g2Bytes(p) == c.g2Bytes(r) ==> Eq(c.q, p.log, r.log))
    && (forall a: nat, b: nat :: a < c.q && b < c.q && c.bigBytes(a) == c.bigBytes(b) ==> a == b)
  }

  /** Two different byte strings with one hash. */
  ghost predicate Collide(c: Curve, u: seq<byte>, v: seq<byte>)
    requires c.q > 0
  {
    u != v && c.HashModOrder(u) == c.HashModOrder(v)
  }

  lemma SameEnds(a: seq<byte>, b: seq<byte>, a': seq<byte>, b': seq<byte>)
    requires |a| == |a'| || |b| == |b'|
    requires a + b == a' + b'
    ensures a == a' && b == b'
  {
    assert a == (a + b)[..|a|] && a' == (a' + b')[..|a'|];
    assert b == (a + b)[|a|..] && b' == (a' + b')[|a'|..];
  }

  /** The bytes that are hashed first when a signature is checked. */
  function Signed(c: Curve, sig: Signature, disclosure: seq<byte>, ipk: IssuerPublicKey, msg: seq<byte>,
                  values: seq<nat>): seq<byte>
    requires c.q > 0 && |disclosure| <= |ipk.hAttrs| && |sig.proofSAttrs| == |Hidden(disclosure, |disclosure|)|
    requires ValuesGiven(disclosure, values)
  {
    SignHead(c, VerT1(c, sig, ipk), VerT2(c, sig, ipk, disclosure, values), VerT3(c, sig, ipk), sig.aPrime, sig.aBar,
             sig.bPrime, sig.nym) + Fit(ipk.hash, c.fieldBytes) + disclosure + msg
  }

  /** The bytes that are hashed then: the first hash and the nonce. */
  function SignedAgain(c: Curve, signed: seq<byte>, nonce: nat): seq<byte>
    requires c.q > 0
  {
    c.bigBytes(c.HashModOrder(signed)) + c.bigBytes(nonce)
  }

  // ---------- Signatures ----------

  /** An accepted signature carries the hash of the hash. */
  lemma AcceptedChallenge(c: Curve, sig: Signature, disclosure: seq<byte>, ipk: IssuerPublicKey, msg: seq<byte>,
                          values: seq<nat>, rhIndex: int)
    requires c.Ok() && Verify(c, sig, disclosure, ipk, msg, values, rhIndex) == Ok(())
    ensures sig.proofC == c.HashModOrder(SignedAgain(c, Signed(c, sig, disclosure, ipk, msg, values), sig.nonce))
  {
    hide Hidden, SignHead, VerT1, VerT2, VerT3, SearchInts, Fit;
  }

  lemma SignedIs(c: Curve, sig: Signature, disclosure: seq<byte>, ipk: IssuerPublicKey, msg: seq<byte>,
                 values: seq<nat>)
    requires c.q > 0 && |disclosure| <= |ipk.hAttrs| && |sig.proofSAttrs| == |Hidden(disclosure, |disclosure|)|
    requires ValuesGiven(disclosure, values)
    ensures var head := SignHead(c, VerT1(c, sig, ipk), VerT2(c, sig, ipk, disclosure, values), VerT3(c, sig, ipk),
                                 sig.aPrime, sig.aBar, sig.bPrime, sig.nym);
            Challenge(c, head, ipk.hash, disclosure, msg, sig.nonce) ==
              c.HashModOrder(SignedAgain(c, Signed(c, sig, disclosure, ipk, msg, values), sig.nonce))
  {
    hide Hidden, SignHead, VerT1, VerT2, VerT3, Fit;
  }

  /** The signatures that are accepted, and no others. */
  lemma AcceptedIff(c: Curve, sig: Signature, disclosure: seq<byte>, ipk: IssuerPublicKey, msg: seq<byte>,
                    values: seq<nat>, rhIndex: int)
    requires c.Ok()
    ensures Verify(c, sig, disclosure, ipk, msg, values, rhIndex) == Ok(()) <==>
              && 0 <= rhIndex < |disclosure| == |ipk.attributeNames| <= |ipk.hAttrs|
              && (exists k :: rhIndex <= k < |disclosure| && disclosure[k] == 0)
              && (forall k | 0 <= k < |disclosure| && disclosure[k] != 0 :: k < |values|)
              && |sig.proofSAttrs| == |Hidden(disclosure, |disclosure|)| && sig.revocationAlg == 0
              && sig.aPrime.log % c.q != 0 && Eq(c.q, ipk.w.log * sig.aPrime.log, sig.aBar.log)
              && sig.proofC == c.HashModOrder(SignedAgain(c, Signed(c, sig, disclosure, ipk, msg, values), sig.nonce))
  {
    hide Hidden, SignHead, VerT1, VerT2, VerT3, SearchInts, Fit, Signed;
    if Verify(c, sig, disclosure, ipk, msg, values, rhIndex) == Ok(()) {
      AcceptedShape(c, sig, disclosure, ipk, msg, values, rhIndex);
      AcceptedChallenge(c, sig, disclosure, ipk, msg, values, rhIndex);
    } else if 0 <= rhIndex < |disclosure| == |ipk.attributeNames| <= |ipk.hAttrs| && ValuesGiven(disclosure, values) {
      SearchFinds(disclosure, rhIndex);
      assert GEN_G2.log * sig.aBar.log == sig.aBar.log;
      if |sig.proofSAttrs| == |Hidden(disclosure, |disclosure|)| {
        SignedIs(c, sig, disclosure, ipk, msg, values);
      }
    }
  }

  lemma HeadsAgree(c: Curve, t1: G1, t2: G1, t3: G1, a: G1, b: G1, d: G1, n: G1, t1': G1, t2': G1, t3': G1, a': G1,
                   b': G1, d': G1, n': G1)
    requires c.Ok() && Encodes(c) && SignHead(c, t1, t2, t3, a, b, d, n) == SignHead(c, t1', t2', t3', a', b', d', n')
    ensures Eq(c.q, t1.log, t1'.log) && Eq(c.q, t2.log, t2'.log) && Eq(c.q, t3.log, t3'.log)
    ensures Eq(c.q, a.log, a'.log) && Eq(c.q, b.log, b'.log) && Eq(c.q, d.log, d'.log) && Eq(c.q, n.log, n'.log)
  {
    hide Eq;
    var x1, x1' := SIGN_LABEL + c.g1Bytes(t1), SIGN_LABEL + c.g1Bytes(t1');
    var x2, x2' := x1 + c.g1Bytes(t2), x1' + c.g1Bytes(t2');
    var x3, x3' := x2 + c.g1Bytes(t3), x2' + c.g1Bytes(t3');
    var x4, x4' := x3 + c.g1Bytes(a), x3' + c.g1Bytes(a');
    var x5, x5' := x4 + c.g1Bytes(b), x4' + c.g1Bytes(b');
    var x6, x6' := x5 + c.g1Bytes(d), x5' + c.g1Bytes(d');
    SameEnds(x6, c.g1Bytes(n), x6', c.g1Bytes(n'));
    SameEnds(x5, c.g1Bytes(d), x5', c.g1Bytes(d'));
    SameEnds(x4, c.g1Bytes(b), x4', c.g1Bytes(b'));
    SameEnds(x3, c.g1Bytes(a), x3', c.g1Bytes(a'));
    SameEnds(x2, c.g1Bytes(t3), x2', c.g1Bytes(t3'));
    SameEnds(x1, c.g1Bytes(t2), x1', c.g1Bytes(t2'));
    SameEnds(SIGN_LABEL, c.g1Bytes(t1), SIGN_LABEL, c.g1Bytes(t1'));
  }

  lemma HeadLength(c: Curve, t1: G1, t2: G1, t3: G1, a: G1, b: G1, d: G1, n: G1)
    requires c.Ok()
    ensures |SignHead(c, t1, t2, t3, a, b, d, n)| == |SIGN_LABEL| + 7 * (2 * c.fieldBytes + 1)
  {
  }

  lemma SignedAgree(c: Curve, ipk: IssuerPublicKey, sig: Signature, disclosure: seq<byte>, msg: seq<byte>,
                    values: seq<nat>, sig': Signature, disclosure': seq<byte>, msg': seq<byte>, values': seq<nat>)
    requires c.Ok() && Encodes(c) && |disclosure| == |disclosure'| <= |ipk.hAttrs|
    requires ValuesGiven(disclosure, values) && |sig.proofSAttrs| == |Hidden(disclosure, |disclosure|)|
    requires ValuesGiven(disclosure', values') && |sig'.proofSAttrs| == |Hidden(disclosure', |disclosure'|)|
    requires Signed(c, sig, disclosure, ipk, msg, values) == Signed(c, sig', disclosure', ipk, msg', values')
    ensures disclosure == disclosure' && msg == msg'
    ensures Eq(c.q, VerT1(c, sig, ipk).log, VerT1(c, sig', ipk).log)
    ensures Eq(c.q, VerT2(c, sig, ipk, disclosure, values).log, VerT2(c, sig', ipk, disclosure', values').log)
    ensures Eq(c.q, VerT3(c, sig, ipk).log, VerT3(c, sig', ipk).log)
    ensures Eq(c.q, sig.aPrime.log, sig'.aPrime.log) && Eq(c.q, sig.aBar.log, sig'.aBar.log)
    ensures Eq(c.q, sig.bPrime.log, sig'.bPrime.log) && Eq(c.q, sig.nym.log, sig'.nym.log)
  {
    hide Eq, Hidden, VerT1, VerT2, VerT3, Fit, SignHead;
    var t1, t2, t3 := VerT1(c, sig, ipk), VerT2(c, sig, ipk, disclosure, values), VerT3(c, sig, ipk);
    var t1', t2', t3' := VerT1(c, sig', ipk), VerT2(c, sig', ipk, disclosure', values'), VerT3(c, sig', ipk);
    var head := SignHead(c, t1, t2, t3, sig.aPrime, sig.aBar, sig.bPrime, sig.nym);
    var head' := SignHead(c, t1', t2', t3', sig'.aPrime, sig'.aBar, sig'.bPrime, sig'.nym);
    HeadLength(c, t1, t2, t3, sig.aPrime, sig.aBar, sig.bPrime, sig.nym);
    HeadLength(c, t1', t2', t3', sig'.aPrime, sig'.aBar, sig'.bPrime, sig'.nym);
    var fit := Fit(ipk.hash, c.fieldBytes);
    SameEnds(head + fit + disclosure, msg, head' + fit + disclosure', msg');
    SameEnds(head + fit, disclosure, head' + fit, disclosure');
    SameEnds(head, fit, head', fit);
    HeadsAgree(c, t1, t2, t3, sig.aPrime, sig.aBar, sig.bPrime, sig.nym, t1', t2', t3', sig'.aPrime, sig'.aBar,
               sig'.bPrime, sig'.nym);
  }

  /** One challenge for two byte strings and two nonces: they are the same, or there is a collision. */
  lemma TwoHashes(c: Curve, u: seq<byte>, n: nat, u': seq<byte>, n': nat)
    requires c.Ok() && Encodes(c) && c.HashModOrder(SignedAgain(c, u, n)) == c.HashModOrder(SignedAgain(c, u', n'))
    ensures || Collide(c, u, u')
            || Collide(c, SignedAgain(c, u, n), SignedAgain(c, u', n'))
            || (u == u' && c.bigBytes(n) == c.bigBytes(n'))
  {
    hide Curve.HashModOrder;
    if SignedAgain(c, u, n) == SignedAgain(c, u', n') {
      SameEnds(c.bigBytes(c.HashModOrder(u)), c.bigBytes(n), c.bigBytes(c.HashModOrder(u')), c.bigBytes(n'));
    }
  }

  /**
   * Two accepted signatures with the same challenge, under one key, are for the same message and disclosure, with the
   * same points, commitments and nonce, unless the hash has a collision at the very strings that were hashed.
   */
  lemma SignatureBinds(c: Curve, ipk: IssuerPublicKey, sig: Signature, disclosure: seq<byte>, msg: seq<byte>,
                       values: seq<nat>, rhIndex: int, sig': Signature, disclosure': seq<byte>, msg': seq<byte>,
                       values': seq<nat>, rhIndex': int)
    requires c.Ok() && Encodes(c) && sig'.proofC == sig.proofC
    requires Verify(c, sig, disclosure, ipk, msg, values, rhIndex) == Ok(())
    requires Verify(c, sig', disclosure', ipk, msg', values', rhIndex') == Ok(())
    ensures |disclosure| <= |ipk.hAttrs| && ValuesGiven(disclosure, values)
    ensures |disclosure'| <= |ipk.hAttrs| && ValuesGiven(disclosure', values')
    ensures |sig.proofSAttrs| == |Hidden(disclosure, |disclosure|)|
    ensures |sig'.proofSAttrs| == |Hidden(disclosure', |disclosure'|)|
    ensures var u, u' := Signed(c, sig, disclosure, ipk, msg, values), Signed(c, sig', disclosure', ipk, msg', values');
            || Collide(c, u, u')
            || Collide(c, SignedAgain(c, u, sig.nonce), SignedAgain(c, u', sig'.nonce))
            || (&& disclosure == disclosure' && msg == msg' && c.bigBytes(sig.nonce) == c.bigBytes(sig'.nonce)
                && Eq(c.q, VerT1(c, sig, ipk).log, VerT1(c, sig', ipk).log)
                && Eq(c.q, VerT2(c, sig, ipk, disclosure, values).log, VerT2(c, sig', ipk, disclosure', values').log)
                && Eq(c.q, VerT3(c, sig, ipk).log, VerT3(c, sig', ipk).log)
                && Eq(c.q, sig.aPrime.log, sig'.aPrime.log) && Eq(c.q, sig.aBar.log, sig'.aBar.log)
                && Eq(c.q, sig.bPrime.log, sig'.bPrime.log) && Eq(c.q, sig.nym.log, sig'.nym.log))
  {
    hide Eq, Hidden, VerT1, VerT2, VerT3, Verify, Signed, SignedAgain, Curve.HashModOrder;
    AcceptedShape(c, sig, disclosure, ipk, msg, values, rhIndex);
    AcceptedShape(c, sig', disclosure', ipk, msg', values', rhIndex');
    AcceptedChallenge(c, sig, disclosure, ipk, msg, values, rhIndex);
    AcceptedChallenge(c, sig', disclosure', ipk, msg', values', rhIndex');
    var u, u' := Signed(c, sig, disclosure, ipk, msg, values), Signed(c, sig', disclosure', ipk, msg', values');
    TwoHashes(c, u, sig.nonce, u', sig'.nonce);
    if u == u' {
      SignedAgree(c, ipk, sig, disclosure, msg, values, sig', disclosure', msg', values');
    }
  }

  /** No signature is accepted for two messages, unless the hash has a collision at strings made from them. */
  lemma OneMessage(c: Curve, ipk: IssuerPublicKey, sig: Signature, disclosure: seq<byte>, values: seq<nat>,
                   rhIndex: int, msg: seq<byte>, msg': seq<byte>)
    returns (u: seq<byte>, u': seq<byte>)
    requires c.Ok() && Encodes(c) && msg != msg'
    requires Verify(c, sig, disclosure, ipk, msg, values, rhIndex) == Ok(())
    requires Verify(c, sig, disclosure, ipk, msg', values, rhIndex) == Ok(())
    ensures exists head :: u == head + msg && u' == head + msg'
    ensures Collide(c, u, u') || Collide(c, SignedAgain(c, u, sig.nonce), SignedAgain(c, u', sig.nonce))
  {
    hide Eq, Hidden, VerT1, VerT2, VerT3, Verify, SignedAgain, Fit, SignHead, Curve.HashModOrder;
    SignatureBinds(c, ipk, sig, disclosure, msg, values, rhIndex, sig, disclosure, msg', values, rhIndex);
    u, u' := Signed(c, sig, disclosure, ipk, msg, values), Signed(c, sig, disclosure, ipk, msg', values);
    var head := SignHead(c, VerT1(c, sig, ipk), VerT2(c, sig, ipk, disclosure, values), VerT3(c, sig, ipk), sig.aPrime,
                         sig.aBar, sig.bPrime, sig.nym) + Fit(ipk.hash, c.fieldBytes) + disclosure;
    assert u == head + msg && u' == head + msg';
  }

  // ---------- Requests and keys ----------

  /** Two accepted requests with the same challenge are for the same commitment, pseudonym, nonce and issuer. */
  lemma RequestBinds(c: Curve, ipk: IssuerPublicKey, m: CredRequest, ipk': IssuerPublicKey, m': CredRequest)
    requires c.Ok() && Encodes(c) && m'.proofC == m.proofC
    requires RequestCheck(c, m, ipk) == Ok(()) && RequestCheck(c, m', ipk') == Ok(())
    ensures m.issuerNonce.Some? && m'.issuerNonce.Some?
    ensures var t, t' := RequestT(c, m, ipk), RequestT(c, m', ipk');
            var n, n' := m.issuerNonce.value, m'.issuerNonce.value;
            var tail, tail' := Fit(n + ipk.hash, 2 * c.fieldBytes), Fit(n' + ipk'.hash, 2 * c.fieldBytes);
            || Collide(c, RequestHead(c, t, ipk.hSk, m.nym) + tail, RequestHead(c, t', ipk'.hSk, m'.nym) + tail')
            || (&& Eq(c.q, t.log, t'.log) && Eq(c.q, ipk.hSk.log, ipk'.hSk.log) && Eq(c.q, m.nym.log, m'.nym.log)
                && tail == tail' && (|n| == |n'| ==> n == n'))
  {
    hide Eq, RequestT, Fit, Curve.HashModOrder;
    var t, t' := RequestT(c, m, ipk), RequestT(c, m', ipk');
    var n, n' := m.issuerNonce.value, m'.issuerNonce.value;
    var tail, tail' := Fit(n + ipk.hash, 2 * c.fieldBytes), Fit(n' + ipk'.hash, 2 * c.fieldBytes);
    var head, head' := RequestHead(c, t, ipk.hSk, m.nym), RequestHead(c, t', ipk'.hSk, m'.nym);
    if head + tail == head' + tail' {
      SameEnds(head, tail, head', tail');
      var x1, x1' := CRED_REQUEST_LABEL + c.g1Bytes(t), CRED_REQUEST_LABEL + c.g1Bytes(t');
      var x2, x2' := x1 + c.g1Bytes(ipk.hSk), x1' + c.g1Bytes(ipk'.hSk);
      SameEnds(x2, c.g1Bytes(m.nym), x2', c.g1Bytes(m'.nym));
      SameEnds(x1, c.g1Bytes(ipk.hSk), x1', c.g1Bytes(ipk'.hSk));
      SameEnds(CRED_REQUEST_LABEL, c.g1Bytes(t), CRED_REQUEST_LABEL, c.g1Bytes(t'));
      FitStarts(n, ipk.hash, 2 * c.fieldBytes);
      FitStarts(n', ipk'.hash, 2 * c.fieldBytes);
    }
  }

  lemma FitStarts(a: seq<byte>, b: seq<byte>, n: nat)
    requires |a| <= n
    ensures Fit(a + b, n)[..|a|] == a
  {
    assert forall i | 0 <= i < |a| :: Fit(a + b, n)[i] == a[i];
  }

  /** Two accepted issuer keys with the same challenge have the same commitments, base and key in both its forms. */
  lemma IssuerKeyBinds(c: Curve, ipk: IssuerPublicKey, ipk': IssuerPublicKey)
    requires c.Ok() && Encodes(c) && KeyChecks(c, ipk) && KeyChecks(c, ipk') && ipk'.proofC == ipk.proofC
    ensures || Collide(c, ProofData(c, KeyT1(c, ipk), KeyT2(c, ipk), ipk.barG1, ipk.w, ipk.barG2),
                       ProofData(c, KeyT1(c, ipk'), KeyT2(c, ipk'), ipk'.barG1, ipk'.w, ipk'.barG2))
            || (&& Eq(c.q, KeyT1(c, ipk).log, KeyT1(c, ipk').log) && Eq(c.q, KeyT2(c, ipk).log, KeyT2(c, ipk').log)
                && Eq(c.q, ipk.barG1.log, ipk'.barG1.log) && Eq(c.q, ipk.w.log, ipk'.w.log)
                && Eq(c.q, ipk.barG2.log, ipk'.barG2.log))
  {
    hide Eq, KeyT1, KeyT2, Curve.HashModOrder;
    var t1, t2, t1', t2' := KeyT1(c, ipk), KeyT2(c, ipk), KeyT1(c, ipk'), KeyT2(c, ipk');
    var x2, x2' := c.g2Bytes(t1) + c.g1Bytes(t2), c.g2Bytes(t1') + c.g1Bytes(t2');
    var x3, x3' := x2 + c.g2Bytes(GEN_G2), x2' + c.g2Bytes(GEN_G2);
    var x4, x4' := x3 + c.g1Bytes(ipk.barG1), x3' + c.g1Bytes(ipk'.barG1);
    var x5, x5' := x4 + c.g2Bytes(ipk.w), x4' + c.g2Bytes(ipk'.w);
    if x5 + c.g1Bytes(ipk.barG2) == x5' + c.g1Bytes(ipk'.barG2) {
      SameEnds(x5, c.g1Bytes(ipk.barG2), x5', c.g1Bytes(ipk'.barG2));
      SameEnds(x4, c.g2Bytes(ipk.w), x4', c.g2Bytes(ipk'.w));
      SameEnds(x3, c.g1Bytes(ipk.barG1), x3', c.g1Bytes(ipk'.barG1));
      SameEnds(x2, c.g2Bytes(GEN_G2), x2', c.g2Bytes(GEN_G2));
      SameEnds(c.g2Bytes(t1), c.g1Bytes(t2), c.g2Bytes(t1'), c.g1Bytes(t2'));
    }
  }

  /** Keys with the same hash have the same serialisation, the hash left out, or the hash collides there. */
  lemma KeyHashBinds(c: Curve, ipk: IssuerPublicKey, ipk': IssuerPublicKey)
    requires c.Ok() && Encodes(c) && WithHash(c, ipk).hash == WithHash(c, ipk').hash
    ensures || c.marshal(ipk.(hash := [])) == c.marshal(ipk'.(hash := []))
            || Collide(c, c.marshal(ipk.(hash := [])), c.marshal(ipk'.(hash := [])))
    ensures WithHash(c, ipk).(hash := ipk.hash) == ipk
  {
  }
}
