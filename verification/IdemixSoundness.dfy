/**
 * Two accepted proofs that answer different challenges for the same commitments give away the secrets they prove
 * (idemix/issuerkey.go, idemix/credrequest.go, idemix/signature.go).
 */
module IdemixSoundness {
  import opened Modular
  import opened Sequences
  import opened IdemixCurve
  import opened IdemixIssuerKey
  import opened IdemixIssuance
  import opened IdemixSignature
  import opened IdemixCompleteness
  import opened IdemixExtraction
  import opened IdemixBinding

  // ---------- Issuer keys and requests ----------

  // The two proofs may be checked with two digests: with one, the same commitments for a key get the same challenge.

  /** An issuer who answers two challenges for the same commitments knows the secret key, in both its forms. */
  lemma IssuerKeyExtraction(c: Curve, c': Curve, ipk: IssuerPublicKey, ipk': IssuerPublicKey) returns (x: nat)
    requires c.Ok() && c' == c.(digest := c'.digest) && KeyChecks(c, ipk) && KeyChecks(c', ipk')
    requires ipk'.w == ipk.w && ipk'.barG1 == ipk.barG1 && ipk'.barG2 == ipk.barG2
    requires KeyT1(c, ipk') == KeyT1(c, ipk) && KeyT2(c, ipk') == KeyT2(c, ipk)
    requires ipk'.proofC != ipk.proofC
    ensures Eq(c.q, ipk.w.log, x) && Eq(c.q, ipk.barG2.log, ipk.barG1.log * x)
  {
    hide ProofData, KeyT1, KeyT2, Eq, Secret;
    SameLogNot(c.q, ipk.proofC, ipk'.proofC);
    var d, k := ChallengeInverse(c.q, ipk.proofC, ipk'.proofC);
    x := Secret(c.q, ipk.proofS, ipk'.proofS, k);
    KeyCommitmentsEq(c, ipk);
    KeyCommitmentsEq(c, ipk');
    SameCommitment(c.q, KeyT1(c, ipk).log, 1 * ipk.proofS - ipk.w.log * ipk.proofC,
                   1 * ipk'.proofS - ipk.w.log * ipk'.proofC);
    SameCommitment(c.q, KeyT2(c, ipk).log, ipk.barG1.log * ipk.proofS - ipk.barG2.log * ipk.proofC,
                   ipk.barG1.log * ipk'.proofS - ipk.barG2.log * ipk'.proofC);
    SchnorrExtraction(c.q, 1, ipk.w.log, ipk.proofS, ipk'.proofS, ipk.proofC, ipk'.proofC, d, k);
    SchnorrExtraction(c.q, ipk.barG1.log, ipk.barG2.log, ipk.proofS, ipk'.proofS, ipk.proofC, ipk'.proofC, d, k);
    assert 1 * x == x;
  }

  lemma SameLogNot(q: nat, a: nat, b: nat)
    requires a < q && b < q && a != b
    ensures !Eq(q, a, b)
  {
    if Eq(q, a, b) {
      SameLog(q, a, b);
    }
  }

  lemma KeyCommitmentsEq(c: Curve, ipk: IssuerPublicKey)
    requires c.q > 0
    ensures Eq(c.q, KeyT1(c, ipk).log, 1 * ipk.proofS - ipk.w.log * ipk.proofC)
    ensures Eq(c.q, KeyT2(c, ipk).log, ipk.barG1.log * ipk.proofS - ipk.barG2.log * ipk.proofC)
  {
    NegatedSum(c, 1, ipk.proofS, ipk.w.log, ipk.proofC);
    NegatedSum(c, ipk.barG1.log, ipk.proofS, ipk.barG2.log, ipk.proofC);
  }

  lemma NegatedSum(c: Curve, a: nat, s: nat, b: nat, ch: nat)
    requires c.q > 0
    ensures Eq(c.q, ((a * s) % c.q + (b * c.Modneg(ch)) % c.q) % c.q, a * s - b * ch)
  {
    var q, neg := c.q, c.Modneg(ch);
    var x, y := (a * s) % q, (b * neg) % q;
    EqMod(q, a * s);
    EqMod(q, b * neg);
    EqMod(q, -(ch as int));
    NegatedMultiple(q, x, y, a, s, b, neg, ch);
    EqMod(q, x + y);
  }

  /** A user who answers two challenges for the same commitment knows the secret key in the pseudonym. */
  lemma RequestExtraction(c: Curve, c': Curve, ipk: IssuerPublicKey, m: CredRequest, m': CredRequest)
    returns (sk: nat)
    requires c.Ok() && c' == c.(digest := c'.digest)
    requires RequestCheck(c, m, ipk) == Ok(()) && RequestCheck(c', m', ipk) == Ok(())
    requires m'.nym == m.nym && RequestT(c, m', ipk) == RequestT(c, m, ipk) && m'.proofC != m.proofC
    ensures Eq(c.q, m.nym.log, ipk.hSk.log * sk)
  {
    hide RequestData, RequestT, Eq, Secret;
    SameLogNot(c.q, m.proofC, m'.proofC);
    var d, k := ChallengeInverse(c.q, m.proofC, m'.proofC);
    sk := Secret(c.q, m.proofS, m'.proofS, k);
    RequestTEq(c, m, ipk);
    RequestTEq(c, m', ipk);
    SameCommitment(c.q, RequestT(c, m, ipk).log, ipk.hSk.log * m.proofS - m.nym.log * m.proofC,
                   ipk.hSk.log * m'.proofS - m.nym.log * m'.proofC);
    SchnorrExtraction(c.q, ipk.hSk.log, m.nym.log, m.proofS, m'.proofS, m.proofC, m'.proofC, d, k);
  }

  lemma RequestTEq(c: Curve, m: CredRequest, ipk: IssuerPublicKey)
    requires c.q > 0
    ensures Eq(c.q, RequestT(c, m, ipk).log, ipk.hSk.log * m.proofS - m.nym.log * m.proofC)
  {
    MulEq(c, ipk.hSk, m.proofS);
    MulEq(c, m.nym, m.proofC);
    SubEq(c, c.Mul(ipk.hSk, m.proofS), c.Mul(m.nym, m.proofC), ipk.hSk.log * m.proofS, m.nym.log * m.proofC);
  }

  // ---------- Signatures ----------

  /** The attributes: what is disclosed, and for the hidden ones what was extracted, in order. */
  function AllAttributes(disclosure: seq<byte>, values: seq<nat>, hidden: seq<nat>): (attrs: seq<nat>)
    requires ValuesGiven(disclosure, values) && |hidden| == |Hidden(disclosure, |disclosure|)|
    ensures |attrs| == |disclosure|
    ensures forall k | 0 <= k < |disclosure| && disclosure[k] != 0 :: attrs[k] == values[k]
  {
    var idx := Hidden(disclosure, |disclosure|);
    seq(|disclosure|, i requires 0 <= i < |disclosure| =>
      if disclosure[i] != 0 then values[i]
      else hidden[SearchInts(idx, i)])
  }

  lemma HiddenSelected(disclosure: seq<byte>, values: seq<nat>, hidden: seq<nat>)
    requires ValuesGiven(disclosure, values) && |hidden| == |Hidden(disclosure, |disclosure|)|
    ensures Select(AllAttributes(disclosure, values, hidden), Hidden(disclosure, |disclosure|)) == hidden
  {
    var idx, attrs := Hidden(disclosure, |disclosure|), AllAttributes(disclosure, values, hidden);
    forall j | 0 <= j < |idx|
      ensures Select(attrs, idx)[j] == hidden[j]
    {
      SearchExact(idx, j);
    }
  }

  lemma SearchExact(s: seq<nat>, j: nat)
    requires j < |s| && forall i, k | 0 <= i < k < |s| :: s[i] < s[k]
    ensures SearchInts(s, s[j]) == j
  {
  }

  /** The secrets behind two signatures, by the inverse of the difference of their challenges. */
  function HiddenSecrets(q: nat, s: seq<nat>, s': seq<nat>, k: nat): (r: seq<nat>)
    requires q > 0 && |s| == |s'|
    ensures |r| == |s|
  {
    seq(|s|, i requires 0 <= i < |s| => Secret(q, s[i], s'[i], k))
  }

  /** The points that both signatures show. */
  ghost predicate SamePoints(sig: Signature, sig': Signature) {
    sig'.aPrime == sig.aPrime && sig'.aBar == sig.aBar && sig'.bPrime == sig.bPrime && sig'.nym == sig.nym
  }

  /** d is the difference of the challenges and k its inverse. */
  ghost predicate Divides(q: nat, sig: Signature, sig': Signature, d: nat, k: nat) {
    q > 0 && Eq(q, sig.proofC, sig'.proofC + d) && Eq(q, d * k, 1)
  }

  lemma ExtractFirst(c: Curve, sig: Signature, sig': Signature, ipk: IssuerPublicKey, d: nat, k: nat, e: nat, r2: nat)
    requires Divides(c.q, sig, sig', d, k) && SamePoints(sig, sig') && VerT1(c, sig', ipk) == VerT1(c, sig, ipk)
    requires e == Secret(c.q, sig'.proofSE, sig.proofSE, k) && r2 == Secret(c.q, sig.proofSR2, sig'.proofSR2, k)
    ensures Eq(c.q, ipk.hRand.log * r2 - sig.aPrime.log * e - (sig.aBar.log - sig.bPrime.log), 0)
  {
    hide Eq, Secret, VerT1;
    var a', hr, diff := sig.aPrime.log, ipk.hRand.log, sig.aBar.log - sig.bPrime.log;
    VerT1Eq(c, sig, ipk);
    VerT1Eq(c, sig', ipk);
    SameCommitment(c.q, VerT1(c, sig, ipk).log, a' * sig.proofSE + hr * sig.proofSR2 - diff * sig.proofC,
                   a' * sig'.proofSE + hr * sig'.proofSR2 - diff * sig'.proofC);
    SecretMinus(c.q, sig.proofSE, sig'.proofSE, d, k);
    SecretPlus(c.q, sig.proofSR2, sig'.proofSR2, d, k);
    FirstExtraction(c.q, a', hr, diff, sig.proofSE, sig'.proofSE, sig.proofSR2, sig'.proofSR2, sig.proofC, sig'.proofC,
                    d, k, e, r2);
  }

  lemma ExtractSecond(c: Curve, sig: Signature, sig': Signature, ipk: IssuerPublicKey, disclosure: seq<byte>,
                      values: seq<nat>, d: nat, k: nat, s': nat, r3: nat, sk: nat, hidden: seq<nat>, idx: seq<nat>,
                      dd: nat)
    requires Divides(c.q, sig, sig', d, k) && SamePoints(sig, sig')
    requires |disclosure| <= |ipk.hAttrs| && ValuesGiven(disclosure, values) && idx == Hidden(disclosure, |disclosure|)
    requires dd == DisclosedDot(ipk.hAttrs, disclosure, values, |disclosure|)
    requires |sig.proofSAttrs| == |sig'.proofSAttrs| == |idx|
    requires VerT2(c, sig', ipk, disclosure, values) == VerT2(c, sig, ipk, disclosure, values)
    requires s' == Secret(c.q, sig.proofSSPrime, sig'.proofSSPrime, k)
    requires r3 == Secret(c.q, sig'.proofSR3, sig.proofSR3, k)
    requires sk == Secret(c.q, sig.proofSSk, sig'.proofSSk, k)
    requires hidden == HiddenSecrets(c.q, sig.proofSAttrs, sig'.proofSAttrs, k)
    ensures Eq(c.q, ipk.hRand.log * s' - sig.bPrime.log * r3 + ipk.hSk.log * sk
                    + Dot(Select(ipk.hAttrs, idx), hidden, |idx|) + (1 + dd), 0)
  {
    hide Eq, Secret, VerT2, Dot, Hidden, DisclosedDot, Select;
    var q, hr, b', hsk, bases := c.q, ipk.hRand.log, sig.bPrime.log, ipk.hSk.log, Select(ipk.hAttrs, idx);
    var d1, d2 := Dot(bases, sig.proofSAttrs, |idx|), Dot(bases, sig'.proofSAttrs, |idx|);
    VerT2Eq(c, sig, ipk, disclosure, values, idx, dd);
    VerT2Eq(c, sig', ipk, disclosure, values, idx, dd);
    SameCommitment(q, VerT2(c, sig, ipk, disclosure, values).log,
                   hr * sig.proofSSPrime + (b' * sig.proofSR3 + hsk * sig.proofSSk) + d1 + (1 + dd) * sig.proofC,
                   hr * sig'.proofSSPrime + (b' * sig'.proofSR3 + hsk * sig'.proofSSk) + d2 + (1 + dd) * sig'.proofC);
    SecretPlus(q, sig.proofSSPrime, sig'.proofSSPrime, d, k);
    SecretMinus(q, sig.proofSR3, sig'.proofSR3, d, k);
    SecretPlus(q, sig.proofSSk, sig'.proofSSk, d, k);
    forall i | 0 <= i < |idx|
      ensures Eq(q, sig.proofSAttrs[i], sig'.proofSAttrs[i] + d * hidden[i])
    {
      SecretPlus(q, sig.proofSAttrs[i], sig'.proofSAttrs[i], d, k);
    }
    DotLinear(q, bases, sig'.proofSAttrs, hidden, d, sig.proofSAttrs, |idx|);
    SecondExtraction(q, hr, b', hsk, 1 + dd, sig.proofSSPrime, sig'.proofSSPrime, sig.proofSR3, sig'.proofSR3,
                     sig.proofSSk, sig'.proofSSk, d1, d2, sig.proofC, sig'.proofC, d, k, s', r3, sk,
                     Dot(bases, hidden, |idx|));
  }

  lemma VerT3Eq(c: Curve, sig: Signature, ipk: IssuerPublicKey)
    requires c.q > 0
    ensures Eq(c.q, VerT3(c, sig, ipk).log,
               ipk.hSk.log * sig.proofSSk + ipk.hRand.log * sig.proofSRNym - sig.nym.log * sig.proofC)
  {
    hide Eq, Curve.Mul, Curve.Mul2, Curve.Sub;
    Mul2Eq(c, ipk.hSk, sig.proofSSk, ipk.hRand, sig.proofSRNym);
    MulEq(c, sig.nym, sig.proofC);
    SubEq(c, c.Mul2(ipk.hSk, sig.proofSSk, ipk.hRand, sig.proofSRNym), c.Mul(sig.nym, sig.proofC),
          ipk.hSk.log * sig.proofSSk + ipk.hRand.log * sig.proofSRNym, sig.nym.log * sig.proofC);
  }

  lemma ExtractThird(c: Curve, sig: Signature, sig': Signature, ipk: IssuerPublicKey, d: nat, k: nat, sk: nat, rn: nat)
    requires Divides(c.q, sig, sig', d, k) && SamePoints(sig, sig') && VerT3(c, sig', ipk) == VerT3(c, sig, ipk)
    requires sk == Secret(c.q, sig.proofSSk, sig'.proofSSk, k) && rn == Secret(c.q, sig.proofSRNym, sig'.proofSRNym, k)
    ensures HonestNym(c, ipk, sk, sig.nym, rn)
  {
    hide Eq, Secret, VerT3;
    var hsk, hr, nym := ipk.hSk.log, ipk.hRand.log, sig.nym.log;
    VerT3Eq(c, sig, ipk);
    VerT3Eq(c, sig', ipk);
    SameCommitment(c.q, VerT3(c, sig, ipk).log, hsk * sig.proofSSk + hr * sig.proofSRNym - nym * sig.proofC,
                   hsk * sig'.proofSSk + hr * sig'.proofSRNym - nym * sig'.proofC);
    SecretPlus(c.q, sig.proofSSk, sig'.proofSSk, d, k);
    SecretPlus(c.q, sig.proofSRNym, sig'.proofSRNym, d, k);
    ThirdExtraction(c.q, hsk, hr, nym, sig.proofSSk, sig'.proofSSk, sig.proofSRNym, sig'.proofSRNym, sig.proofC,
                    sig'.proofC, d, k, sk, rn);
  }

  /** The parts make up a credential. */
  lemma CredentialFrom(c: Curve, sig: Signature, ipk: IssuerPublicKey, x: nat, disclosure: seq<byte>, values: seq<nat>,
                       e: nat, r2: nat, r3: nat, s': nat, sk: nat, hidden: seq<nat>)
    returns (cred: Credential)
    requires c.q > 0 && Eq(c.q, ipk.w.log, x) && Eq(c.q, ipk.w.log * sig.aPrime.log, sig.aBar.log)
    requires |disclosure| == |ipk.attributeNames| <= |ipk.hAttrs| && ValuesGiven(disclosure, values)
    requires |hidden| == |Hidden(disclosure, |disclosure|)|
    requires Eq(c.q, ipk.hRand.log * r2 - sig.aPrime.log * e - (sig.aBar.log - sig.bPrime.log), 0)
    requires var idx, n := Hidden(disclosure, |disclosure|), |disclosure|;
             Eq(c.q, ipk.hRand.log * s' - sig.bPrime.log * r3 + ipk.hSk.log * sk
                     + Dot(Select(ipk.hAttrs, idx), hidden, |idx|)
                     + (1 + DisclosedDot(ipk.hAttrs, disclosure, values, n)), 0)
    ensures Honest(c, ipk, x, cred, sk) && cred.attrs == AllAttributes(disclosure, values, hidden)
    ensures cred.a == G1((sig.aPrime.log * r3) % c.q)
  {
    hide Eq, Dot, Hidden, DisclosedDot, Select, AllAttributes, HiddenDot, Message;
    var q, n, idx := c.q, |disclosure|, Hidden(disclosure, |disclosure|);
    var a, b, s := sig.aPrime.log * r3, (sig.bPrime.log + ipk.hRand.log * r2) * r3, s' + r2 * r3;
    var attrs := AllAttributes(disclosure, values, hidden);
    cred := Credential(G1(a % q), G1(b % q), e, s % q, attrs);
    var dh, dd := Dot(Select(ipk.hAttrs, idx), hidden, |idx|), DisclosedDot(ipk.hAttrs, disclosure, values, n);
    HiddenSelected(disclosure, values, hidden);
    HiddenDotIs(ipk.hAttrs, disclosure, attrs);
    MessageSplits(ipk, cred, sk, disclosure, values);
    MessageFromParts(q, sig.bPrime.log, ipk.hRand.log, ipk.hSk.log, r2, r3, s', sk, dh + (1 + dd));
    ReducedMessage(q, b, dh + (1 + dd) + ipk.hSk.log * sk, ipk.hRand.log, s);
    SignatureFromParts(q, sig.aPrime.log, sig.aBar.log, sig.bPrime.log, ipk.hRand.log, ipk.w.log, x, e, r2, r3);
    ReducedSignature(q, a, e + x, b);
  }

  lemma HiddenDotIs(bases: seq<G1>, disclosure: seq<byte>, attrs: seq<nat>)
    requires |disclosure| <= |bases| && |disclosure| <= |attrs|
    ensures var idx := Hidden(disclosure, |disclosure|);
            HiddenDot(bases, disclosure, attrs, |disclosure|) == Dot(Select(bases, idx), Select(attrs, idx), |idx|)
  {
  }

  /**
   * Special soundness. Two accepted signatures that show the same points and recompute the same commitments, but answer
   * different challenges, reveal a credential of the issuer with the disclosed attributes, and the secret key and
   * randomness of the pseudonym. The credential is the trivial one exactly when the responses for r3 are the same.
   */
  lemma SpecialSoundness(c: Curve, c': Curve, ipk: IssuerPublicKey, x: nat, sig: Signature, sig': Signature,
                         disclosure: seq<byte>, msg: seq<byte>, msg': seq<byte>, values: seq<nat>, rhIndex: int,
                         rhIndex': int)
    returns (cred: Credential, sk: nat, rNym: nat)
    requires c.Ok() && c' == c.(digest := c'.digest) && Eq(c.q, ipk.w.log, x)
    requires Verify(c, sig, disclosure, ipk, msg, values, rhIndex) == Ok(())
    requires Verify(c', sig', disclosure, ipk, msg', values, rhIndex') == Ok(())
    requires SamePoints(sig, sig') && sig'.proofC != sig.proofC
    requires VerT1(c, sig', ipk) == VerT1(c, sig, ipk) && VerT3(c, sig', ipk) == VerT3(c, sig, ipk)
    requires VerT2(c, sig', ipk, disclosure, values) == VerT2(c, sig, ipk, disclosure, values)
    ensures Honest(c, ipk, x, cred, sk) && HonestNym(c, ipk, sk, sig.nym, rNym)
    ensures forall k | 0 <= k < |disclosure| && disclosure[k] != 0 :: cred.attrs[k] == values[k]
    ensures cred.a.log % c.q == 0 <==> Eq(c.q, sig.proofSR3, sig'.proofSR3)
  {
    hide Eq, Hidden, VerT1, VerT2, VerT3, Verify, Secret, Dot, DisclosedDot, Select, HonestNym;
    AcceptedShape(c, sig, disclosure, ipk, msg, values, rhIndex);
    AcceptedShape(c', sig', disclosure, ipk, msg', values, rhIndex');
    SameLogNot(c.q, sig.proofC, sig'.proofC);
    var d, k := ChallengeInverse(c.q, sig.proofC, sig'.proofC);
    var q, idx := c.q, Hidden(disclosure, |disclosure|);
    var e, r2 := Secret(q, sig'.proofSE, sig.proofSE, k), Secret(q, sig.proofSR2, sig'.proofSR2, k);
    var s', r3 := Secret(q, sig.proofSSPrime, sig'.proofSSPrime, k), Secret(q, sig'.proofSR3, sig.proofSR3, k);
    var hidden := HiddenSecrets(q, sig.proofSAttrs, sig'.proofSAttrs, k);
    sk, rNym := Secret(q, sig.proofSSk, sig'.proofSSk, k), Secret(q, sig.proofSRNym, sig'.proofSRNym, k);
    ExtractFirst(c, sig, sig', ipk, d, k, e, r2);
    ExtractSecond(c, sig, sig', ipk, disclosure, values, d, k, s', r3, sk, hidden, idx,
                  DisclosedDot(ipk.hAttrs, disclosure, values, |disclosure|));
    ExtractThird(c, sig, sig', ipk, d, k, sk, rNym);
    cred := CredentialFrom(c, sig, ipk, x, disclosure, values, e, r2, r3, s', sk, hidden);
    TrivialIff(c, sig, sig', d, k);
  }

  lemma TrivialIff(c: Curve, sig: Signature, sig': Signature, d: nat, k: nat)
    requires c.Ok() && Divides(c.q, sig, sig', d, k) && sig.aPrime.log % c.q != 0
    ensures ((sig.aPrime.log * Secret(c.q, sig'.proofSR3, sig.proofSR3, k)) % c.q) % c.q == 0
            <==> Eq(c.q, sig.proofSR3, sig'.proofSR3)
  {
    hide Secret;
    var r3 := Secret(c.q, sig'.proofSR3, sig.proofSR3, k);
    ReducedTwice(c.q, sig.aPrime.log * r3);
    ProductNonZero(c.q, sig.aPrime.log, r3);
    SecretZeroIff(c.q, sig.proofSR3, sig'.proofSR3, d, k);
  }

  lemma SameVerifierPoints(c: Curve, c': Curve, sig: Signature, ipk: IssuerPublicKey, disclosure: seq<byte>,
                           values: seq<nat>)
    requires c.q > 0 && c' == c.(digest := c'.digest)
    requires |disclosure| <= |ipk.hAttrs| && |sig.proofSAttrs| == |Hidden(disclosure, |disclosure|)|
    requires ValuesGiven(disclosure, values)
    ensures VerT1(c', sig, ipk) == VerT1(c, sig, ipk) && VerT3(c', sig, ipk) == VerT3(c, sig, ipk)
    ensures VerT2(c', sig, ipk, disclosure, values) == VerT2(c, sig, ipk, disclosure, values)
  {
    hide Hidden, Dot, DisclosedDot, Select;
  }

  /** The points depend on the credential, the pseudonym and the random numbers, not on the digest or the message. */
  lemma SamePointsSigned(c: Curve, c': Curve, cred: Credential, sk: nat, nym: G1, rNym: nat, ipk: IssuerPublicKey,
                         disclosure: seq<byte>, msg: seq<byte>, msg': seq<byte>, rnd: Randomness)
    requires c.q > 0 && c' == c.(digest := c'.digest) && |rnd.rAttrs| == |Hidden(disclosure, |disclosure|)|
    requires |disclosure| <= |ipk.hAttrs| && |disclosure| <= |cred.attrs|
    ensures SamePoints(Sign(c, cred, sk, nym, rNym, ipk, disclosure, msg, rnd),
                       Sign(c', cred, sk, nym, rNym, ipk, disclosure, msg', rnd))
  {
    hide Hidden, Challenge, SignHead, T2, Responses, Select, Inverse;
  }

  /**
   * An honest signer who is rewound to the same random numbers and asked a second time gives what the extraction starts
   * from, whatever the two digests and messages, as long as the challenges differ.
   */
  lemma RewoundSigner(c: Curve, c': Curve, x: nat, cred: Credential, sk: nat, nym: G1, rNym: nat, ipk: IssuerPublicKey,
                      disclosure: seq<byte>, msg: seq<byte>, msg': seq<byte>, values: seq<nat>, rhIndex: nat,
                      rnd: Randomness)
    requires c.Ok() && c' == c.(digest := c'.digest)
    requires Honest(c, ipk, x, cred, sk) && HonestNym(c, ipk, sk, nym, rNym) && cred.a.log % c.q != 0
    requires rhIndex < |ipk.attributeNames| == |disclosure| && rnd.r1 % c.q != 0
    requires exists k :: rhIndex <= k < |disclosure| && disclosure[k] == 0
    requires |rnd.rAttrs| == |Hidden(disclosure, |disclosure|)|
    requires forall k | 0 <= k < |disclosure| && disclosure[k] != 0 :: k < |values| && values[k] == cred.attrs[k]
    ensures var sig := Sign(c, cred, sk, nym, rNym, ipk, disclosure, msg, rnd);
            var sig' := Sign(c', cred, sk, nym, rNym, ipk, disclosure, msg', rnd);
            && Verify(c, sig, disclosure, ipk, msg, values, rhIndex) == Ok(())
            && Verify(c', sig', disclosure, ipk, msg', values, rhIndex) == Ok(())
            && SamePoints(sig, sig')
            && VerT1(c, sig', ipk) == VerT1(c, sig, ipk) && VerT3(c, sig', ipk) == VerT3(c, sig, ipk)
            && VerT2(c, sig', ipk, disclosure, values) == VerT2(c, sig, ipk, disclosure, values)
  {
    hide Hidden, Sign, T2, VerT1, VerT2, VerT3, Verify, Select, Message, Eq, Curve.Mul, Curve.Mul2;
    var sig := Sign(c, cred, sk, nym, rNym, ipk, disclosure, msg, rnd);
    var sig' := Sign(c', cred, sk, nym, rNym, ipk, disclosure, msg', rnd);
    SignatureCompleteness(c, x, cred, sk, nym, rNym, ipk, disclosure, msg, values, rhIndex, rnd);
    SignatureCompleteness(c', x, cred, sk, nym, rNym, ipk, disclosure, msg', values, rhIndex, rnd);
    SamePointsSigned(c, c', cred, sk, nym, rNym, ipk, disclosure, msg, msg', rnd);
    CommitmentsRecoveredAll(c, cred, sk, nym, rNym, ipk, disclosure, msg, values, rnd);
    CommitmentsRecoveredAll(c', cred, sk, nym, rNym, ipk, disclosure, msg', values, rnd);
    SameVerifierPoints(c, c', sig', ipk, disclosure, values);
    SameMultiples(c, c', sig.aPrime, rnd.re, ipk.hRand, rnd.rR2);
    SameMultiples(c, c', ipk.hSk, rnd.rSk, ipk.hRand, rnd.rRNym);
    SameT2(c, c', ipk, sig.bPrime, Hidden(disclosure, |disclosure|), rnd.rSPrime, rnd.rR3, rnd.rSk, rnd.rAttrs);
  }

  lemma SameMultiples(c: Curve, c': Curve, a: G1, j: nat, b: G1, k: nat)
    requires c.q > 0 && c' == c.(digest := c'.digest)
    ensures c'.Mul2(a, j, b, k) == c.Mul2(a, j, b, k)
  {
  }

  lemma SameT2(c: Curve, c': Curve, ipk: IssuerPublicKey, bPrime: G1, idx: seq<nat>, s: nat, r: nat, k: nat,
               attrs: seq<nat>)
    requires c.q > 0 && c' == c.(digest := c'.digest) && |attrs| == |idx| && InRange(idx, |ipk.hAttrs|)
    ensures T2(c', ipk, bPrime, idx, s, r, k, attrs) == T2(c, ipk, bPrime, idx, s, r, k, attrs)
  {
  }
}
