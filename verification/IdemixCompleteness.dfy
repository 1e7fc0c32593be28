/** Signatures made from an honest credential and pseudonym verify. */
module IdemixCompleteness {
  import opened Wrappers
  import opened Modular
  import opened Sequences
  import opened IdemixAlgebra
  import opened IdemixCurve
  import opened IdemixIssuerKey
  import opened IdemixIssuance
  import opened IdemixSignature

  // ---------- Operations as congruences ----------

  lemma MulEq(c: Curve, p: G1, k: nat)
    requires c.q > 0
    ensures Eq(c.q, c.Mul(p, k).log, p.log * k)
  {
    EqMod(c.q, p.log * k);
  }

  lemma Mul2Eq(c: Curve, p: G1, j: nat, r: G1, k: nat)
    requires c.q > 0
    ensures Eq(c.q, c.Mul2(p, j, r, k).log, p.log * j + r.log * k)
  {
    EqMod(c.q, p.log * j + r.log * k);
  }

  lemma SubEq(c: Curve, p: G1, r: G1, x: int, y: int)
    requires c.q > 0 && Eq(c.q, p.log, x) && Eq(c.q, r.log, y)
    ensures Eq(c.q, c.Sub(p, r).log, x - y)
  {
    EqMod(c.q, p.log - r.log);
    EqSub(c.q, p.log, x, r.log, y);
  }

  lemma AddEq(c: Curve, p: G1, r: G1, x: int, y: int)
    requires c.q > 0 && Eq(c.q, p.log, x) && Eq(c.q, r.log, y)
    ensures Eq(c.q, c.Add(p, r).log, x + y)
  {
    EqMod(c.q, p.log + r.log);
    EqAdd(c.q, p.log, x, r.log, y);
  }

  lemma PlusEq(c: Curve, r: nat, ch: nat, x: nat)
    requires c.q > 0
    ensures Eq(c.q, c.Modadd(r, c.Modmul(ch, x)), r + ch * x)
  {
    EqMod(c.q, ch * x);
    EqRefl(c.q, r);
    EqAdd(c.q, r, r, c.Modmul(ch, x), ch * x);
    EqMod(c.q, r + c.Modmul(ch, x));
  }

  lemma MinusEq(c: Curve, r: nat, ch: nat, x: nat)
    requires c.q > 0
    ensures Eq(c.q, c.Modsub(r, c.Modmul(ch, x)), r - ch * x)
  {
    var m := c.Modmul(ch, x);
    EqMod(c.q, ch * x);
    EqMod(c.q, -(m as int));
    EqRefl(c.q, r);
    EqAdd(c.q, r, r, c.Modneg(m), -(m as int));
    EqMod(c.q, r + c.Modneg(m));
    EqSub(c.q, r, r, m, ch * x);
  }

  lemma SameLog(q: nat, a: nat, b: nat)
    requires a < q && b < q && Eq(q, a, b)
    ensures a == b
  {
    ModUnique(q, a, 0, a);
    ModUnique(q, b, 0, b);
  }

  lemma MulOfEq(c: Curve, p: G1, x: int, k: nat)
    requires c.q > 0 && Eq(c.q, p.log, x)
    ensures Eq(c.q, c.Mul(p, k).log, x * k)
  {
    EqRefl(c.q, k);
    EqMul(c.q, p.log, x, k, k);
    MulEq(c, p, k);
    EqTrans(c.q, c.Mul(p, k).log, p.log * k, x * k);
  }

  /** Two reduced numbers that are congruent to congruent expressions. */
  lemma Recovered(q: nat, v: nat, x: int, w: nat, y: int)
    requires v < q && w < q && Eq(q, v, x) && Eq(q, x, y) && Eq(q, w, y)
    ensures v == w
  {
    SameLog(q, v, w);
  }

  // ---------- The verifier recovers the prover's commitments ----------

  lemma VerT1Eq(c: Curve, sig: Signature, ipk: IssuerPublicKey)
    requires c.q > 0
    ensures Eq(c.q, VerT1(c, sig, ipk).log,
               sig.aPrime.log * sig.proofSE
                 + ipk.hRand.log * sig.proofSR2 - (sig.aBar.log - sig.bPrime.log) * sig.proofC)
  {
    hide Eq, Curve.Mul, Curve.Mul2, Curve.Sub;
    Mul2Eq(c, sig.aPrime, sig.proofSE, ipk.hRand, sig.proofSR2);
    EqRefl(c.q, sig.aBar.log);
    EqRefl(c.q, sig.bPrime.log);
    SubEq(c, sig.aBar, sig.bPrime, sig.aBar.log, sig.bPrime.log);
    MulOfEq(c, c.Sub(sig.aBar, sig.bPrime), sig.aBar.log - sig.bPrime.log, sig.proofC);
    SubEq(c, c.Mul2(sig.aPrime, sig.proofSE, ipk.hRand, sig.proofSR2), c.Mul(c.Sub(sig.aBar, sig.bPrime), sig.proofC),
          sig.aPrime.log * sig.proofSE + ipk.hRand.log * sig.proofSR2, (sig.aBar.log - sig.bPrime.log) * sig.proofC);
  }

  lemma FirstRecovered(c: Curve, sig: Signature, ipk: IssuerPublicKey, e: nat, re: nat, r2: nat, rR2: nat, b: int)
    requires c.q > 0
    requires Eq(c.q, sig.proofSE, re - sig.proofC * e) && Eq(c.q, sig.proofSR2, rR2 + sig.proofC * r2)
    requires Eq(c.q, sig.aBar.log, b - sig.aPrime.log * e) && Eq(c.q, sig.bPrime.log, b - ipk.hRand.log * r2)
    ensures VerT1(c, sig, ipk) == c.Mul2(sig.aPrime, re, ipk.hRand, rR2)
  {
    VerT1Eq(c, sig, ipk);
    Mul2Eq(c, sig.aPrime, re, ipk.hRand, rR2);
    hide Eq, Curve.Mul, Curve.Mul2, Curve.Sub;
    FirstCommitment(c.q, sig.aPrime.log, e, re, sig.proofSE, ipk.hRand.log, r2, rR2, sig.proofSR2, sig.proofC, b,
                    sig.aBar.log, sig.bPrime.log);
    Recovered(c.q, VerT1(c, sig, ipk).log,
              sig.aPrime.log * sig.proofSE
                + ipk.hRand.log * sig.proofSR2 - (sig.aBar.log - sig.bPrime.log) * sig.proofC,
              c.Mul2(sig.aPrime, re, ipk.hRand, rR2).log, sig.aPrime.log * re + ipk.hRand.log * rR2);
  }

  lemma ThirdRecovered(c: Curve, sig: Signature, ipk: IssuerPublicKey, sk: nat, rSk: nat, rn: nat, rRNym: nat)
    requires c.q > 0
    requires Eq(c.q, sig.proofSSk, rSk + sig.proofC * sk) && Eq(c.q, sig.proofSRNym, rRNym + sig.proofC * rn)
    requires Eq(c.q, sig.nym.log, ipk.hSk.log * sk + ipk.hRand.log * rn)
    ensures VerT3(c, sig, ipk) == c.Mul2(ipk.hSk, rSk, ipk.hRand, rRNym)
  {
    hide Eq, Curve.Mul, Curve.Mul2, Curve.Sub;
    var hsk, hr, ch := ipk.hSk, ipk.hRand, sig.proofC;
    Mul2Eq(c, hsk, sig.proofSSk, hr, sig.proofSRNym);
    MulEq(c, sig.nym, ch);
    SubEq(c, c.Mul2(hsk, sig.proofSSk, hr, sig.proofSRNym), c.Mul(sig.nym, ch),
          hsk.log * sig.proofSSk + hr.log * sig.proofSRNym, sig.nym.log * ch);
    ThirdCommitment(c.q, hsk.log, sk, rSk, sig.proofSSk, hr.log, rn, rRNym, sig.proofSRNym, sig.nym.log, ch);
    Mul2Eq(c, hsk, rSk, hr, rRNym);
    Recovered(c.q, VerT3(c, sig, ipk).log, hsk.log * sig.proofSSk + hr.log * sig.proofSRNym - sig.nym.log * ch,
              c.Mul2(hsk, rSk, hr, rRNym).log, hsk.log * rSk + hr.log * rRNym);
  }

  /** The logarithm of T2, not reduced. */
  function T2Log(ipk: IssuerPublicKey, bPrime: G1, idx: seq<nat>, s: nat, r: nat, k: nat, attrs: seq<nat>): nat
    requires |attrs| == |idx| && InRange(idx, |ipk.hAttrs|)
  {
    ipk.hRand.log * s + (bPrime.log * r + ipk.hSk.log * k) + Dot(Select(ipk.hAttrs, idx), attrs, |idx|)
  }

  lemma T2Eq(c: Curve, ipk: IssuerPublicKey, bPrime: G1, idx: seq<nat>, s: nat, r: nat, k: nat, attrs: seq<nat>)
    requires c.q > 0 && |attrs| == |idx| && InRange(idx, |ipk.hAttrs|)
    ensures Eq(c.q, T2(c, ipk, bPrime, idx, s, r, k, attrs).log, T2Log(ipk, bPrime, idx, s, r, k, attrs))
    ensures T2(c, ipk, bPrime, idx, s, r, k, attrs).log < c.q
  {
    hide Eq, Dot, Select, Curve.Add, Curve.Mul, Curve.Mul2;
    MulEq(c, ipk.hRand, s);
    Mul2Eq(c, bPrime, r, ipk.hSk, k);
    var u, v := c.Mul(ipk.hRand, s), c.Mul2(bPrime, r, ipk.hSk, k);
    AddEq(c, u, v, ipk.hRand.log * s, bPrime.log * r + ipk.hSk.log * k);
    SumReduced(c.q, c.Add(u, v).log, ipk.hRand.log * s + (bPrime.log * r + ipk.hSk.log * k),
               Dot(Select(ipk.hAttrs, idx), attrs, |idx|));
  }

  /** The conditions that relate a signature to the values it was made from, for t2. */
  ghost predicate SecondResponses(c: Curve, sig: Signature, ipk: IssuerPublicKey, cred: Credential, sk: nat,
                                  rnd: Randomness, idx: seq<nat>, sPrime: nat, r3: nat)
  {
    && c.q > 0
    && |sig.proofSAttrs| == |rnd.rAttrs| == |idx| && InRange(idx, |cred.attrs|)
    && Eq(c.q, sig.proofSSPrime, rnd.rSPrime + sig.proofC * sPrime)
    && Eq(c.q, sig.proofSR3, rnd.rR3 - sig.proofC * r3)
    && Eq(c.q, sig.proofSSk, rnd.rSk + sig.proofC * sk)
    && Eq(c.q, sPrime, cred.s - rnd.r2 * r3)
    && Eq(c.q, sig.bPrime.log, cred.b.log * rnd.r1 - ipk.hRand.log * rnd.r2)
    && Eq(c.q, rnd.r1 * r3, 1)
    && (forall i | 0 <= i < |idx| ::
         Eq(c.q, sig.proofSAttrs[i], rnd.rAttrs[i] + sig.proofC * Select(cred.attrs, idx)[i]))
  }

  /** The signed message, with the attributes split into hidden and disclosed. */
  lemma MessageSplits(ipk: IssuerPublicKey, cred: Credential, sk: nat, disclosure: seq<byte>, values: seq<nat>)
    requires |disclosure| <= |ipk.hAttrs| && |cred.attrs| == |disclosure|
    requires forall k | 0 <= k < |disclosure| && disclosure[k] != 0 :: k < |values| && values[k] == cred.attrs[k]
    ensures Message(ipk, cred, sk)
            == 1 + ipk.hSk.log * sk + ipk.hRand.log * cred.s
               + (HiddenDot(ipk.hAttrs, disclosure, cred.attrs, |disclosure|)
                 + DisclosedDot(ipk.hAttrs, disclosure, values, |disclosure|))
  {
    var n := |disclosure|;
    DotSplits(ipk.hAttrs, disclosure, cred.attrs, values, n);
    DotPrefix(ipk.hAttrs, ipk.hAttrs[..n], cred.attrs, cred.attrs, n);
    hide HiddenDot, DisclosedDot, Dot;
  }

  /** The integer congruence behind the second commitment. */
  lemma SecondLogs(c: Curve, sig: Signature, ipk: IssuerPublicKey, cred: Credential, sk: nat, rnd: Randomness,
                   idx: seq<nat>, sPrime: nat, r3: nat, dd: nat)
    requires InRange(idx, |ipk.hAttrs|)
    requires SecondResponses(c, sig, ipk, cred, sk, rnd, idx, sPrime, r3)
    requires Eq(c.q, cred.b.log, 1 + ipk.hSk.log * sk + ipk.hRand.log * cred.s
                                 + (Dot(Select(ipk.hAttrs, idx), Select(cred.attrs, idx), |idx|) + dd))
    ensures Eq(c.q, T2Log(ipk, sig.bPrime, idx, sig.proofSSPrime, sig.proofSR3, sig.proofSSk, sig.proofSAttrs)
              + (1 + dd) * sig.proofC,
               T2Log(ipk, sig.bPrime, idx, rnd.rSPrime, rnd.rR3, rnd.rSk, rnd.rAttrs))
  {
    hide Eq, Dot;
    var bases := Select(ipk.hAttrs, idx);
    var dh, dr := Dot(bases, Select(cred.attrs, idx), |idx|), Dot(bases, rnd.rAttrs, |idx|);
    var ds := Dot(bases, sig.proofSAttrs, |idx|);
    DotLinear(c.q, bases, rnd.rAttrs, Select(cred.attrs, idx), sig.proofC, sig.proofSAttrs, |idx|);
    SecondRemainder(c.q, ipk.hRand.log, cred.s, rnd.r2, r3, sPrime, ipk.hSk.log, sk, rnd.r1, cred.b.log, sig.bPrime.log,
                    dh, dd);
    SecondCommitment(c.q, ipk.hRand.log, sPrime, rnd.rSPrime, sig.proofSSPrime, sig.bPrime.log, r3, rnd.rR3,
                     sig.proofSR3, ipk.hSk.log, sk, rnd.rSk, sig.proofSSk, sig.proofC, dh, dr, ds, dd);
  }

  lemma VerT2Eq(c: Curve, sig: Signature, ipk: IssuerPublicKey, disclosure: seq<byte>, values: seq<nat>, idx: seq<nat>,
                dd: nat)
    requires c.q > 0 && |disclosure| <= |ipk.hAttrs| && idx == Hidden(disclosure, |disclosure|)
    requires |sig.proofSAttrs| == |idx|
    requires forall k | 0 <= k < |disclosure| && disclosure[k] != 0 :: k < |values|
    requires dd == DisclosedDot(ipk.hAttrs, disclosure, values, |disclosure|)
    ensures Eq(c.q, VerT2(c, sig, ipk, disclosure, values).log,
               T2Log(ipk, sig.bPrime, idx, sig.proofSSPrime, sig.proofSR3, sig.proofSSk, sig.proofSAttrs)
                 + (1 + dd) * sig.proofC)
    ensures VerT2(c, sig, ipk, disclosure, values).log < c.q
  {
    hide Eq, Hidden, DisclosedDot, Curve.Add, Curve.Mul, T2, T2Log;
    T2Eq(c, ipk, sig.bPrime, idx, sig.proofSSPrime, sig.proofSR3, sig.proofSSk, sig.proofSAttrs);
    EqMod(c.q, 1 + dd);
    var p := G1((1 + dd) % c.q);
    MulOfEq(c, p, 1 + dd, sig.proofC);
    AddEq(c, T2(c, ipk, sig.bPrime, idx, sig.proofSSPrime, sig.proofSR3, sig.proofSSk, sig.proofSAttrs),
          c.Mul(p, sig.proofC),
          T2Log(ipk, sig.bPrime, idx, sig.proofSSPrime, sig.proofSR3, sig.proofSSk, sig.proofSAttrs), (1
            + dd) * sig.proofC);
  }

  lemma SecondRecovered(c: Curve, sig: Signature, ipk: IssuerPublicKey, cred: Credential, sk: nat, rnd: Randomness,
                        disclosure: seq<byte>, values: seq<nat>, sPrime: nat, r3: nat)
    requires |disclosure| <= |ipk.hAttrs| && |cred.attrs| == |disclosure|
    requires forall k | 0 <= k < |disclosure| && disclosure[k] != 0 :: k < |values| && values[k] == cred.attrs[k]
    requires SecondResponses(c, sig, ipk, cred, sk, rnd, Hidden(disclosure, |disclosure|), sPrime, r3)
    requires Eq(c.q, cred.b.log, Message(ipk, cred, sk))
    ensures VerT2(c, sig, ipk, disclosure, values)
            == T2(c, ipk, sig.bPrime, Hidden(disclosure, |disclosure|), rnd.rSPrime, rnd.rR3, rnd.rSk, rnd.rAttrs)
  {
    hide Eq, Dot, Select, Hidden, DisclosedDot, VerT2, T2, T2Log, Message;
    var idx := Hidden(disclosure, |disclosure|);
    var dd := DisclosedDot(ipk.hAttrs, disclosure, values, |disclosure|);
    MessageSplits(ipk, cred, sk, disclosure, values);
    SecondLogs(c, sig, ipk, cred, sk, rnd, idx, sPrime, r3, dd);
    VerT2Eq(c, sig, ipk, disclosure, values, idx, dd);
    T2Eq(c, ipk, sig.bPrime, idx, rnd.rSPrime, rnd.rR3, rnd.rSk, rnd.rAttrs);
    Recovered(c.q, VerT2(c, sig, ipk, disclosure, values).log,
              T2Log(ipk, sig.bPrime, idx, sig.proofSSPrime, sig.proofSR3, sig.proofSSk, sig.proofSAttrs)
                + (1 + dd) * sig.proofC,
              T2(c, ipk, sig.bPrime, idx, rnd.rSPrime, rnd.rR3, rnd.rSk, rnd.rAttrs).log,
              T2Log(ipk, sig.bPrime, idx, rnd.rSPrime, rnd.rR3, rnd.rSk, rnd.rAttrs));
  }

  // ---------- Completeness ----------

  /** The pseudonym commits to the secret key with randomness rNym (MakeNym). */
  ghost predicate HonestNym(c: Curve, ipk: IssuerPublicKey, sk: nat, nym: G1, rNym: nat)
    requires c.q > 0
  {
    Eq(c.q, nym.log, ipk.hSk.log * sk + ipk.hRand.log * rNym)
  }

  /** The randomised credential that NewSignature starts from. */
  lemma SignedPoints(c: Curve, cred: Credential, ipk: IssuerPublicKey, r1: nat, r2: nat)
    requires c.q > 0
    ensures var aPrime := c.Mul(cred.a, r1);
            && Eq(c.q, aPrime.log, cred.a.log * r1)
            && Eq(c.q, c.Sub(c.Mul(cred.b, r1), c.Mul(aPrime, cred.e)).log, cred.b.log * r1 - aPrime.log * cred.e)
            && Eq(c.q, c.Sub(c.Mul(cred.b, r1), c.Mul(ipk.hRand, r2)).log, cred.b.log * r1 - ipk.hRand.log * r2)
  {
    hide Eq, Curve.Mul, Curve.Sub;
    var aPrime := c.Mul(cred.a, r1);
    MulEq(c, cred.a, r1);
    MulEq(c, cred.b, r1);
    MulEq(c, aPrime, cred.e);
    MulEq(c, ipk.hRand, r2);
    SubEq(c, c.Mul(cred.b, r1), c.Mul(aPrime, cred.e), cred.b.log * r1, aPrime.log * cred.e);
    SubEq(c, c.Mul(cred.b, r1), c.Mul(ipk.hRand, r2), cred.b.log * r1, ipk.hRand.log * r2);
  }

  lemma ResponsesEq(c: Curve, r: seq<nat>, ch: nat, attrs: seq<nat>, i: nat)
    requires c.q > 0 && |r| == |attrs| && i < |r|
    ensures Eq(c.q, Responses(c, r, ch, attrs)[i], r[i] + ch * attrs[i])
  {
    PlusEq(c, r[i], ch, attrs[i]);
  }

  lemma SignedAttrs(c: Curve, cred: Credential, sk: nat, nym: G1, rNym: nat, ipk: IssuerPublicKey,
                    disclosure: seq<byte>, msg: seq<byte>, rnd: Randomness, i: nat)
    requires c.q > 0 && |disclosure| <= |ipk.hAttrs| && |disclosure| <= |cred.attrs|
    requires |rnd.rAttrs| == |Hidden(disclosure, |disclosure|)| && i < |rnd.rAttrs|
    ensures var sig, idx := Sign(c, cred, sk, nym, rNym, ipk, disclosure, msg, rnd), Hidden(disclosure, |disclosure|);
            && |sig.proofSAttrs| == |idx|
            && Eq(c.q, sig.proofSAttrs[i], rnd.rAttrs[i] + sig.proofC * Select(cred.attrs, idx)[i])
  {
    hide Eq, Hidden, Challenge, T2, SignHead, Responses, Select, Inverse;
    var sig, idx := Sign(c, cred, sk, nym, rNym, ipk, disclosure, msg, rnd), Hidden(disclosure, |disclosure|);
    ResponsesEq(c, rnd.rAttrs, sig.proofC, Select(cred.attrs, idx), i);
  }

  lemma SignedScalars(c: Curve, cred: Credential, sk: nat, nym: G1, rNym: nat, ipk: IssuerPublicKey,
                      disclosure: seq<byte>, msg: seq<byte>, rnd: Randomness, r3: nat, sPrime: nat)
    requires c.q > 0 && |disclosure| <= |ipk.hAttrs| && |disclosure| <= |cred.attrs|
    requires |rnd.rAttrs| == |Hidden(disclosure, |disclosure|)|
    requires r3 == Inverse(c.q, rnd.r1) && sPrime == c.Modsub(cred.s, c.Modmul(rnd.r2, r3))
    ensures var sig := Sign(c, cred, sk, nym, rNym, ipk, disclosure, msg, rnd);
            && Eq(c.q, sig.proofSSPrime, rnd.rSPrime + sig.proofC * sPrime)
            && Eq(c.q, sig.proofSR3, rnd.rR3 - sig.proofC * r3)
            && Eq(c.q, sig.proofSSk, rnd.rSk + sig.proofC * sk)
            && Eq(c.q, sig.bPrime.log, cred.b.log * rnd.r1 - ipk.hRand.log * rnd.r2)
  {
    hide Eq, Curve.Mul, Curve.Mul2, Curve.Sub, Curve.Modadd, Curve.Modsub, Curve.Modmul, Inverse, Hidden, Challenge, T2,
         SignHead, Responses, Select;
    var ch := Sign(c, cred, sk, nym, rNym, ipk, disclosure, msg, rnd).proofC;
    SignedPoints(c, cred, ipk, rnd.r1, rnd.r2);
    PlusEq(c, rnd.rSPrime, ch, sPrime);
    MinusEq(c, rnd.rR3, ch, r3);
    PlusEq(c, rnd.rSk, ch, sk);
  }

  lemma SignedSecond(c: Curve, cred: Credential, sk: nat, nym: G1, rNym: nat, ipk: IssuerPublicKey,
                     disclosure: seq<byte>, msg: seq<byte>, rnd: Randomness)
    requires c.Ok() && |disclosure| <= |ipk.hAttrs| && |disclosure| <= |cred.attrs|
    requires |rnd.rAttrs| == |Hidden(disclosure, |disclosure|)| && rnd.r1 % c.q != 0
    ensures var r3 := Inverse(c.q, rnd.r1);
            SecondResponses(c, Sign(c, cred, sk, nym, rNym, ipk, disclosure, msg, rnd), ipk, cred, sk, rnd,
                            Hidden(disclosure, |disclosure|), c.Modsub(cred.s, c.Modmul(rnd.r2, r3)), r3)
  {
    hide Eq, Curve.Modsub, Curve.Modmul, Inverse, Hidden, Select, Sign;
    var sig := Sign(c, cred, sk, nym, rNym, ipk, disclosure, msg, rnd);
    var r3, idx := Inverse(c.q, rnd.r1), Hidden(disclosure, |disclosure|);
    InverseIsInverse(c.q, rnd.r1);
    SignedScalars(c, cred, sk, nym, rNym, ipk, disclosure, msg, rnd, r3, c.Modsub(cred.s, c.Modmul(rnd.r2, r3)));
    MinusEq(c, cred.s, rnd.r2, r3);
    assert |sig.proofSAttrs| == |idx|;
    forall i | 0 <= i < |idx|
      ensures Eq(c.q, sig.proofSAttrs[i], rnd.rAttrs[i] + sig.proofC * Select(cred.attrs, idx)[i])
    {
      SignedAttrs(c, cred, sk, nym, rNym, ipk, disclosure, msg, rnd, i);
    }
  }

  /** Ver recomputes exactly the data that was hashed. */
  lemma CommitmentsRecoveredAll(c: Curve, cred: Credential, sk: nat, nym: G1, rNym: nat, ipk: IssuerPublicKey,
                                disclosure: seq<byte>, msg: seq<byte>, values: seq<nat>, rnd: Randomness)
    requires c.Ok() && |disclosure| <= |ipk.hAttrs| && |disclosure| == |cred.attrs|
    requires |rnd.rAttrs| == |Hidden(disclosure, |disclosure|)| && rnd.r1 % c.q != 0
    requires forall k | 0 <= k < |disclosure| && disclosure[k] != 0 :: k < |values| && values[k] == cred.attrs[k]
    requires Eq(c.q, cred.b.log, Message(ipk, cred, sk)) && HonestNym(c, ipk, sk, nym, rNym)
    ensures var sig := Sign(c, cred, sk, nym, rNym, ipk, disclosure, msg, rnd);
            && VerT1(c, sig, ipk) == c.Mul2(sig.aPrime, rnd.re, ipk.hRand, rnd.rR2)
            && VerT2(c, sig, ipk, disclosure, values)
               == T2(c, ipk, sig.bPrime, Hidden(disclosure, |disclosure|), rnd.rSPrime, rnd.rR3, rnd.rSk, rnd.rAttrs)
            && VerT3(c, sig, ipk) == c.Mul2(ipk.hSk, rnd.rSk, ipk.hRand, rnd.rRNym)
            && Eq(c.q, sig.aPrime.log, cred.a.log * rnd.r1) && sig.nonce == rnd.nonce && sig.nym == nym
            && Eq(c.q, sig.aBar.log, cred.b.log * rnd.r1 - sig.aPrime.log * cred.e)
            && Eq(c.q, sig.bPrime.log, cred.b.log * rnd.r1 - ipk.hRand.log * rnd.r2)
  {
    var sig, r3 := Sign(c, cred, sk, nym, rNym, ipk, disclosure, msg, rnd), Inverse(c.q, rnd.r1);
    hide Eq, Curve.Mul, Curve.Mul2, Curve.Sub, Curve.Modadd, Curve.Modsub, Curve.Modmul, Inverse, Hidden, Challenge, T2,
         SignHead, Responses, Select, VerT1, VerT2, VerT3, Message;
    SignedPoints(c, cred, ipk, rnd.r1, rnd.r2);
    MinusEq(c, rnd.re, sig.proofC, cred.e);
    PlusEq(c, rnd.rR2, sig.proofC, rnd.r2);
    FirstRecovered(c, sig, ipk, cred.e, rnd.re, rnd.r2, rnd.rR2, cred.b.log * rnd.r1);
    SignedSecond(c, cred, sk, nym, rNym, ipk, disclosure, msg, rnd);
    SecondRecovered(c, sig, ipk, cred, sk, rnd, disclosure, values, c.Modsub(cred.s, c.Modmul(rnd.r2, r3)), r3);
    PlusEq(c, rnd.rSk, sig.proofC, sk);
    PlusEq(c, rnd.rRNym, sig.proofC, rNym);
    ThirdRecovered(c, sig, ipk, sk, rnd.rSk, rNym, rnd.rRNym);
  }

  lemma SignedPairing(c: Curve, cred: Credential, ipk: IssuerPublicKey, x: nat, sk: nat, r1: nat)
    requires c.Ok() && Honest(c, ipk, x, cred, sk)
    ensures var aPrime := c.Mul(cred.a, r1);
            c.Pair(ipk.w, aPrime) == c.Pair(GEN_G2, c.Sub(c.Mul(cred.b, r1), c.Mul(aPrime, cred.e)))
  {
    var aPrime := c.Mul(cred.a, r1);
    var aBar := c.Sub(c.Mul(cred.b, r1), c.Mul(aPrime, cred.e));
    SignedPoints(c, cred, ipk, r1, 0);
    hide Eq, Curve.Mul, Curve.Sub, Message;
    RandomisedPairing(c.q, ipk.w.log, x, cred.a.log, cred.e, cred.b.log, r1, aPrime.log, aBar.log);
    EqReduced(c.q, ipk.w.log * aPrime.log, aBar.log);
  }

  /** The randomised A is the identity exactly when A is, or r1 vanishes. */
  lemma IdentityIff(c: Curve, a: G1, r1: nat)
    requires c.Ok()
    ensures c.Mul(a, r1).log % c.q == 0 <==> a.log % c.q == 0 || r1 % c.q == 0
  {
    ReducedTwice(c.q, a.log * r1);
    if a.log % c.q != 0 {
      ProductNonZero(c.q, a.log, r1);
    } else {
      EqMul(c.q, a.log, 0, r1, r1);
    }
  }

  /**
   * With an honest credential and pseudonym, disclosed values as certified and no revocation:
   * signing does not return exactly when r1 is not invertible; otherwise a signature is made exactly when some
   * attribute at or after the revocation handle stays hidden, and it verifies exactly when A is not the identity.
   */
  lemma SignatureCompleteness(c: Curve, x: nat, cred: Credential, sk: nat, nym: G1, rNym: nat, ipk: IssuerPublicKey,
                              disclosure: seq<byte>, msg: seq<byte>, values: seq<nat>, rhIndex: nat, rnd: Randomness)
    requires c.Ok() && Honest(c, ipk, x, cred, sk) && HonestNym(c, ipk, sk, nym, rNym)
    requires rhIndex < |ipk.attributeNames| == |disclosure|
    requires |rnd.rAttrs| == |Hidden(disclosure, |disclosure|)|
    requires forall k | 0 <= k < |disclosure| && disclosure[k] != 0 :: k < |values| && values[k] == cred.attrs[k]
    ensures var r := SignOutcome(c, cred, sk, nym, rNym, ipk, disclosure, msg, rhIndex, ALG_NO_REVOCATION, rnd);
            if rnd.r1 % c.q == 0 then r.Diverges?
            else if exists k :: rhIndex <= k < |disclosure| && disclosure[k] == 0 then
              && r.Ok?
              && Verify(c, r.value, disclosure, ipk, msg, values, rhIndex) ==
                   if cred.a.log % c.q != 0 then Ok(()) else Error
            else r.Panic?
  {
    hide Eq, Curve.Mul, Curve.Mul2, Curve.Sub, Curve.Modadd, Curve.Modsub, Curve.Modmul, Inverse, Hidden, Challenge, T2,
         SignHead, Responses, Select, VerT1, VerT2, VerT3, Message, SearchInts, Curve.Pair;
    SearchFinds(disclosure, rhIndex);
    if rnd.r1 % c.q != 0 && exists k :: rhIndex <= k < |disclosure| && disclosure[k] == 0 {
      IdentityIff(c, cred.a, rnd.r1);
      if cred.a.log % c.q != 0 {
        SignedPairing(c, cred, ipk, x, sk, rnd.r1);
        CommitmentsRecoveredAll(c, cred, sk, nym, rNym, ipk, disclosure, msg, values, rnd);
      }
    }
  }

  lemma SearchFinds(disclosure: seq<byte>, rhIndex: nat)
    requires rhIndex < |disclosure|
    ensures var idx := Hidden(disclosure, |disclosure|);
            SearchInts(idx, rhIndex) < |idx| <==> exists k :: rhIndex <= k < |disclosure| && disclosure[k] == 0
  {
    var idx := Hidden(disclosure, |disclosure|);
    var i := SearchInts(idx, rhIndex);
    assert i < |idx| ==> rhIndex <= idx[i] < |disclosure| && disclosure[idx[i]] == 0;
    assert i == |idx| ==> forall j | 0 <= j < |idx| :: idx[j] < rhIndex;
    assert forall k | 0 <= k < |disclosure| && disclosure[k] == 0 :: k in idx;
  }

  /** MakeNym */
  function MakeNym(c: Curve, sk: nat, ipk: IssuerPublicKey, rNym: nat): G1
    requires c.q > 0
  {
    c.Mul2(ipk.hSk, sk, ipk.hRand, rNym)
  }

  /** From a fresh issuer key over an issued credential to a signature under a fresh pseudonym, nothing is rejected. */
  lemma EndToEnd(c: Curve, names: seq<string>, kr: KeyRandomness, sk: nat, nonce: seq<byte>, rSk: nat,
                 attrs: seq<nat>, e: nat, s: nat, rNym: nat, disclosure: seq<byte>, msg: seq<byte>, rhIndex: nat,
                 rnd: Randomness)
    requires c.Ok() && |kr.hAttrs| == |names| == |attrs| == |disclosure| && |nonce| <= 2 * c.fieldBytes
    requires rhIndex < |disclosure| && disclosure[rhIndex] == 0 && |rnd.rAttrs| == |Hidden(disclosure, |disclosure|)|
    requires kr.barG1 % c.q != 0 && (kr.isk + e) % c.q != 0 && rnd.r1 % c.q != 0
    ensures var key := NewKey(c, names, kr);
            var request := NewRequest(c, sk, Some(nonce), key.ipk, rSk);
            && KeyChecks(c, key.ipk)
            && request.Ok?
            && var cred := NewCred(c, key, request.value, attrs, e, s);
               && cred.Ok?
               && CredVer(c, cred.value, sk, key.ipk) == Ok(())
               && var nym := MakeNym(c, sk, key.ipk, rNym);
                  var sig := SignOutcome(c, cred.value, sk, nym, rNym, key.ipk, disclosure, msg, rhIndex,
                                         ALG_NO_REVOCATION, rnd);
                  && sig.Ok?
                  && (cred.value.a.log % c.q != 0 ==>
                       Verify(c, sig.value, disclosure, key.ipk, msg, attrs, rhIndex) == Ok(()))
  {
    hide Curve.Mul, Curve.Mul2, ProofData, Verify, SignOutcome, RequestCheck, CredVer, KeyChecks, Dot, Eq;
    var key := NewKey(c, names, kr);
    IssuerKeyCompleteness(c, names, kr);
    EqMod(c.q, kr.isk);
    RequestCompleteness(c, sk, Some(nonce), key.ipk, rSk);
    var request := NewRequest(c, sk, Some(nonce), key.ipk, rSk).value;
    CredentialCompleteness(c, key, request, attrs, e, s, sk);
    var cred := NewCred(c, key, request, attrs, e, s).value;
    Mul2Eq(c, key.ipk.hSk, sk, key.ipk.hRand, rNym);
    SignatureCompleteness(c, key.isk, cred, sk, MakeNym(c, sk, key.ipk, rNym), rNym, key.ipk, disclosure, msg, attrs,
                          rhIndex, rnd);
  }
}
