/** Signatures of knowledge made with a credential (idemix/signature.go). */
module IdemixSignature {
  import opened Modular
  import opened Sequences
  import opened IdemixCurve
  import opened IdemixIssuance

  datatype Signature = Signature(
    aPrime: G1, aBar: G1, bPrime: G1, proofC: nat, proofSSk: nat, proofSE: nat, proofSR2: nat, proofSR3: nat,
    proofSSPrime: nat, proofSAttrs: seq<nat>, nonce: nat, nym: G1, proofSRNym: nat, revocationAlg: int)

  /** The numbers drawn by NewSignature, one rAttrs for every hidden attribute. */
  datatype Randomness = Randomness(
    r1: nat, r2: nat, nonce: nat, rSk: nat, re: nat, rR2: nat, rR3: nat, rSPrime: nat, rRNym: nat, rAttrs: seq<nat>)

  const ALG_NO_REVOCATION := 0
  const SIGN_LABEL: seq<byte> := [115, 105, 103, 110]

  // ---------- Hidden and disclosed attributes ----------

  /** The hidden ones among the first n indices, in order. */
  function Hidden(disclosure: seq<byte>, n: nat): (idx: seq<nat>)
    requires n <= |disclosure|
    ensures forall i | 0 <= i < |idx| :: idx[i] < n && disclosure[idx[i]] == 0
    ensures forall i, j | 0 <= i < j < |idx| :: idx[i] < idx[j]
    ensures forall k | 0 <= k < n && disclosure[k] == 0 :: k in idx
  {
    if n == 0 then []
    else if disclosure[n - 1] == 0 then
      var rest := Hidden(disclosure, n - 1);
      assert (rest + [n - 1])[|rest|] == n - 1;
      rest + [n - 1]
    else Hidden(disclosure, n - 1)
  }

  method HiddenIndices(disclosure: seq<byte>) returns (idx: seq<nat>)
    ensures idx == Hidden(disclosure, |disclosure|)
  {
    idx := [];
    for index := 0 to |disclosure|
      invariant idx == Hidden(disclosure, index)
    {
      if disclosure[index] == 0 {
        idx := idx + [index];
      }
    }
  }

  /** sort.SearchInts on an ascending slice: the first position whose value is at least x. */
  function SearchInts(s: seq<nat>, x: nat): (i: nat)
    ensures i <= |s|
    ensures i < |s| ==> s[i] >= x
    ensures forall k | 0 <= k < i :: s[k] < x
  {
    if s == [] || s[0] >= x then 0 else 1 + SearchInts(s[1..], x)
  }

  /** The part of the exponent sum that the verifier can compute from disclosed values. */
  function DisclosedDot(bases: seq<G1>, disclosure: seq<byte>, values: seq<nat>, n: nat): nat
    requires n <= |bases| && n <= |disclosure|
    requires forall k | 0 <= k < n && disclosure[k] != 0 :: k < |values|
  {
    if n == 0 then 0
    else DisclosedDot(bases, disclosure, values, n - 1) +
           if disclosure[n - 1] != 0 then bases[n - 1].log * values[n - 1] else 0
  }

  method AddDisclosed(c: Curve, bases: seq<G1>, disclosure: seq<byte>, values: seq<nat>) returns (p: G1)
    requires c.q > 1 && |disclosure| <= |bases|
    requires forall k | 0 <= k < |disclosure| && disclosure[k] != 0 :: k < |values|
    ensures p == G1((1 + DisclosedDot(bases, disclosure, values, |disclosure|)) % c.q)
  {
    p := GEN_G1;
    for index := 0 to |disclosure|
      invariant p.log == (1 + DisclosedDot(bases, disclosure, values, index)) % c.q
    {
      if disclosure[index] != 0 {
        AddReduced(c.q, p.log, 1 + DisclosedDot(bases, disclosure, values, index), bases[index].log * values[index]);
        var term := c.Mul(bases[index], values[index]);
        p := c.Add(p, term);
      }
    }
  }

  lemma {:induction false} DotPrefix(b: seq<G1>, b': seq<G1>, e: seq<nat>, e': seq<nat>, n: nat)
    requires n <= |b| && n <= |b'| && n <= |e| && n <= |e'|
    requires forall i | 0 <= i < n :: b[i] == b'[i] && e[i] == e'[i]
    ensures Dot(b, e, n) == Dot(b', e', n)
  {
    if n > 0 {
      DotPrefix(b, b', e, e', n - 1);
    }
  }

  /** The exponent sum over the hidden ones among the first n attributes. */
  function HiddenDot(bases: seq<G1>, disclosure: seq<byte>, attrs: seq<nat>, n: nat): nat
    requires n <= |bases| && n <= |disclosure| && n <= |attrs|
  {
    var idx := Hidden(disclosure, n);
    Dot(Select(bases, idx), Select(attrs, idx), |idx|)
  }

  lemma HiddenStep(disclosure: seq<byte>, n: nat)
    requires 0 < n <= |disclosure|
    ensures Hidden(disclosure, n) ==
              if disclosure[n - 1] == 0 then Hidden(disclosure, n - 1) + [n - 1] else Hidden(disclosure, n - 1)
  {
  }

  lemma HiddenDotStep(bases: seq<G1>, disclosure: seq<byte>, attrs: seq<nat>, n: nat)
    requires 0 < n <= |bases| && n <= |disclosure| && n <= |attrs|
    ensures HiddenDot(bases, disclosure, attrs, n)
            == HiddenDot(bases, disclosure, attrs, n - 1) +
              if disclosure[n - 1] == 0 then bases[n - 1].log * attrs[n - 1] else 0
  {
    hide Hidden, Select;
    var rest, idx := Hidden(disclosure, n - 1), Hidden(disclosure, n);
    HiddenStep(disclosure, n);
    if disclosure[n - 1] == 0 {
      DotPrefix(Select(bases, rest), Select(bases, idx), Select(attrs, rest), Select(attrs, idx), |rest|);
      assert Select(bases, idx)[|rest|] == bases[n - 1] && Select(attrs, idx)[|rest|] == attrs[n - 1];
    }
  }

  /** The full sum is the hidden part plus the disclosed part. */
  lemma {:induction false} DotSplits(bases: seq<G1>, disclosure: seq<byte>, attrs: seq<nat>, values: seq<nat>, n: nat)
    requires n <= |bases| && n <= |disclosure| && n <= |attrs|
    requires forall k | 0 <= k < n && disclosure[k] != 0 :: k < |values| && values[k] == attrs[k]
    ensures Dot(bases, attrs, n) == HiddenDot(bases, disclosure, attrs, n) + DisclosedDot(bases, disclosure, values, n)
  {
    if n > 0 {
      hide HiddenDot;
      DotSplits(bases, disclosure, attrs, values, n - 1);
      HiddenDotStep(bases, disclosure, attrs, n);
    }
  }

  // ---------- The hashed data ----------

  function SignHead(c: Curve, t1: G1, t2: G1, t3: G1, aPrime: G1, aBar: G1, bPrime: G1, nym: G1): seq<byte> {
    SIGN_LABEL + c.g1Bytes(t1) + c.g1Bytes(t2) + c.g1Bytes(t3) + c.g1Bytes(aPrime) + c.g1Bytes(aBar) + c.g1Bytes(bPrime)
      + c.g1Bytes(nym)
  }

  /** What is hashed first, and the second hash with the nonce that makes the challenge. */
  function Challenge(c: Curve, head: seq<byte>, hash: seq<byte>, disclosure: seq<byte>, msg: seq<byte>,
                     nonce: nat): (h: nat)
    requires c.q > 0
    ensures h < c.q
  {
    var first := c.HashModOrder(head + Fit(hash, c.fieldBytes) + disclosure + msg);
    c.HashModOrder(c.bigBytes(first) + c.bigBytes(nonce))
  }

  lemma OverwriteThree(s: seq<byte>, i: nat, n: nat, hash: seq<byte>, disclosure: seq<byte>, msg: seq<byte>)
    requires |s| == i + n + |disclosure| + |msg| && s[i..] == Zeros(|s| - i)
    ensures Overwrite(Overwrite(Overwrite(s, i, hash), i + n, disclosure), i + n + |disclosure|, msg)
            == s[..i] + Fit(hash, n) + disclosure + msg
  {
    var t := Overwrite(s, i, hash);
    assert t[..i] == s[..i];
    assert t[i..i + n] == Fit(hash, n) by {
      forall k | 0 <= k < n
        ensures t[i..i + n][k] == Fit(hash, n)[k]
      {
        assert s[i + k] == s[i..][k] == 0;
      }
    }
    assert t[..i + n] == s[..i] + Fit(hash, n);
    var u := Overwrite(t, i + n, disclosure);
    assert u[..i + n + |disclosure|] == t[..i + n] + disclosure;
    assert Overwrite(u, i + n + |disclosure|, msg) == u[..i + n + |disclosure|] + msg;
  }

  method WriteCommitments(data: array<byte>, c: Curve, t1: G1, t2: G1, t3: G1) returns (index: nat)
    requires c.Ok() && data.Length >= |SIGN_LABEL| + 3 * (2 * c.fieldBytes + 1)
    modifies data
    ensures index == |SIGN_LABEL| + 3 * (2 * c.fieldBytes + 1)
    ensures data[..index] == SIGN_LABEL + c.g1Bytes(t1) + c.g1Bytes(t2) + c.g1Bytes(t3)
    ensures forall k | index <= k < data.Length :: data[k] == old(data[k])
  {
    hide Overwrite;
    index := 0;
    index := AppendBytes(data, index, SIGN_LABEL);
    ghost var d1 := data[..index];
    index := AppendBytes(data, index, c.g1Bytes(t1));
    ghost var d2 := data[..index];
    index := AppendBytes(data, index, c.g1Bytes(t2));
    ghost var d3 := data[..index];
    index := AppendBytes(data, index, c.g1Bytes(t3));
    assert data[..index] == d3 + c.g1Bytes(t3);
  }

  method WritePoints(data: array<byte>, start: nat, c: Curve, a: G1, b: G1, d: G1, e: G1) returns (index: nat)
    requires c.Ok() && data.Length >= start + 4 * (2 * c.fieldBytes + 1)
    modifies data
    ensures index == start + 4 * (2 * c.fieldBytes + 1)
    ensures data[..index] == old(data[..start]) + c.g1Bytes(a) + c.g1Bytes(b) + c.g1Bytes(d) + c.g1Bytes(e)
    ensures forall k | index <= k < data.Length :: data[k] == old(data[k])
  {
    hide Overwrite;
    index := AppendBytes(data, start, c.g1Bytes(a));
    ghost var d1 := data[..index];
    index := AppendBytes(data, index, c.g1Bytes(b));
    ghost var d2 := data[..index];
    index := AppendBytes(data, index, c.g1Bytes(d));
    ghost var d3 := data[..index];
    index := AppendBytes(data, index, c.g1Bytes(e));
    assert data[..index] == d3 + c.g1Bytes(e);
  }

  /** Fills the buffer, hashes it, reuses its first bytes for the second hash. */
  method ComputeChallenge(c: Curve, t1: G1, t2: G1, t3: G1, aPrime: G1, aBar: G1, bPrime: G1, nym: G1,
                          hash: seq<byte>, disclosure: seq<byte>, msg: seq<byte>, nonce: nat) returns (h: nat)
    requires c.Ok()
    ensures h == Challenge(c, SignHead(c, t1, t2, t3, aPrime, aBar, bPrime, nym), hash, disclosure, msg, nonce)
  {
    hide Overwrite, Fit, Zeros, SignHead;
    var data := NewBuffer(|SIGN_LABEL| + 7 * (2 * c.fieldBytes + 1) + c.fieldBytes + |disclosure| + |msg|);
    var index := WriteSignHead(data, c, t1, t2, t3, aPrime, aBar, bPrime, nym);
    ghost var before := data[..];
    Copy(data, index, hash);
    Copy(data, index + c.fieldBytes, disclosure);
    Copy(data, index + c.fieldBytes + |disclosure|, msg);
    OverwriteThree(before, index, c.fieldBytes, hash, disclosure, msg);
    var first := c.HashModOrder(data[..]);
    var second := WriteSecond(data, c, first, nonce);
    h := c.HashModOrder(second);
  }

  method WriteSecond(data: array<byte>, c: Curve, first: nat, nonce: nat) returns (second: seq<byte>)
    requires c.Ok() && data.Length >= 2 * c.fieldBytes
    modifies data
    ensures second == c.bigBytes(first) + c.bigBytes(nonce)
  {
    hide Overwrite;
    var index := AppendBytes(data, 0, c.bigBytes(first));
    ghost var d := data[..index];
    index := AppendBytes(data, index, c.bigBytes(nonce));
    second := data[..index];
  }

  method WriteSignHead(data: array<byte>, c: Curve, t1: G1, t2: G1, t3: G1, aPrime: G1, aBar: G1, bPrime: G1, nym: G1)
    returns (index: nat)
    requires c.Ok() && data.Length >= |SIGN_LABEL| + 7 * (2 * c.fieldBytes + 1)
    requires data[..] == Zeros(data.Length)
    modifies data
    ensures index == |SIGN_LABEL| + 7 * (2 * c.fieldBytes + 1)
    ensures data[..][..index] == SignHead(c, t1, t2, t3, aPrime, aBar, bPrime, nym)
    ensures data[..][index..] == Zeros(data.Length - index)
  {
    hide Zeros;
    ghost var zeros := data[..];
    index := WriteCommitments(data, c, t1, t2, t3);
    index := WritePoints(data, index, c, aPrime, aBar, bPrime, nym);
    assert data[..][..index] == data[..index];
    assert data[..][index..] == zeros[index..];
    ZerosTail(|zeros|, index);
  }

  lemma ZerosTail(n: nat, i: nat)
    requires i <= n
    ensures Zeros(n)[i..] == Zeros(n - i)
  {
  }

  // ---------- Signing and verifying ----------

  /** h_r^s * B'^r * h_sk^k * prod h_attrs: the prover's t2, and the start of the verifier's. */
  function T2(c: Curve, ipk: IssuerPublicKey, bPrime: G1, idx: seq<nat>, s: nat, r: nat, k: nat, attrs: seq<nat>): G1
    requires c.q > 0 && |attrs| == |idx| && InRange(idx, |ipk.hAttrs|)
  {
    var start := c.Add(c.Mul(ipk.hRand, s), c.Mul2(bPrime, r, ipk.hSk, k));
    G1((start.log + Dot(Select(ipk.hAttrs, idx), attrs, |idx|)) % c.q)
  }

  function Responses(c: Curve, r: seq<nat>, ch: nat, attrs: seq<nat>): (s: seq<nat>)
    requires c.q > 0 && |r| == |attrs|
    ensures |s| == |r|
  {
    seq(|r|, i requires 0 <= i < |r| => c.Modadd(r[i], c.Modmul(ch, attrs[i])))
  }

  method ComputeT2(c: Curve, ipk: IssuerPublicKey, bPrime: G1, idx: seq<nat>, s: nat, r: nat, k: nat, attrs: seq<nat>)
    returns (t2: G1)
    requires c.q > 0 && |attrs| == |idx| && InRange(idx, |ipk.hAttrs|)
    ensures t2 == T2(c, ipk, bPrime, idx, s, r, k, attrs)
  {
    hide Dot, Select, Curve.Add, Curve.Mul, Curve.Mul2;
    t2 := c.Mul(ipk.hRand, s);
    t2 := c.Add(t2, c.Mul2(bPrime, r, ipk.hSk, k));
    t2 := AddPairs(c, t2, Select(ipk.hAttrs, idx), attrs);
  }

  method ComputeResponses(c: Curve, r: seq<nat>, ch: nat, attrs: seq<nat>, idx: seq<nat>) returns (s: seq<nat>)
    requires c.q > 0 && |r| == |idx| && InRange(idx, |attrs|)
    ensures s == Responses(c, r, ch, Select(attrs, idx))
  {
    hide Curve.Modadd, Curve.Modmul;
    s := [];
    ghost var all := Responses(c, r, ch, Select(attrs, idx));
    for i := 0 to |idx|
      invariant s == all[..i]
    {
      s := s + [c.Modadd(r[i], c.Modmul(ch, attrs[idx[i]]))];
    }
  }

  /** Everything NewSignature computes once its inputs are accepted. */
  function Sign(c: Curve, cred: Credential, sk: nat, nym: G1, rNym: nat, ipk: IssuerPublicKey, disclosure: seq<byte>,
                msg: seq<byte>, rnd: Randomness): (sig: Signature)
    requires c.q > 0 && |rnd.rAttrs| == |Hidden(disclosure, |disclosure|)|
    requires InRange(Hidden(disclosure, |disclosure|), |ipk.hAttrs|)
    requires InRange(Hidden(disclosure, |disclosure|), |cred.attrs|)
    ensures |sig.proofSAttrs| == |rnd.rAttrs|
  {
    var idx := Hidden(disclosure, |disclosure|);
    var r3 := Inverse(c.q, rnd.r1);
    var aPrime := c.Mul(cred.a, rnd.r1);
    var aBar := c.Sub(c.Mul(cred.b, rnd.r1), c.Mul(aPrime, cred.e));
    var bPrime := c.Sub(c.Mul(cred.b, rnd.r1), c.Mul(ipk.hRand, rnd.r2));
    var sPrime := c.Modsub(cred.s, c.Modmul(rnd.r2, r3));
    var t1 := c.Mul2(aPrime, rnd.re, ipk.hRand, rnd.rR2);
    var t2 := T2(c, ipk, bPrime, idx, rnd.rSPrime, rnd.rR3, rnd.rSk, rnd.rAttrs);
    var t3 := c.Mul2(ipk.hSk, rnd.rSk, ipk.hRand, rnd.rRNym);
    var ch := Challenge(c, SignHead(c, t1, t2, t3, aPrime, aBar, bPrime, nym), ipk.hash, disclosure, msg, rnd.nonce);
    Signature(aPrime, aBar, bPrime, ch,
              c.Modadd(rnd.rSk, c.Modmul(ch, sk)), c.Modsub(rnd.re, c.Modmul(ch, cred.e)),
              c.Modadd(rnd.rR2, c.Modmul(ch, rnd.r2)), c.Modsub(rnd.rR3, c.Modmul(ch, r3)),
              c.Modadd(rnd.rSPrime, c.Modmul(ch, sPrime)), Responses(c, rnd.rAttrs, ch, Select(cred.attrs, idx)),
              rnd.nonce, nym, c.Modadd(rnd.rRNym, c.Modmul(ch, rNym)), ALG_NO_REVOCATION)
  }

  /** NewSignature. Signing does not return when r1 is not invertible, and panics on an index out of range. */
  function SignOutcome(c: Curve, cred: Credential, sk: nat, nym: G1, rNym: nat, ipk: IssuerPublicKey,
                       disclosure: seq<byte>, msg: seq<byte>, rhIndex: int, revocationAlg: int,
                       rnd: Randomness): Outcome<Signature>
    requires c.q > 0 && |rnd.rAttrs| == |Hidden(disclosure, |disclosure|)|
  {
    var idx := Hidden(disclosure, |disclosure|);
    if rhIndex < 0 || rhIndex >= |ipk.attributeNames| || |disclosure| != |ipk.attributeNames| then Error
    else if revocationAlg != ALG_NO_REVOCATION && disclosure[rhIndex] == 1 then Error
    else if rnd.r1 % c.q == 0 then Diverges
    else if revocationAlg != ALG_NO_REVOCATION then Error
    else if rhIndex >= |cred.attrs| || SearchInts(idx, rhIndex) == |rnd.rAttrs| then Panic
    else if !InRange(idx, |ipk.hAttrs|) || !InRange(idx, |cred.attrs|) then Panic
    else Ok(Sign(c, cred, sk, nym, rNym, ipk, disclosure, msg, rnd))
  }

  method NewSignature(c: Curve, cred: Credential, sk: nat, nym: G1, rNym: nat, ipk: IssuerPublicKey,
                      disclosure: seq<byte>, msg: seq<byte>, rhIndex: int, revocationAlg: int, rnd: Randomness)
    returns (r: Outcome<Signature>)
    requires c.Ok() && |rnd.rAttrs| == |Hidden(disclosure, |disclosure|)|
    ensures r == SignOutcome(c, cred, sk, nym, rNym, ipk, disclosure, msg, rhIndex, revocationAlg, rnd)
  {
    hide Hidden, Challenge, SignHead, Inverse, SearchInts, T2, Responses, Select, Curve.Add, Curve.Mul, Curve.Mul2,
         Curve.Sub, Curve.Modadd, Curve.Modmul, Curve.Modsub, Curve.Pair;
    if rhIndex < 0 || rhIndex >= |ipk.attributeNames| || |disclosure| != |ipk.attributeNames| {
      return Error;
    }
    if revocationAlg != ALG_NO_REVOCATION && disclosure[rhIndex] == 1 {
      return Error;
    }
    var idx := HiddenIndices(disclosure);
    if rnd.r1 % c.q == 0 {
      return Diverges;
    }
    var r3 := Inverse(c.q, rnd.r1);
    var aPrime := c.Mul(cred.a, rnd.r1);
    var aBar := c.Mul(cred.b, rnd.r1);
    aBar := c.Sub(aBar, c.Mul(aPrime, cred.e));
    var bPrime := c.Mul(cred.b, rnd.r1);
    bPrime := c.Sub(bPrime, c.Mul(ipk.hRand, rnd.r2));
    var sPrime := c.Modsub(cred.s, c.Modmul(rnd.r2, r3));
    if revocationAlg != ALG_NO_REVOCATION {
      return Error;
    }
    if rhIndex >= |cred.attrs| || SearchInts(idx, rhIndex) == |rnd.rAttrs| {
      return Panic;
    }
    if !InRange(idx, |ipk.hAttrs|) || !InRange(idx, |cred.attrs|) {
      return Panic;
    }
    var t1 := c.Mul2(aPrime, rnd.re, ipk.hRand, rnd.rR2);
    var t2 := ComputeT2(c, ipk, bPrime, idx, rnd.rSPrime, rnd.rR3, rnd.rSk, rnd.rAttrs);
    var t3 := c.Mul2(ipk.hSk, rnd.rSk, ipk.hRand, rnd.rRNym);
    var ch := ComputeChallenge(c, t1, t2, t3, aPrime, aBar, bPrime, nym, ipk.hash, disclosure, msg, rnd.nonce);
    var proofSAttrs := ComputeResponses(c, rnd.rAttrs, ch, cred.attrs, idx);
    return Ok(Signature(aPrime, aBar, bPrime, ch,
                        c.Modadd(rnd.rSk, c.Modmul(ch, sk)), c.Modsub(rnd.re, c.Modmul(ch, cred.e)),
                        c.Modadd(rnd.rR2, c.Modmul(ch, rnd.r2)), c.Modsub(rnd.rR3, c.Modmul(ch, r3)),
                        c.Modadd(rnd.rSPrime, c.Modmul(ch, sPrime)), proofSAttrs,
                        rnd.nonce, nym, c.Modadd(rnd.rRNym, c.Modmul(ch, rNym)), ALG_NO_REVOCATION));
  }

  /** The verifier's commitments. */
  function VerT1(c: Curve, sig: Signature, ipk: IssuerPublicKey): G1
    requires c.q > 0
  {
    c.Sub(c.Mul2(sig.aPrime, sig.proofSE, ipk.hRand, sig.proofSR2), c.Mul(c.Sub(sig.aBar, sig.bPrime), sig.proofC))
  }

  function VerT2(c: Curve, sig: Signature, ipk: IssuerPublicKey, disclosure: seq<byte>, values: seq<nat>): G1
    requires c.q > 0 && |disclosure| <= |ipk.hAttrs| && |sig.proofSAttrs| == |Hidden(disclosure, |disclosure|)|
    requires ValuesGiven(disclosure, values)
  {
    c.Add(T2(c, ipk, sig.bPrime, Hidden(disclosure, |disclosure|), sig.proofSSPrime, sig.proofSR3, sig.proofSSk,
             sig.proofSAttrs),
          c.Mul(G1((1 + DisclosedDot(ipk.hAttrs, disclosure, values, |disclosure|)) % c.q), sig.proofC))
  }

  function VerT3(c: Curve, sig: Signature, ipk: IssuerPublicKey): G1
    requires c.q > 0
  {
    c.Sub(c.Mul2(ipk.hSk, sig.proofSSk, ipk.hRand, sig.proofSRNym), c.Mul(sig.nym, sig.proofC))
  }

  /** Every disclosed attribute has a value to compare with. */
  predicate ValuesGiven(disclosure: seq<byte>, values: seq<nat>) {
    forall k | 0 <= k < |disclosure| && disclosure[k] != 0 :: k < |values|
  }

  /** Signature.Ver. An attribute without a base, or a disclosed one without a value, is indexed out of range. */
  function Verify(c: Curve, sig: Signature, disclosure: seq<byte>, ipk: IssuerPublicKey, msg: seq<byte>,
                  values: seq<nat>, rhIndex: int): Outcome<()>
    requires c.q > 0
  {
    var idx := Hidden(disclosure, |disclosure|);
    if rhIndex < 0 || rhIndex >= |ipk.attributeNames| || |disclosure| != |ipk.attributeNames| then Error
    else if sig.revocationAlg != ALG_NO_REVOCATION && disclosure[rhIndex] == 1 then Error
    else if |sig.proofSAttrs| != |idx| then Error
    else if sig.aPrime.log % c.q == 0 then Error
    else if c.Pair(ipk.w, sig.aPrime) != c.Pair(GEN_G2, sig.aBar) then Error
    else if |disclosure| > |ipk.hAttrs| || !ValuesGiven(disclosure, values) then Panic
    else if sig.revocationAlg != ALG_NO_REVOCATION then Error
    else if SearchInts(idx, rhIndex) == |idx| then Panic
    else
      var head := SignHead(c, VerT1(c, sig, ipk), VerT2(c, sig, ipk, disclosure, values), VerT3(c, sig, ipk),
                           sig.aPrime, sig.aBar, sig.bPrime, sig.nym);
      if sig.proofC != Challenge(c, head, ipk.hash, disclosure, msg, sig.nonce) then Error else Ok(())
  }

  method Ver(c: Curve, sig: Signature, disclosure: seq<byte>, ipk: IssuerPublicKey, msg: seq<byte>, values: seq<nat>,
             rhIndex: int) returns (r: Outcome<()>)
    requires c.Ok()
    ensures r == Verify(c, sig, disclosure, ipk, msg, values, rhIndex)
  {
    hide Hidden, Challenge, SignHead, SearchInts, T2, DisclosedDot, Curve.Add, Curve.Mul, Curve.Mul2, Curve.Sub,
         Curve.Modadd, Curve.Modmul, Curve.Modsub, Curve.Pair;
    if rhIndex < 0 || rhIndex >= |ipk.attributeNames| || |disclosure| != |ipk.attributeNames| {
      return Error;
    }
    if sig.revocationAlg != ALG_NO_REVOCATION && disclosure[rhIndex] == 1 {
      return Error;
    }
    var idx := HiddenIndices(disclosure);
    if |sig.proofSAttrs| != |idx| {
      return Error;
    }
    if sig.aPrime.log % c.q == 0 {
      return Error;
    }
    if c.Pair(ipk.w, sig.aPrime) != c.Pair(GEN_G2, sig.aBar) {
      return Error;
    }
    var t1 := c.Mul2(sig.aPrime, sig.proofSE, ipk.hRand, sig.proofSR2);
    var temp := c.Sub(sig.aBar, sig.bPrime);
    t1 := c.Sub(t1, c.Mul(temp, sig.proofC));
    if |disclosure| > |ipk.hAttrs| || !ValuesGiven(disclosure, values) {
      return Panic;
    }
    var t2 := ComputeT2(c, ipk, sig.bPrime, idx, sig.proofSSPrime, sig.proofSR3, sig.proofSSk, sig.proofSAttrs);
    temp := AddDisclosed(c, ipk.hAttrs, disclosure, values);
    t2 := c.Add(t2, c.Mul(temp, sig.proofC));
    var t3 := c.Mul2(ipk.hSk, sig.proofSSk, ipk.hRand, sig.proofSRNym);
    t3 := c.Sub(t3, c.Mul(sig.nym, sig.proofC));
    if sig.revocationAlg != ALG_NO_REVOCATION {
      return Error;
    }
    if SearchInts(idx, rhIndex) == |idx| {
      return Panic;
    }
    var h := ComputeChallenge(c, t1, t2, t3, sig.aPrime, sig.aBar, sig.bPrime, sig.nym, ipk.hash, disclosure, msg,
                              sig.nonce);
    if sig.proofC != h {
      return Error;
    }
    return Ok(());
  }
}
