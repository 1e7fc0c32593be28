/** Credential requests and credentials (idemix/credrequest.go, idemix/credential.go). */
module IdemixIssuance {
  import opened Wrappers
  import opened Modular
  import opened IdemixCurve
  import opened IdemixIssuerKey

  // ---------- Credential requests ----------

  /** A nil issuer nonce is None. */
  datatype CredRequest = CredRequest(nym: G1, issuerNonce: Option<seq<byte>>, proofC: nat, proofS: nat)

  const CRED_REQUEST_LABEL: seq<byte> := [99, 114, 101, 100, 82, 101, 113, 117, 101, 115, 116]

  function Bytes(b: Option<seq<byte>>): seq<byte> {
    if b.None? then [] else b.value
  }

  /** The hashed bytes: nonce and key hash share the last 2 * FieldBytes. A longer nonce panics. */
  function RequestData(c: Curve, t: G1, hSk: G1, nym: G1, nonce: seq<byte>, hash: seq<byte>): Outcome<seq<byte>> {
    if |nonce| > 2 * c.fieldBytes then Panic
    else Ok(RequestHead(c, t, hSk, nym) + Fit(nonce + hash, 2 * c.fieldBytes))
  }

  function RequestHead(c: Curve, t: G1, hSk: G1, nym: G1): seq<byte> {
    CRED_REQUEST_LABEL + c.g1Bytes(t) + c.g1Bytes(hSk) + c.g1Bytes(nym)
  }

  method BuildRequestData(c: Curve, t: G1, hSk: G1, nym: G1, nonce: seq<byte>, hash: seq<byte>)
    returns (r: Outcome<seq<byte>>)
    requires c.Ok()
    ensures r == RequestData(c, t, hSk, nym, nonce, hash)
  {
    hide Overwrite, Fit, Zeros;
    var data := NewBuffer(|CRED_REQUEST_LABEL| + 3 * (2 * c.fieldBytes + 1) + 2 * c.fieldBytes);
    var index := WriteRequestHead(data, c, t, hSk, nym);
    if index + |nonce| > data.Length {
      return Panic;
    }
    ghost var before := data[..];
    Copy(data, index, nonce);
    Copy(data, index + |nonce|, hash);
    OverwriteTail(before, index, nonce, hash);
    return Ok(data[..]);
  }

  method WriteRequestHead(data: array<byte>, c: Curve, t: G1, hSk: G1, nym: G1) returns (index: nat)
    requires c.Ok() && data.Length == |CRED_REQUEST_LABEL| + 3 * (2 * c.fieldBytes + 1) + 2 * c.fieldBytes
    requires data[..] == Zeros(data.Length)
    modifies data
    ensures index == data.Length - 2 * c.fieldBytes
    ensures data[..][..index] == RequestHead(c, t, hSk, nym)
    ensures data[..][index..] == Zeros(2 * c.fieldBytes)
  {
    hide Overwrite;
    index := 0;
    index := AppendBytes(data, index, CRED_REQUEST_LABEL);
    ghost var d1 := data[..index];
    index := AppendBytes(data, index, c.g1Bytes(t));
    ghost var d2 := data[..index];
    index := AppendBytes(data, index, c.g1Bytes(hSk));
    ghost var d3 := data[..index];
    index := AppendBytes(data, index, c.g1Bytes(nym));
    assert data[..index] == d3 + c.g1Bytes(nym);
  }

  function NewRequest(c: Curve, sk: nat, nonce: Option<seq<byte>>, ipk: IssuerPublicKey, rSk: nat): Outcome<CredRequest>
    requires c.q > 0
  {
    var nym, t := c.Mul(ipk.hSk, sk), c.Mul(ipk.hSk, rSk);
    match RequestData(c, t, ipk.hSk, nym, Bytes(nonce), ipk.hash)
    case Ok(data) =>
      var proofC := c.HashModOrder(data);
      Ok(CredRequest(nym, nonce, proofC, c.Modadd(c.Modmul(proofC, sk), rSk)))
    case _ => Panic
  }

  method NewCredRequest(c: Curve, sk: nat, nonce: Option<seq<byte>>, ipk: IssuerPublicKey, rSk: nat)
    returns (r: Outcome<CredRequest>)
    requires c.Ok()
    ensures r == NewRequest(c, sk, nonce, ipk, rSk)
  {
    var nym := c.Mul(ipk.hSk, sk);
    var t := c.Mul(ipk.hSk, rSk);
    var data := BuildRequestData(c, t, ipk.hSk, nym, Bytes(nonce), ipk.hash);
    if !data.Ok? {
      return Panic;
    }
    var proofC := c.HashModOrder(data.value);
    var proofS := c.Modadd(c.Modmul(proofC, sk), rSk);
    return Ok(CredRequest(nym, nonce, proofC, proofS));
  }

  /** The commitment, recomputed from the response. */
  function RequestT(c: Curve, m: CredRequest, ipk: IssuerPublicKey): G1
    requires c.q > 0
  {
    c.Sub(c.Mul(ipk.hSk, m.proofS), c.Mul(m.nym, m.proofC))
  }

  function RequestCheck(c: Curve, m: CredRequest, ipk: IssuerPublicKey): Outcome<()>
    requires c.q > 0
  {
    if m.issuerNonce.None? then Error
    else
      match RequestData(c, RequestT(c, m, ipk), ipk.hSk, m.nym, m.issuerNonce.value, ipk.hash)
      case Ok(data) => if m.proofC != c.HashModOrder(data) then Error else Ok(())
      case _ => Panic
  }

  method CheckRequest(c: Curve, m: CredRequest, ipk: IssuerPublicKey) returns (r: Outcome<()>)
    requires c.Ok()
    ensures r == RequestCheck(c, m, ipk)
  {
    if m.issuerNonce.None? {
      return Error;
    }
    var t := c.Mul(ipk.hSk, m.proofS);
    t := c.Sub(t, c.Mul(m.nym, m.proofC));
    var data := BuildRequestData(c, t, ipk.hSk, m.nym, m.issuerNonce.value, ipk.hash);
    if !data.Ok? {
      return Panic;
    }
    if m.proofC != c.HashModOrder(data.value) {
      return Error;
    }
    return Ok(());
  }

  lemma RequestCommitment(c: Curve, base: G1, secret: nat, r: nat, ch: nat)
    requires c.q > 0
    ensures c.Sub(c.Mul(base, c.Modadd(c.Modmul(ch, secret), r)), c.Mul(c.Mul(base, secret), ch)) == c.Mul(base, r)
  {
    var q, h, s, nym := c.q, base.log, c.Modadd(c.Modmul(ch, secret), r), (base.log * secret) % c.q;
    ResponseEq(c, ch, secret, r);
    EqMod(q, h * secret);
    Schnorr(q, h, secret, nym, r, ch, s);
    EqMod(q, h * s);
    EqMod(q, nym * ch);
    EqSub(q, (h * s) % q, h * s, (nym * ch) % q, nym * ch);
  }

  /** A request is built unless the nonce is too long, and passes the check exactly when there is a nonce. */
  lemma RequestCompleteness(c: Curve, sk: nat, nonce: Option<seq<byte>>, ipk: IssuerPublicKey, rSk: nat)
    requires c.Ok()
    ensures var r := NewRequest(c, sk, nonce, ipk, rSk);
            && (r.Panic? <==> |Bytes(nonce)| > 2 * c.fieldBytes)
            && (r.Ok? <==> |Bytes(nonce)| <= 2 * c.fieldBytes)
            && (r.Ok? ==> RequestCheck(c, r.value, ipk) == if nonce.Some? then Ok(()) else Error)
            && (r.Ok? ==> r.value.nym == c.Mul(ipk.hSk, sk))
  {
    hide Curve.Mul, Curve.Sub, Curve.Modadd, Curve.Modmul;
    var r := NewRequest(c, sk, nonce, ipk, rSk);
    if r.Ok? {
      RequestCommitment(c, ipk.hSk, sk, rSk, r.value.proofC);
    }
  }

  // ---------- Credentials ----------

  datatype Credential = Credential(a: G1, b: G1, e: nat, s: nat, attrs: seq<nat>)

  /** The value that is signed: g1 * Nym * h_r^s * h_1^m_1 * ... * h_L^m_L. */
  function SignedValue(c: Curve, nym: G1, s: nat, ipk: IssuerPublicKey, attrs: seq<nat>): G1
    requires c.q > 0 && |attrs| <= |ipk.hAttrs|
  {
    var start := c.Add(c.Add(GEN_G1, nym), c.Mul(ipk.hRand, s));
    G1((start.log + Dot(ipk.hAttrs[..|attrs|], attrs, |attrs|)) % c.q)
  }

  /** NewCredential; e and s are drawn by the issuer. */
  function NewCred(c: Curve, key: IssuerKey, m: CredRequest, attrs: seq<nat>, e: nat, s: nat): Outcome<Credential>
    requires c.q > 0
  {
    match RequestCheck(c, m, key.ipk)
    case Diverges => Diverges
    case Panic => Panic
    case Error => Error
    case Ok(_) =>
      if |attrs| != |key.ipk.attributeNames| then Error
      else if |attrs| > |key.ipk.hAttrs| then Panic
      else if c.Modadd(key.isk, e) == 0 then Diverges
      else
        var b := SignedValue(c, m.nym, s, key.ipk, attrs);
        Ok(Credential(c.Mul(b, Inverse(c.q, c.Modadd(key.isk, e))), b, e, s, attrs))
  }

  method NewCredential(c: Curve, key: IssuerKey, m: CredRequest, attrs: seq<nat>, e: nat, s: nat)
    returns (r: Outcome<Credential>)
    requires c.Ok()
    ensures r == NewCred(c, key, m, attrs, e, s)
  {
    var checked := CheckRequest(c, m, key.ipk);
    if checked.Panic? {
      return Panic;
    }
    if checked.Error? || |attrs| != |key.ipk.attributeNames| {
      return Error;
    }
    if |attrs| > |key.ipk.hAttrs| {
      return Panic;
    }
    var b := GEN_G1;
    b := c.Add(b, m.nym);
    b := c.Add(b, c.Mul(key.ipk.hRand, s));
    b := AddPairs(c, b, key.ipk.hAttrs[..|attrs|], attrs);
    var exp := c.Modadd(key.isk, e);
    if exp == 0 {
      return Diverges;
    }
    exp := Inverse(c.q, exp);
    var a := c.Mul(b, exp);
    return Ok(Credential(a, b, e, s, attrs));
  }

  /** The value recomputed from the secret key and the attributes. */
  function RecomputedValue(c: Curve, cred: Credential, sk: nat, ipk: IssuerPublicKey): G1
    requires c.q > 0 && |cred.attrs| <= |ipk.hAttrs|
  {
    var start := c.Add(GEN_G1, c.Mul2(ipk.hSk, sk, ipk.hRand, cred.s));
    G1((start.log + Dot(ipk.hAttrs[..|cred.attrs|], cred.attrs, |cred.attrs|)) % c.q)
  }

  /** Credential.Ver accepts: the signed value matches, and e(w * g2^e, A) == e(g2, B). */
  predicate CredVerifies(c: Curve, cred: Credential, sk: nat, ipk: IssuerPublicKey)
    requires c.q > 0 && |cred.attrs| <= |ipk.hAttrs|
  {
    && cred.b.log % c.q == RecomputedValue(c, cred, sk, ipk).log
    && c.Pair(c.Add2(c.MulG2(GEN_G2, cred.e), ipk.w), cred.a) == c.Pair(GEN_G2, cred.b)
  }

  /** Credential.Ver: a credential with more attributes than the key has bases is indexed out of range. */
  function CredVer(c: Curve, cred: Credential, sk: nat, ipk: IssuerPublicKey): Outcome<()>
    requires c.q > 0
  {
    if |cred.attrs| > |ipk.hAttrs| then Panic
    else if CredVerifies(c, cred, sk, ipk) then Ok(())
    else Error
  }

  method Ver(c: Curve, cred: Credential, sk: nat, ipk: IssuerPublicKey) returns (r: Outcome<()>)
    requires c.q > 0
    ensures r == CredVer(c, cred, sk, ipk)
  {
    var bPrime := GEN_G1;
    bPrime := c.Add(bPrime, c.Mul2(ipk.hSk, sk, ipk.hRand, cred.s));
    if |cred.attrs| > |ipk.hAttrs| {
      return Panic;
    }
    bPrime := AddPairs(c, bPrime, ipk.hAttrs[..|cred.attrs|], cred.attrs);
    if cred.b.log % c.q != bPrime.log {
      return Error;
    }
    var a := c.MulG2(GEN_G2, cred.e);
    a := c.Add2(a, ipk.w);
    var left, right := c.Pair(a, cred.a), c.Pair(GEN_G2, cred.b);
    if left != right {
      return Error;
    }
    return Ok(());
  }

  /** What a credential is for a user with secret sk and an issuer with secret x. */
  ghost predicate Honest(c: Curve, ipk: IssuerPublicKey, x: nat, cred: Credential, sk: nat) {
    && c.q > 0
    && |cred.attrs| == |ipk.attributeNames| <= |ipk.hAttrs|
    && Eq(c.q, ipk.w.log, x)
    && Eq(c.q, cred.b.log, Message(ipk, cred, sk))
    && Eq(c.q, cred.a.log * (cred.e + x), cred.b.log)
  }

  /** The logarithm of the signed value, not reduced. */
  function Message(ipk: IssuerPublicKey, cred: Credential, sk: nat): nat
    requires |cred.attrs| <= |ipk.hAttrs|
  {
    1 + ipk.hSk.log * sk + ipk.hRand.log * cred.s + Dot(ipk.hAttrs[..|cred.attrs|], cred.attrs, |cred.attrs|)
  }

  lemma SumReduced(q: nat, start: int, x: int, d: int)
    requires q > 0 && Eq(q, start, x)
    ensures Eq(q, (start + d) % q, x + d)
  {
    EqRefl(q, d);
    EqAdd(q, start, x, d, d);
    EqMod(q, start + d);
  }

  lemma SignedValueEq(c: Curve, sk: nat, cred: Credential, ipk: IssuerPublicKey)
    requires c.q > 0 && |cred.attrs| <= |ipk.hAttrs|
    ensures Eq(c.q, SignedValue(c, c.Mul(ipk.hSk, sk), cred.s, ipk, cred.attrs).log, Message(ipk, cred, sk))
    ensures SignedValue(c, c.Mul(ipk.hSk, sk), cred.s, ipk, cred.attrs).log % c.q ==
              RecomputedValue(c, cred, sk, ipk).log
    ensures SignedValue(c, c.Mul(ipk.hSk, sk), cred.s, ipk, cred.attrs).log < c.q
  {
    hide Eq, Dot;
    var q, u, v := c.q, ipk.hSk.log * sk, ipk.hRand.log * cred.s;
    var d := Dot(ipk.hAttrs[..|cred.attrs|], cred.attrs, |cred.attrs|);
    StartEq(q, u, v);
    var a, b := ((1 + u % q) % q + v % q) % q, (1 + (u + v) % q) % q;
    SumReduced(q, a, 1 + u + v, d);
    SumReduced(q, b, 1 + u + v, d);
    assert SignedValue(c, c.Mul(ipk.hSk, sk), cred.s, ipk, cred.attrs) == G1((a + d) % q);
    assert RecomputedValue(c, cred, sk, ipk) == G1((b + d) % q);
    SameReduced(q, a + d, b + d, 1 + u + v + d);
  }

  lemma SameReduced(q: nat, a: int, b: int, m: int)
    requires q > 0 && Eq(q, a % q, m) && Eq(q, b % q, m)
    ensures (a % q) % q == b % q && a % q < q
  {
    EqSym(q, b % q, m);
    EqTrans(q, a % q, m, b % q);
    ReducedTwice(q, a);
    ReducedTwice(q, b);
  }

  lemma StartEq(q: nat, u: int, v: int)
    requires q > 0
    ensures Eq(q, ((1 + u % q) % q + v % q) % q, 1 + u + v)
    ensures Eq(q, (1 + (u + v) % q) % q, 1 + u + v)
  {
    var w, x, y := u % q, v % q, (u + v) % q;
    EqMod(q, u);
    EqMod(q, v);
    EqMod(q, u + v);
    hide Eq;
    SumReduced(q, w, u, 1);
    assert w + 1 == 1 + w && u + 1 == 1 + u;
    var z := (1 + w) % q;
    EqAdd(q, z, 1 + u, x, v);
    EqMod(q, z + x);
    EqTrans(q, (z + x) % q, z + x, 1 + u + v);
    SumReduced(q, y, u + v, 1);
    assert y + 1 == 1 + y && u + v + 1 == 1 + u + v;
  }

  /** (e + x) * (b / (e + x)) is b. */
  lemma SignatureExponent(q: nat, x: nat, e: nat, b: nat)
    requires Prime(q) && (x + e) % q != 0
    ensures Eq(q, ((b * Inverse(q, (x + e) % q)) % q) * (e + x), b)
  {
    var k := (x + e) % q;
    var i := Inverse(q, k);
    var a := (b * i) % q;
    EqMod(q, x + e);
    EqMod(q, b * i);
    EqMul(q, a, b * i, e + x, k);
    ReducedTwice(q, x + e);
    InverseIsInverse(q, k);
    EqScale(q, b, k * i, 1);
    assert (b * i) * k == b * (k * i);
  }

  lemma PairingCheck(c: Curve, cred: Credential, ipk: IssuerPublicKey, x: nat)
    requires c.q > 0 && Eq(c.q, ipk.w.log, x)
    ensures c.Pair(c.Add2(c.MulG2(GEN_G2, cred.e), ipk.w), cred.a) == c.Pair(GEN_G2, cred.b)
            <==> Eq(c.q, cred.a.log * (cred.e + x), cred.b.log)
  {
    var q, e := c.q, cred.e;
    var left := c.Add2(c.MulG2(GEN_G2, e), ipk.w).log;
    EqMod(q, 1 * e);
    EqAdd(q, (1 * e) % q, e, ipk.w.log, x);
    EqMod(q, (1 * e) % q + ipk.w.log);
    EqScale(q, cred.a.log, left, e + x);
    assert left * cred.a.log == cred.a.log * left;
  }

  /** Issuing does not return exactly when e + x is not invertible; an issued credential always verifies. */
  lemma CredentialCompleteness(c: Curve, key: IssuerKey, m: CredRequest, attrs: seq<nat>, e: nat, s: nat, sk: nat)
    requires c.Ok() && |key.ipk.attributeNames| <= |key.ipk.hAttrs|
    requires Eq(c.q, key.ipk.w.log, key.isk)
    requires RequestCheck(c, m, key.ipk).Ok? && m.nym == c.Mul(key.ipk.hSk, sk)
    ensures var r := NewCred(c, key, m, attrs, e, s);
            if |attrs| != |key.ipk.attributeNames| then r.Error?
            else if (key.isk + e) % c.q == 0 then r.Diverges?
            else r.Ok? && CredVer(c, r.value, sk, key.ipk) == Ok(()) && Honest(c, key.ipk, key.isk, r.value, sk)
  {
    hide SignedValue, RecomputedValue, Dot, Message, Inverse, Curve.Pair, Curve.Add2, Curve.MulG2, RequestCheck, Eq;
    if |attrs| == |key.ipk.attributeNames| && (key.isk + e) % c.q != 0 {
      var r := NewCred(c, key, m, attrs, e, s);
      SignedValueEq(c, sk, r.value, key.ipk);
      SignatureExponent(c.q, key.isk, e, r.value.b.log);
      PairingCheck(c, r.value, key.ipk, key.isk);
    }
  }

  /** A credential is accepted exactly when it is one for this user and the issuer whose key is given. */
  lemma CredentialAcceptedIff(c: Curve, cred: Credential, sk: nat, ipk: IssuerPublicKey, x: nat)
    requires c.q > 0 && Eq(c.q, ipk.w.log, x)
    ensures CredVer(c, cred, sk, ipk).Panic? <==> |cred.attrs| > |ipk.hAttrs|
    ensures CredVer(c, cred, sk, ipk).Ok? <==>
              && |cred.attrs| <= |ipk.hAttrs|
              && Eq(c.q, cred.b.log, Message(ipk, cred, sk)) && Eq(c.q, cred.a.log * (cred.e + x), cred.b.log)
    ensures |cred.attrs| == |ipk.attributeNames| <= |ipk.hAttrs| ==>
              (CredVer(c, cred, sk, ipk) == Ok(()) <==> Honest(c, ipk, x, cred, sk))
  {
    hide SignedValue, RecomputedValue, Dot, Message, Curve.Pair, Curve.Add2, Curve.MulG2;
    PairingCheck(c, cred, ipk, x);
    if |cred.attrs| <= |ipk.hAttrs| {
      SignedValueEq(c, sk, cred, ipk);
      ReducedTwice(c.q, SignedValue(c, c.Mul(ipk.hSk, sk), cred.s, ipk, cred.attrs).log);
    }
  }
}
