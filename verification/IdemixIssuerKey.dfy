/** Issuer keys and the proof of knowledge they carry (idemix/issuerkey.go). */
module IdemixIssuerKey {
  import opened Modular
  import opened Sequences
  import opened IdemixCurve

  datatype IssuerKey = IssuerKey(isk: nat, ipk: IssuerPublicKey)

  /** The numbers drawn by NewIssuerKey. */
  datatype KeyRandomness = KeyRandomness(isk: nat, hAttrs: seq<nat>, hSk: nat, hRand: nat, barG1: nat, r: nat)

  /** The hashed bytes, which fill a buffer of 18 * FieldBytes + 3. */
  function ProofData(c: Curve, t1: G2, t2: G1, barG1: G1, w: G2, barG2: G1): seq<byte> {
    c.g2Bytes(t1) + c.g1Bytes(t2) + c.g2Bytes(GEN_G2) + c.g1Bytes(barG1) + c.g2Bytes(w) + c.g1Bytes(barG2)
  }

  method BuildProofData(c: Curve, t1: G2, t2: G1, barG1: G1, w: G2, barG2: G1) returns (data: array<byte>)
    requires c.Ok()
    ensures fresh(data) && data[..] == ProofData(c, t1, t2, barG1, w, barG2)
  {
    hide Overwrite, Zeros;
    data := NewBuffer(18 * c.fieldBytes + 3);
    var index := 0;
    index := AppendBytes(data, index, c.g2Bytes(t1));
    ghost var d1 := data[..index];
    index := AppendBytes(data, index, c.g1Bytes(t2));
    ghost var d2 := data[..index];
    index := AppendBytes(data, index, c.g2Bytes(GEN_G2));
    ghost var d3 := data[..index];
    index := AppendThree(data, index, c, barG1, w, barG2);
    assert data[..] == data[..index];
  }

  method AppendThree(data: array<byte>, start: nat, c: Curve, barG1: G1, w: G2, barG2: G1) returns (index: nat)
    requires c.Ok() && start + 8 * c.fieldBytes + 2 <= data.Length
    modifies data
    ensures index == start + 8 * c.fieldBytes + 2
    ensures data[..index] == old(data[..start]) + c.g1Bytes(barG1) + c.g2Bytes(w) + c.g1Bytes(barG2)
  {
    hide Overwrite;
    index := AppendBytes(data, start, c.g1Bytes(barG1));
    ghost var d1 := data[..index];
    index := AppendBytes(data, index, c.g2Bytes(w));
    ghost var d2 := data[..index];
    index := AppendBytes(data, index, c.g1Bytes(barG2));
    assert data[..index] == d2 + c.g1Bytes(barG2);
  }

  /** The key with the hash of its serialisation, the hash field left empty. */
  function WithHash(c: Curve, ipk: IssuerPublicKey): IssuerPublicKey
    requires c.q > 0
  {
    ipk.(hash := c.bigBytes(c.HashModOrder(c.marshal(ipk.(hash := [])))))
  }

  function Bases(c: Curve, exps: seq<nat>): seq<G1>
    requires c.q > 0
  {
    seq(|exps|, i requires 0 <= i < |exps| => c.Mul(GEN_G1, exps[i]))
  }

  function NewKey(c: Curve, names: seq<string>, rnd: KeyRandomness): IssuerKey
    requires c.q > 0
  {
    var w, barG1 := c.MulG2(GEN_G2, rnd.isk), c.Mul(GEN_G1, rnd.barG1);
    var barG2 := c.Mul(barG1, rnd.isk);
    var t1, t2 := c.MulG2(GEN_G2, rnd.r), c.Mul(barG1, rnd.r);
    var proofC := c.HashModOrder(ProofData(c, t1, t2, barG1, w, barG2));
    var proofS := c.Modadd(c.Modmul(proofC, rnd.isk), rnd.r);
    IssuerKey(rnd.isk, WithHash(c, IssuerPublicKey(
      names, c.Mul(GEN_G1, rnd.hSk), c.Mul(GEN_G1, rnd.hRand), Bases(c, rnd.hAttrs), w, barG1, barG2,
      proofC, proofS, [])))
  }

  /** NewIssuerKey: an error exactly for repeated attribute names. */
  method NewIssuerKey(c: Curve, names: seq<string>, rnd: KeyRandomness) returns (r: Outcome<IssuerKey>)
    requires c.Ok() && |rnd.hAttrs| == |names|
    ensures r == if NoRepeats(names) then Ok(NewKey(c, names, rnd)) else Error
  {
    var seen: set<string> := {};
    for i := 0 to |names|
      invariant NoRepeats(names[..i])
      invariant seen == set k | 0 <= k < i :: names[k]
    {
      if names[i] in seen {
        return Error;
      }
      seen := seen + {names[i]};
    }
    assert names[..|names|] == names;

    var w := c.MulG2(GEN_G2, rnd.isk);
    var hAttrs: seq<G1> := [];
    for i := 0 to |names|
      invariant hAttrs == Bases(c, rnd.hAttrs)[..i]
    {
      hAttrs := hAttrs + [c.Mul(GEN_G1, rnd.hAttrs[i])];
    }
    assert hAttrs == Bases(c, rnd.hAttrs);
    var hSk := c.Mul(GEN_G1, rnd.hSk);
    var hRand := c.Mul(GEN_G1, rnd.hRand);
    var barG1 := c.Mul(GEN_G1, rnd.barG1);
    var barG2 := c.Mul(barG1, rnd.isk);
    var t1, t2 := c.MulG2(GEN_G2, rnd.r), c.Mul(barG1, rnd.r);
    var data := BuildProofData(c, t1, t2, barG1, w, barG2);
    var proofC := c.HashModOrder(data[..]);
    var proofS := c.Modadd(c.Modmul(proofC, rnd.isk), rnd.r);
    var holder := new PublicKey(IssuerPublicKey(names, hSk, hRand, hAttrs, w, barG1, barG2, proofC, proofS, []));
    holder.SetHash(c);
    return Ok(IssuerKey(rnd.isk, holder.key));
  }

  /** The commitments, recomputed from the responses. */
  function KeyT1(c: Curve, ipk: IssuerPublicKey): G2
    requires c.q > 0
  {
    c.Add2(c.MulG2(GEN_G2, ipk.proofS), c.MulG2(ipk.w, c.Modneg(ipk.proofC)))
  }

  function KeyT2(c: Curve, ipk: IssuerPublicKey): G1
    requires c.q > 0
  {
    c.Add(c.Mul(ipk.barG1, ipk.proofS), c.Mul(ipk.barG2, c.Modneg(ipk.proofC)))
  }

  /** The challenge that they give is the one in the key. */
  predicate ProofVerifies(c: Curve, ipk: IssuerPublicKey)
    requires c.q > 0
  {
    ipk.proofC == c.HashModOrder(ProofData(c, KeyT1(c, ipk), KeyT2(c, ipk), ipk.barG1, ipk.w, ipk.barG2))
  }

  predicate KeyChecks(c: Curve, ipk: IssuerPublicKey)
    requires c.q > 0
  {
    && ipk.barG1.log % c.q != 0
    && |ipk.hAttrs| >= |ipk.attributeNames|
    && ProofVerifies(c, ipk)
  }

  /** A public key whose hash field is filled in later. */
  class PublicKey {
    var key: IssuerPublicKey

    constructor (key: IssuerPublicKey)
      ensures this.key == key
    {
      this.key := key;
    }

    method SetHash(c: Curve)
      requires c.q > 0
      modifies this
      ensures key == WithHash(c, old(key))
    {
      key := key.(hash := []);
      var serialized := c.marshal(key);
      key := key.(hash := c.bigBytes(c.HashModOrder(serialized)));
    }

    /** Checks the proof, and recomputes the hash when it holds. */
    method Check(c: Curve) returns (ok: bool)
      requires c.Ok()
      modifies this
      ensures ok <==> KeyChecks(c, old(key))
      ensures key == if ok then WithHash(c, old(key)) else old(key)
    {
      if key.barG1.log % c.q == 0 || |key.hAttrs| < |key.attributeNames| {
        return false;
      }
      var neg := c.Modneg(key.proofC);
      var t1 := c.MulG2(GEN_G2, key.proofS);
      t1 := c.Add2(t1, c.MulG2(key.w, neg));
      var t2 := c.Mul(key.barG1, key.proofS);
      t2 := c.Add(t2, c.Mul(key.barG2, neg));
      var data := BuildProofData(c, t1, t2, key.barG1, key.w, key.barG2);
      if key.proofC != c.HashModOrder(data[..]) {
        return false;
      }
      SetHash(c);
      return true;
    }
  }

  // ---------- Completeness ----------

  /** A Schnorr response answers its challenge: base^s / public^c is the commitment base^r. */
  lemma Schnorr(q: nat, base: int, secret: int, public_: int, r: int, ch: int, s: int)
    requires q > 0 && Eq(q, public_, base * secret) && Eq(q, s, ch * secret + r)
    ensures Eq(q, base * s - public_ * ch, base * r)
  {
    hide Eq;
    EqScale(q, base, s, ch * secret + r);
    EqScale(q, ch, public_, base * secret);
    EqSub(q, base * s, base * (ch * secret + r), ch * public_, ch * (base * secret));
    assert base * (ch * secret + r) - ch * (base * secret) == base * r;
  }

  lemma ResponseEq(c: Curve, ch: nat, secret: nat, r: nat)
    requires c.q > 0
    ensures Eq(c.q, c.Modadd(c.Modmul(ch, secret), r), ch * secret + r)
  {
    AddReduced(c.q, c.Modmul(ch, secret), ch * secret, r);
    EqMod(c.q, ch * secret + r);
    EqMod(c.q, r);
    EqRefl(c.q, c.Modmul(ch, secret));
    EqAdd(c.q, c.Modmul(ch, secret), c.Modmul(ch, secret), r % c.q, r);
  }

  lemma NegatedMultiple(q: nat, x: int, y: int, a: int, s: int, b: int, neg: int, ch: int)
    requires q > 0 && Eq(q, x, a * s) && Eq(q, y, b * neg) && Eq(q, neg, -ch)
    ensures Eq(q, x + y, a * s - b * ch)
  {
    hide Eq;
    EqScale(q, b, neg, -ch);
    EqTrans(q, y, b * neg, b * -ch);
    EqAdd(q, x, a * s, y, b * -ch);
    assert a * s + b * -ch == a * s - b * ch;
  }

  /** The two commitments of a key come out of its responses. */
  lemma RecoveredCommitment(c: Curve, base: nat, secret: nat, r: nat, ch: nat)
    requires c.q > 0
    ensures var s, public_ := c.Modadd(c.Modmul(ch, secret), r), (base * secret) % c.q;
            ((base * s) % c.q + (public_ * c.Modneg(ch)) % c.q) % c.q == (base * r) % c.q
  {
    var q, s, public_, neg := c.q, c.Modadd(c.Modmul(ch, secret), r), (base * secret) % c.q, c.Modneg(ch);
    ResponseEq(c, ch, secret, r);
    EqMod(q, base * secret);
    Schnorr(q, base, secret, public_, r, ch, s);
    var x, y := (base * s) % q, (public_ * neg) % q;
    EqMod(q, base * s);
    EqMod(q, public_ * neg);
    EqMod(q, -(ch as int));
    NegatedMultiple(q, x, y, base, s, public_, neg, ch);
    hide Eq;
    EqTrans(q, x + y, base * s - public_ * ch, base * r);
    EqReduced(q, x + y, base * r);
  }

  /** A fresh key passes its own check unless the random base is the identity, and keeps its hash. */
  lemma IssuerKeyCompleteness(c: Curve, names: seq<string>, rnd: KeyRandomness)
    requires c.Ok() && |rnd.hAttrs| == |names|
    ensures var ipk := NewKey(c, names, rnd).ipk;
            && (KeyChecks(c, ipk) <==> rnd.barG1 % c.q != 0)
            && WithHash(c, ipk) == ipk
            && ipk.w.log == rnd.isk % c.q && NewKey(c, names, rnd).isk == rnd.isk && ipk.attributeNames == names
            && ipk.hSk.log == rnd.hSk % c.q && ipk.hRand.log == rnd.hRand % c.q && ipk.barG1.log == rnd.barG1 % c.q
            && |ipk.hAttrs| == |names| && (forall i | 0 <= i < |names| :: ipk.hAttrs[i].log == rnd.hAttrs[i] % c.q)
  {
    hide Curve.Add, Curve.Add2, Curve.Modneg, Curve.Modadd, Curve.Modmul, Curve.HashModOrder, ProofData, Eq;
    var ipk := NewKey(c, names, rnd).ipk;
    CommitmentsRecovered(c, ipk.barG1, rnd.isk, rnd.r, ipk.proofC);
    assert GEN_G1.log * rnd.barG1 == rnd.barG1 && GEN_G2.log * rnd.isk == rnd.isk;
    ReducedTwice(c.q, rnd.barG1);
  }

  lemma ReducedTwice(q: nat, a: int)
    requires q > 0
    ensures (a % q) % q == a % q
  {
    EqMod(q, a);
  }

  lemma CommitmentsRecovered(c: Curve, barG1: G1, isk: nat, r: nat, ch: nat)
    requires c.q > 0
    ensures var s, neg := c.Modadd(c.Modmul(ch, isk), r), c.Modneg(ch);
            && c.Add2(c.MulG2(GEN_G2, s), c.MulG2(c.MulG2(GEN_G2, isk), neg)) == c.MulG2(GEN_G2, r)
            && c.Add(c.Mul(barG1, s), c.Mul(c.Mul(barG1, isk), neg)) == c.Mul(barG1, r)
  {
    RecoveredCommitment(c, 1, isk, r, ch);
    RecoveredCommitment(c, barG1.log, isk, r, ch);
  }
}
