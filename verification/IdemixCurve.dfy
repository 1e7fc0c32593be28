/** The pairing groups that idemix computes in, and the buffers that it hashes (idemix/util.go). */
module IdemixCurve {
  import opened Modular

  newtype byte = b: int | 0 <= b < 256

  /** Points are given by their discrete logarithms with respect to GenG1, GenG2 and GenGT. */
  datatype G1 = G1(log: nat)
  datatype G2 = G2(log: nat)
  datatype GT = GT(log: nat)

  const GEN_G1 := G1(1)
  const GEN_G2 := G2(1)

  /**
   * What an operation does: return a value, return an error, panic on an index out of range, or not return at all.
   * The last happens when a number that is not invertible is to be inverted: the binary method halves a zero forever.
   */
  datatype Outcome<+T> = Ok(value: T) | Error | Panic | Diverges

  /** The issuer's public key. */
  datatype IssuerPublicKey = IssuerPublicKey(
    attributeNames: seq<string>, hSk: G1, hRand: G1, hAttrs: seq<G1>, w: G2, barG1: G1, barG2: G1,
    proofC: nat, proofS: nat, hash: seq<byte>)

  /** The curve library: group order, encodings, and the digest of a byte string as a number. */
  datatype Curve = Curve(
    q: nat,
    fieldBytes: nat,
    digest: seq<byte> -> nat,
    g1Bytes: G1 -> seq<byte>,
    g2Bytes: G2 -> seq<byte>,
    bigBytes: nat -> seq<byte>,
    marshal: IssuerPublicKey -> seq<byte>)
  {
    ghost predicate Ok() {
      && Prime(q)
      && (forall p :: |g1Bytes(p)| == 2 * fieldBytes + 1)
      && (forall p :: |g2Bytes(p)| == 4 * fieldBytes)
      && (forall b :: |bigBytes(b)| == fieldBytes)
    }

    function HashModOrder(data: seq<byte>): (h: nat)
      requires q > 0
      ensures h < q
    {
      digest(data) % q
    }

    function Add(a: G1, b: G1): (p: G1)
      requires q > 0
      ensures p.log < q
    {
      G1((a.log + b.log) % q)
    }

    function Sub(a: G1, b: G1): (p: G1)
      requires q > 0
      ensures p.log < q
    {
      G1((a.log - b.log) % q)
    }

    function Mul(a: G1, k: nat): (p: G1)
      requires q > 0
      ensures p.log < q
    {
      G1((a.log * k) % q)
    }

    function Mul2(a: G1, j: nat, b: G1, k: nat): (p: G1)
      requires q > 0
      ensures p.log < q
    {
      G1((a.log * j + b.log * k) % q)
    }

    function Add2(a: G2, b: G2): G2
      requires q > 0
    {
      G2((a.log + b.log) % q)
    }

    function MulG2(a: G2, k: nat): G2
      requires q > 0
    {
      G2((a.log * k) % q)
    }

    /** Fexp(Ate(a, b)) */
    function Pair(a: G2, b: G1): GT
      requires q > 0
    {
      GT((a.log * b.log) % q)
    }

    function Modadd(a: nat, b: nat): nat
      requires q > 0
    {
      (a + b) % q
    }

    function Modneg(a: nat): nat
      requires q > 0
    {
      (-(a as int)) % q
    }

    function Modmul(a: nat, b: nat): nat
      requires q > 0
    {
      (a * b) % q
    }

    function Modsub(a: nat, b: nat): nat
      requires q > 0
    {
      Modadd(a, Modneg(b))
    }
  }

  // ---------- Sums of multiples ----------

  /** The logarithm of bases[0]^exps[0] * ... * bases[n-1]^exps[n-1], not reduced. */
  function Dot(bases: seq<G1>, exps: seq<nat>, n: nat): nat
    requires n <= |bases| && n <= |exps|
  {
    if n == 0 then 0 else Dot(bases, exps, n - 1) + bases[n - 1].log * exps[n - 1]
  }

  /** The loop over pairs that credentials and signatures use: two factors at a time, then the odd one. */
  method AddPairs(c: Curve, start: G1, bases: seq<G1>, exps: seq<nat>) returns (p: G1)
    requires c.q > 0 && start.log < c.q && |bases| == |exps|
    ensures p == G1((start.log + Dot(bases, exps, |bases|)) % c.q)
  {
    p := start;
    var i := 0;
    while i < |bases| / 2
      invariant 0 <= i <= |bases| / 2
      invariant p.log == (start.log + Dot(bases, exps, 2 * i)) % c.q
    {
      var pair := c.Mul2(bases[2 * i], exps[2 * i], bases[2 * i + 1], exps[2 * i + 1]);
      DotPair(bases, exps, 2 * i);
      AddReduced(c.q, p.log, start.log + Dot(bases, exps, 2 * i),
                 bases[2 * i].log * exps[2 * i] + bases[2 * i + 1].log * exps[2 * i + 1]);
      p := c.Add(p, pair);
      i := i + 1;
    }
    if |bases| % 2 != 0 {
      var n := |bases| - 1;
      var single := c.Mul(bases[n], exps[n]);
      AddReduced(c.q, p.log, start.log + Dot(bases, exps, n), bases[n].log * exps[n]);
      p := c.Add(p, single);
    }
  }

  lemma DotPair(bases: seq<G1>, exps: seq<nat>, n: nat)
    requires n + 2 <= |bases| && n + 2 <= |exps|
    ensures Dot(bases, exps, n + 2) == Dot(bases, exps, n) + (bases[n].log * exps[n] + bases[n + 1].log * exps[n + 1])
  {
  }

  lemma AddReduced(q: nat, p: nat, s: int, m: int)
    requires q > 0 && p == s % q
    ensures (p + m % q) % q == (s + m) % q
  {
    EqMod(q, s);
    EqMod(q, m);
    EqAdd(q, p, s, m % q, m);
  }

  /** Dot is linear in the exponents, modulo q. */
  lemma {:induction false} DotLinear(q: nat, bases: seq<G1>, r: seq<nat>, a: seq<nat>, k: int, s: seq<nat>, n: nat)
    requires q > 0 && n <= |bases| && n <= |r| && n <= |a| && n <= |s|
    requires forall i | 0 <= i < n :: Eq(q, s[i], r[i] + k * a[i])
    ensures Eq(q, Dot(bases, s, n), Dot(bases, r, n) + k * Dot(bases, a, n))
  {
    if n > 0 {
      DotLinear(q, bases, r, a, k, s, n - 1);
      var h, x, y := bases[n - 1].log, r[n - 1], a[n - 1];
      EqMul(q, h, h, s[n - 1], x + k * y);
      assert h * (x + k * y) == h * x + k * (h * y);
      EqAdd(q, Dot(bases, s, n - 1), Dot(bases, r, n - 1) + k * Dot(bases, a, n - 1), h * s[n - 1], h * x
        + k * (h * y));
      var d := Dot(bases, a, n - 1);
      assert k * (d + h * y) == k * d + k * (h * y);
    }
  }

  // ---------- Hash buffers ----------

  /** s with b copied over it from position i on, as far as there is room: Go's copy(s[i:], b). */
  function Overwrite(s: seq<byte>, i: nat, b: seq<byte>): (t: seq<byte>)
    requires i <= |s|
    ensures |t| == |s|
  {
    var n := if |b| <= |s| - i then |b| else |s| - i;
    s[..i] + b[..n] + s[i + n..]
  }

  /** b cut or padded with zeros to n bytes. */
  function Fit(b: seq<byte>, n: nat): (t: seq<byte>)
    ensures |t| == n
  {
    if |b| >= n then b[..n] else b + Zeros(n - |b|)
  }

  function Zeros(n: nat): (t: seq<byte>)
    ensures |t| == n
  {
    seq(n, i => 0)
  }

  /** Two pieces written one after the other into a zeroed tail. */
  lemma OverwriteTail(s: seq<byte>, i: nat, a: seq<byte>, b: seq<byte>)
    requires i + |a| <= |s| && s[i..] == Zeros(|s| - i)
    ensures Overwrite(Overwrite(s, i, a), i + |a|, b) == s[..i] + Fit(a + b, |s| - i)
  {
    var t := Overwrite(s, i, a);
    assert t[i + |a|..] == s[i + |a|..];
    assert s[i + |a|..] == s[i..][|a|..];
    assert t[..i + |a|] == s[..i] + a;
  }

  method NewBuffer(n: nat) returns (data: array<byte>)
    ensures fresh(data) && data.Length == n && data[..] == Zeros(n)
  {
    data := new byte[n](i => 0);
  }

  /** copy(data[index:], bytes), which panics unless the index is in the buffer. */
  method Copy(data: array<byte>, index: nat, bytes: seq<byte>)
    requires index <= data.Length
    modifies data
    ensures data[..] == Overwrite(old(data[..]), index, bytes)
  {
    var n := if |bytes| <= data.Length - index then |bytes| else data.Length - index;
    forall i | 0 <= i < n {
      data[index + i] := bytes[i];
    }
  }

  /**
   * appendBytes, and with encoded points or numbers appendBytesG1, appendBytesG2 and appendBytesBig. What does not fit
   * is cut off, but the index returned counts it.
   */
  method AppendBytes(data: array<byte>, index: nat, bytes: seq<byte>) returns (next: nat)
    requires index <= data.Length
    modifies data
    ensures next == index + |bytes|
    ensures data[..] == Overwrite(old(data[..]), index, bytes)
    ensures next <= data.Length ==> data[..next] == old(data[..index]) + bytes
    ensures forall k | next <= k < data.Length :: data[k] == old(data[k])
  {
    Copy(data, index, bytes);
    next := index + |bytes|;
  }
}
