/** The congruences behind extracting secrets from two answers to one commitment. */
module IdemixExtraction {
  import opened Modular

  // ---------- Secrets ----------

  /** An inverse of the difference of two challenges. */
  lemma ChallengeInverse(q: nat, c1: nat, c2: nat) returns (d: nat, k: nat)
    requires Prime(q) && !Eq(q, c1, c2)
    ensures Eq(q, c1, c2 + d) && Eq(q, d * k, 1)
  {
    d := (c1 - c2) % q;
    EqMod(q, c1 - c2);
    EqRefl(q, c2);
    EqAdd(q, c2, c2, d, c1 - c2);
    EqSym(q, c2 + d, c1);
    assert d % q != 0 by {
      if Eq(q, d, 0) {
        EqAdd(q, c2, c2, d, 0);
        EqTrans(q, c1, c2 + d, c2);
      }
    }
    k := Inverse(q, d);
    InverseIsInverse(q, d);
  }

  /** The secret behind two responses: (s1 - s2) / d. */
  function Secret(q: nat, s1: int, s2: int, k: nat): (x: nat)
    requires q > 0
    ensures x < q
  {
    ((s1 - s2) * k) % q
  }

  lemma SecretDivides(q: nat, s1: int, s2: int, d: nat, k: nat)
    requires q > 0 && Eq(q, d * k, 1)
    ensures Eq(q, s1 - s2, d * Secret(q, s1, s2, k))
  {
    hide Eq;
    var x := Secret(q, s1, s2, k);
    EqMod(q, (s1 - s2) * k);
    EqScale(q, d, x, (s1 - s2) * k);
    EqScale(q, s1 - s2, d * k, 1);
    assert d * ((s1 - s2) * k) == (s1 - s2) * (d * k);
    EqTrans(q, d * x, (s1 - s2) * (d * k), (s1 - s2) * 1);
    EqSym(q, d * x, (s1 - s2) * 1);
  }

  lemma SecretPlus(q: nat, s1: nat, s2: nat, d: nat, k: nat)
    requires q > 0 && Eq(q, d * k, 1)
    ensures Eq(q, s1, s2 + d * Secret(q, s1, s2, k))
  {
    hide Eq;
    SecretDivides(q, s1, s2, d, k);
    EqRefl(q, s2);
    EqAdd(q, s2, s2, s1 - s2, d * Secret(q, s1, s2, k));
  }

  lemma SecretMinus(q: nat, s1: nat, s2: nat, d: nat, k: nat)
    requires q > 0 && Eq(q, d * k, 1)
    ensures Eq(q, s1, s2 - d * Secret(q, s2, s1, k))
  {
    hide Eq;
    SecretDivides(q, s2, s1, d, k);
    EqRefl(q, s2);
    EqSub(q, s2, s2, s2 - s1, d * Secret(q, s2, s1, k));
  }

  /** The difference of two responses is zero exactly when the secret is. */
  lemma SecretZeroIff(q: nat, s: nat, t: nat, d: nat, k: nat)
    requires q > 0 && Eq(q, d * k, 1)
    ensures Eq(q, Secret(q, t, s, k), 0) <==> Eq(q, s, t)
  {
    hide Eq, Secret;
    var r := Secret(q, t, s, k);
    SecretMinus(q, s, t, d, k);
    EqRefl(q, t);
    EqRefl(q, 0);
    if Eq(q, r, 0) {
      EqScale(q, d, r, 0);
      EqSub(q, t, t, d * r, d * 0);
      assert t - d * 0 == t;
      EqTrans(q, s, t - d * r, t);
    }
    if Eq(q, s, t) {
      var minus := -(r as int);
      assert t - d * r == t + d * minus;
      Cancelled(q, s, t, d, k, minus);
      EqSub(q, 0, 0, minus, 0);
    }
  }

  /** Where two commitments agree, what the challenges' difference multiplies is zero. */
  lemma Cancelled(q: nat, l1: int, l2: int, d: nat, k: nat, x: int)
    requires q > 0 && Eq(q, d * k, 1) && Eq(q, l1, l2) && Eq(q, l1, l2 + d * x)
    ensures Eq(q, x, 0)
  {
    hide Eq;
    EqRefl(q, l2);
    EqSym(q, l1, l2 + d * x);
    EqTrans(q, l2 + d * x, l1, l2);
    EqSub(q, l2 + d * x, l2, l2, l2);
    EqScale(q, k, l2 + d * x - l2, l2 - l2);
    assert k * (l2 + d * x - l2) == x * (d * k) && k * (l2 - l2) == 0;
    EqScale(q, x, d * k, 1);
    EqSym(q, x * (d * k), x * 1);
    EqTrans(q, x * 1, x * (d * k), 0);
  }

  /** Two responses to one Schnorr commitment reveal the exponent. */
  lemma SchnorrExtraction(q: nat, base: int, public_: int, s1: nat, s2: nat, c1: nat, c2: nat, d: nat, k: nat)
    requires q > 0 && Eq(q, d * k, 1) && Eq(q, c1, c2 + d)
    requires Eq(q, base * s1 - public_ * c1, base * s2 - public_ * c2)
    ensures Eq(q, public_, base * Secret(q, s1, s2, k))
  {
    hide Eq, Secret;
    var x := Secret(q, s1, s2, k);
    SecretPlus(q, s1, s2, d, k);
    EqScale(q, base, s1, s2 + d * x);
    EqScale(q, public_, c1, c2 + d);
    EqSub(q, base * s1, base * (s2 + d * x), public_ * c1, public_ * (c2 + d));
    assert base * (s2 + d * x) - public_ * (c2 + d) == base * s2 - public_ * c2 + d * (base * x - public_);
    Cancelled(q, base * s1 - public_ * c1, base * s2 - public_ * c2, d, k, base * x - public_);
    EqRefl(q, public_);
    EqAdd(q, base * x - public_, 0, public_, public_);
    EqSym(q, base * x, public_);
  }

  lemma SameCommitment(q: nat, t: int, a: int, b: int)
    requires q > 0 && Eq(q, t, a) && Eq(q, t, b)
    ensures Eq(q, a, b)
  {
  }

  // ---------- The three commitments of a signature ----------

  /** t1 reveals e and r2: ABar / B' is A'^-e * h_r^r2. */
  lemma FirstExtraction(q: nat, a': int, hr: int, diff: int, se1: int, se2: int, sr1: int, sr2: int, c1: int, c2: int,
                        d: nat, k: nat, e: int, r2: int)
    requires q > 0 && Eq(q, d * k, 1) && Eq(q, c1, c2 + d)
    requires Eq(q, se1, se2 - d * e) && Eq(q, sr1, sr2 + d * r2)
    requires Eq(q, a' * se1 + hr * sr1 - diff * c1, a' * se2 + hr * sr2 - diff * c2)
    ensures Eq(q, hr * r2 - a' * e - diff, 0)
  {
    hide Eq;
    EqScale(q, a', se1, se2 - d * e);
    EqScale(q, hr, sr1, sr2 + d * r2);
    EqScale(q, diff, c1, c2 + d);
    EqAdd(q, a' * se1, a' * (se2 - d * e), hr * sr1, hr * (sr2 + d * r2));
    EqSub(q, a' * se1 + hr * sr1, a' * (se2 - d * e) + hr * (sr2 + d * r2), diff * c1, diff * (c2 + d));
    FirstOverlap(a', hr, diff, se2, sr2, c2, d, e, r2);
    Cancelled(q, a' * se1 + hr * sr1 - diff * c1, a' * se2 + hr * sr2 - diff * c2, d, k, hr * r2 - a' * e - diff);
  }

  lemma FirstOverlap(a': int, hr: int, diff: int, se: int, sr: int, ch: int, d: int, e: int, r2: int)
    ensures a' * (se - d * e) + hr * (sr + d * r2) - diff * (ch + d)
            == a' * se + hr * sr - diff * ch + d * (hr * r2 - a' * e - diff)
  {
    assert a' * (se - d * e) == a' * se - d * (a' * e);
    assert hr * (sr + d * r2) == hr * sr + d * (hr * r2);
    assert diff * (ch + d) == diff * ch + d * diff;
    var u, v := a' * e, hr * r2;
    assert d * (v - u - diff) == d * v - d * u - d * diff;
  }

  /** t2 reveals the secret key, the hidden attributes, s' and r3. */
  lemma SecondExtraction(q: nat, hr: int, b': int, hsk: int, g: int, s1: int, s2: int, r1: int, r2: int, k1: int,
                         k2: int, d1: int, d2: int, c1: int, c2: int, d: nat, k: nat, s': int, r3: int, sk: int,
                         dh: int)
    requires q > 0 && Eq(q, d * k, 1) && Eq(q, c1, c2 + d)
    requires Eq(q, s1, s2 + d * s') && Eq(q, r1, r2 - d * r3) && Eq(q, k1, k2 + d * sk) && Eq(q, d1, d2 + d * dh)
    requires Eq(q, hr * s1 + (b' * r1 + hsk * k1) + d1 + g * c1, hr * s2 + (b' * r2 + hsk * k2) + d2 + g * c2)
    ensures Eq(q, hr * s' - b' * r3 + hsk * sk + dh + g, 0)
  {
    hide Eq;
    EqScale(q, hr, s1, s2 + d * s');
    EqScale(q, b', r1, r2 - d * r3);
    EqScale(q, hsk, k1, k2 + d * sk);
    EqScale(q, g, c1, c2 + d);
    EqAdd(q, b' * r1, b' * (r2 - d * r3), hsk * k1, hsk * (k2 + d * sk));
    EqAdd(q, hr * s1, hr * (s2 + d * s'), b' * r1 + hsk * k1, b' * (r2 - d * r3) + hsk * (k2 + d * sk));
    EqAdd(q, hr * s1 + (b' * r1 + hsk * k1), hr * (s2 + d * s') + (b' * (r2 - d * r3) + hsk * (k2 + d * sk)),
          d1, d2 + d * dh);
    EqAdd(q, hr * s1 + (b' * r1 + hsk * k1) + d1,
          hr * (s2 + d * s') + (b' * (r2 - d * r3) + hsk * (k2 + d * sk)) + (d2 + d * dh), g * c1, g * (c2 + d));
    SecondOverlap(hr, b', hsk, g, s2, r2, k2, d2, c2, d, s', r3, sk, dh);
    Cancelled(q, hr * s1 + (b' * r1 + hsk * k1) + d1 + g * c1, hr * s2 + (b' * r2 + hsk * k2) + d2 + g * c2, d, k,
              hr * s' - b' * r3 + hsk * sk + dh + g);
  }

  lemma SecondOverlap(hr: int, b': int, hsk: int, g: int, s: int, r: int, k: int, ds: int, ch: int, d: int,
                      s': int, r3: int, sk: int, dh: int)
    ensures hr * (s + d * s') + (b' * (r - d * r3) + hsk * (k + d * sk)) + (ds + d * dh) + g * (ch + d)
            == hr * s + (b' * r + hsk * k) + ds + g * ch + d * (hr * s' - b' * r3 + hsk * sk + dh + g)
  {
    assert hr * (s + d * s') == hr * s + d * (hr * s');
    assert b' * (r - d * r3) == b' * r - d * (b' * r3);
    assert hsk * (k + d * sk) == hsk * k + d * (hsk * sk);
    assert g * (ch + d) == g * ch + d * g;
    var u, v, w := hr * s', b' * r3, hsk * sk;
    assert d * (u - v + w + dh + g) == d * u - d * v + d * w + d * dh + d * g;
  }

  /** t3 reveals the randomness of the pseudonym. */
  lemma ThirdExtraction(q: nat, hsk: int, hr: int, nym: int, k1: int, k2: int, n1: int, n2: int, c1: int, c2: int,
                        d: nat, k: nat, sk: int, rn: int)
    requires q > 0 && Eq(q, d * k, 1) && Eq(q, c1, c2 + d)
    requires Eq(q, k1, k2 + d * sk) && Eq(q, n1, n2 + d * rn)
    requires Eq(q, hsk * k1 + hr * n1 - nym * c1, hsk * k2 + hr * n2 - nym * c2)
    ensures Eq(q, nym, hsk * sk + hr * rn)
  {
    hide Eq;
    EqScale(q, hsk, k1, k2 + d * sk);
    EqScale(q, hr, n1, n2 + d * rn);
    EqScale(q, nym, c1, c2 + d);
    EqAdd(q, hsk * k1, hsk * (k2 + d * sk), hr * n1, hr * (n2 + d * rn));
    EqSub(q, hsk * k1 + hr * n1, hsk * (k2 + d * sk) + hr * (n2 + d * rn), nym * c1, nym * (c2 + d));
    var u, v := hsk * sk, hr * rn;
    assert hsk * (k2 + d * sk) == hsk * k2 + d * u && hr * (n2 + d * rn) == hr * n2 + d * v;
    assert nym * (c2 + d) == nym * c2 + d * nym;
    assert d * (u + v - nym) == d * u + d * v - d * nym;
    Cancelled(q, hsk * k1 + hr * n1 - nym * c1, hsk * k2 + hr * n2 - nym * c2, d, k, u + v - nym);
    EqRefl(q, nym);
    EqAdd(q, u + v - nym, 0, nym, nym);
    EqSym(q, u + v, nym);
  }

  // ---------- The credential ----------

  /** From t2, the message that is signed: (B' * h_r^r2)^r3, with s' + r2 * r3. */
  lemma MessageFromParts(q: nat, b': int, hr: int, hsk: int, r2: int, r3: int, s': int, sk: int, m: int)
    requires q > 0 && Eq(q, hr * s' - b' * r3 + hsk * sk + m, 0)
    ensures Eq(q, (b' + hr * r2) * r3, m + hsk * sk + hr * (s' + r2 * r3))
  {
    hide Eq;
    var t := r2 * r3;
    var u, v, w := hr * s', hr * t, b' * r3;
    EqRefl(q, w + v);
    EqAdd(q, u - w + hsk * sk + m, 0, w + v, w + v);
    assert hr * (s' + t) == u + v;
    assert (b' + hr * r2) * r3 == w + v by {
      assert (hr * r2) * r3 == hr * t;
    }
    EqSym(q, m + hsk * sk + (u + v), w + v);
  }

  /** From t1 and the pairing, the signature: A'^r3. */
  lemma SignatureFromParts(q: nat, a': int, aBar: int, b': int, hr: int, w: int, x: int, e: int, r2: int, r3: int)
    requires q > 0 && Eq(q, w, x) && Eq(q, w * a', aBar) && Eq(q, hr * r2 - a' * e - (aBar - b'), 0)
    ensures Eq(q, (a' * r3) * (e + x), (b' + hr * r2) * r3)
  {
    hide Eq;
    var u, v, y := a' * e, hr * r2, a' * x;
    EqScale(q, a', w, x);
    assert a' * w == w * a';
    EqSym(q, w * a', y);
    EqTrans(q, y, w * a', aBar);
    EqRefl(q, u);
    EqAdd(q, u, u, y, aBar);
    EqRefl(q, u + aBar);
    EqAdd(q, v - u - (aBar - b'), 0, u + aBar, u + aBar);
    EqSym(q, v + b', u + aBar);
    EqTrans(q, u + y, u + aBar, v + b');
    EqScale(q, r3, u + y, v + b');
    Regroup(a', e, x, r3, b', v);
  }

  lemma Regroup(a': int, e: int, x: int, r3: int, b': int, v: int)
    ensures (a' * r3) * (e + x) == r3 * (a' * e + a' * x)
    ensures (b' + v) * r3 == r3 * (v + b')
  {
    var y := e + x;
    assert a' * y == a' * e + a' * x;
    assert (a' * r3) * y == r3 * (a' * y);
  }

  lemma ReducedMessage(q: nat, b: int, m: int, hr: int, s: int)
    requires q > 0 && Eq(q, b, m + hr * s)
    ensures Eq(q, b % q, m + hr * (s % q))
  {
    EqMod(q, b);
    EqMod(q, s);
    hide Eq;
    EqScale(q, hr, s % q, s);
    EqRefl(q, m);
    EqAdd(q, m, m, hr * (s % q), hr * s);
    EqSym(q, m + hr * (s % q), m + hr * s);
    EqTrans(q, b % q, b, m + hr * s);
    EqTrans(q, b % q, m + hr * s, m + hr * (s % q));
  }

  lemma ReducedSignature(q: nat, a: int, y: int, b: int)
    requires q > 0 && Eq(q, a * y, b)
    ensures Eq(q, (a % q) * y, b % q)
  {
    EqMod(q, a);
    EqMod(q, b);
    EqSym(q, b % q, b);
    hide Eq;
    EqRefl(q, y);
    EqMul(q, a % q, a, y, y);
    EqTrans(q, (a % q) * y, a * y, b);
    EqTrans(q, (a % q) * y, b, b % q);
  }
}
