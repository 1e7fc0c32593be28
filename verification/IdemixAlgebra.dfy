/** The congruences behind the proof of knowledge of a BBS+ signature (section 4.5 of IACR ePrint 2016/663). */
module IdemixAlgebra {
  import opened Modular

  /** t1: A'^s_e * h_r^s_r2 / (ABar / B')^c is A'^r_e * h_r^r_r2. */
  lemma FirstCommitment(q: nat, a': int, e: int, re: int, se: int, hr: int, r2: int, rr2: int, sr2: int,
                        ch: int, b: int, aBar: int, b': int)
    requires q > 0
    requires Eq(q, se, re - ch * e) && Eq(q, sr2, rr2 + ch * r2)
    requires Eq(q, aBar, b - a' * e) && Eq(q, b', b - hr * r2)
    ensures Eq(q, a' * se + hr * sr2 - (aBar - b') * ch, a' * re + hr * rr2)
  {
    hide Eq;
    EqScale(q, a', se, re - ch * e);
    EqScale(q, hr, sr2, rr2 + ch * r2);
    EqAdd(q, a' * se, a' * (re - ch * e), hr * sr2, hr * (rr2 + ch * r2));
    EqSub(q, aBar, b - a' * e, b', b - hr * r2);
    assert b - a' * e - (b - hr * r2) == hr * r2 - a' * e;
    EqScale(q, ch, aBar - b', hr * r2 - a' * e);
    EqSub(q, a' * se + hr * sr2, a' * (re - ch * e) + hr * (rr2 + ch * r2), ch * (aBar - b'), ch * (hr * r2 - a' * e));
    assert a' * (re - ch * e) == a' * re - ch * (a' * e);
    assert hr * (rr2 + ch * r2) == hr * rr2 + ch * (hr * r2);
    assert ch * (hr * r2 - a' * e) == ch * (hr * r2) - ch * (a' * e);
  }

  /** What the responses of t2 add to the commitment vanishes: the credential says so, and r1 * r3 = 1. */
  lemma SecondRemainder(q: nat, hr: int, s: int, r2: int, r3: int, s': int, hsk: int, sk: int,
                        r1: int, b: int, b': int, dh: int, dd: int)
    requires q > 0
    requires Eq(q, s', s - r2 * r3) && Eq(q, b', b * r1 - hr * r2) && Eq(q, r1 * r3, 1)
    requires Eq(q, b, 1 + hsk * sk + hr * s + (dh + dd))
    ensures Eq(q, hr * s' - b' * r3 + hsk * sk + dh + (1 + dd), 0)
  {
    hide Eq;
    EqScale(q, hr, s', s - r2 * r3);
    EqScale(q, r3, b', b * r1 - hr * r2);
    EqSub(q, hr * s', hr * (s - r2 * r3), r3 * b', r3 * (b * r1 - hr * r2));
    EqScale(q, b, r1 * r3, 1);
    assert hr * (s - r2 * r3) == hr * s - hr * (r2 * r3);
    assert r3 * (b * r1 - hr * r2) == b * (r1 * r3) - hr * (r2 * r3);
    var m := hsk * sk + dh + (1 + dd);
    EqRefl(q, m);
    EqAdd(q, hr * s' - r3 * b', hr * s - b * (r1 * r3), m, m);
    EqSub(q, b, 1 + hsk * sk + hr * s + (dh + dd), b * (r1 * r3), b * 1);
    EqSym(q, b, 1 + hsk * sk + hr * s + (dh + dd));
    EqSub(q, 1 + hsk * sk + hr * s + (dh + dd), b, b * (r1 * r3), b * 1);
    assert 1 + hsk * sk + hr * s + (dh + dd) - b * (r1 * r3) == hr * s - b * (r1 * r3) + m;
    assert b - b * 1 == 0;
    EqTrans(q, hr * s' - r3 * b' + m, hr * s - b * (r1 * r3) + m, 0);
    assert b' * r3 == r3 * b';
  }

  /** t2: the verifier's product, challenge part included, is the commitment. */
  lemma SecondCommitment(q: nat, hr: int, s': int, rs: int, ss: int, b': int, r3: int, rr3: int, sr3: int,
                         hsk: int, sk: int, rsk: int, ssk: int, ch: int, dh: int, dr: int, ds: int, dd: int)
    requires q > 0
    requires Eq(q, ss, rs + ch * s') && Eq(q, sr3, rr3 - ch * r3) && Eq(q, ssk, rsk + ch * sk)
    requires Eq(q, ds, dr + ch * dh)
    requires Eq(q, hr * s' - b' * r3 + hsk * sk + dh + (1 + dd), 0)
    ensures Eq(q, hr * ss + (b' * sr3 + hsk * ssk) + ds + (1 + dd) * ch, hr * rs + (b' * rr3 + hsk * rsk) + dr)
  {
    hide Eq;
    EqScale(q, hr, ss, rs + ch * s');
    EqScale(q, b', sr3, rr3 - ch * r3);
    EqScale(q, hsk, ssk, rsk + ch * sk);
    EqAdd(q, b' * sr3, b' * (rr3 - ch * r3), hsk * ssk, hsk * (rsk + ch * sk));
    EqAdd(q, hr * ss, hr * (rs + ch * s'), b' * sr3 + hsk * ssk, b' * (rr3 - ch * r3) + hsk * (rsk + ch * sk));
    EqAdd(q, hr * ss + (b' * sr3 + hsk * ssk), hr * (rs + ch * s') + (b' * (rr3 - ch * r3) + hsk * (rsk + ch * sk)),
          ds, dr + ch * dh);
    var rem := hr * s' - b' * r3 + hsk * sk + dh + (1 + dd);
    EqRefl(q, (1 + dd) * ch);
    EqAdd(q, hr * ss + (b' * sr3 + hsk * ssk) + ds,
          hr * (rs + ch * s') + (b' * (rr3 - ch * r3) + hsk * (rsk + ch * sk))
            + (dr + ch * dh), (1 + dd) * ch, (1 + dd) * ch);
    var goal := hr * rs + (b' * rr3 + hsk * rsk) + dr;
    SecondExpansion(hr, s', rs, b', r3, rr3, hsk, sk, rsk, ch, dh, dr, dd);
    EqScale(q, ch, rem, 0);
    EqRefl(q, goal);
    EqAdd(q, goal, goal, ch * rem, ch * 0);
    EqTrans(q, hr * ss + (b' * sr3 + hsk * ssk) + ds + (1 + dd) * ch, goal + ch * rem, goal);
  }

  lemma SecondExpansion(hr: int, s': int, rs: int, b': int, r3: int, rr3: int,
                        hsk: int, sk: int, rsk: int, ch: int, dh: int, dr: int, dd: int)
    ensures hr * (rs + ch * s') + (b' * (rr3 - ch * r3) + hsk * (rsk + ch * sk)) + (dr + ch * dh) + (1 + dd) * ch
            == hr * rs + (b' * rr3 + hsk * rsk) + dr + ch * (hr * s' - b' * r3 + hsk * sk + dh + (1 + dd))
  {
    assert hr * (rs + ch * s') == hr * rs + ch * (hr * s');
    assert b' * (rr3 - ch * r3) == b' * rr3 - ch * (b' * r3);
    assert hsk * (rsk + ch * sk) == hsk * rsk + ch * (hsk * sk);
    var u, v, w := hr * s', b' * r3, hsk * sk;
    assert ch * (u - v + w + dh + (1 + dd)) == ch * u - ch * v + ch * w + ch * dh + (1 + dd) * ch;
  }

  /** t3: h_sk^s_sk * h_r^s_rnym / Nym^c is h_sk^r_sk * h_r^r_rnym. */
  lemma ThirdCommitment(q: nat, hsk: int, sk: int, rsk: int, ssk: int, hr: int, rn: int, rrn: int, srn: int, nym: int,
                        ch: int)
    requires q > 0
    requires Eq(q, ssk, rsk + ch * sk) && Eq(q, srn, rrn + ch * rn) && Eq(q, nym, hsk * sk + hr * rn)
    ensures Eq(q, hsk * ssk + hr * srn - nym * ch, hsk * rsk + hr * rrn)
  {
    hide Eq;
    EqScale(q, hsk, ssk, rsk + ch * sk);
    EqScale(q, hr, srn, rrn + ch * rn);
    EqAdd(q, hsk * ssk, hsk * (rsk + ch * sk), hr * srn, hr * (rrn + ch * rn));
    EqScale(q, ch, nym, hsk * sk + hr * rn);
    EqSub(q, hsk * ssk + hr * srn, hsk * (rsk + ch * sk) + hr * (rrn + ch * rn), ch * nym, ch * (hsk * sk + hr * rn));
    assert hsk * (rsk + ch * sk) == hsk * rsk + ch * (hsk * sk);
    assert hr * (rrn + ch * rn) == hr * rrn + ch * (hr * rn);
    assert ch * (hsk * sk + hr * rn) == ch * (hsk * sk) + ch * (hr * rn);
  }

  /** e(w, A') == e(g2, ABar) for a randomised credential. */
  lemma RandomisedPairing(q: nat, w: int, x: int, a: int, e: int, b: int, r1: int, a': int, aBar: int)
    requires q > 0
    requires Eq(q, w, x) && Eq(q, a', a * r1) && Eq(q, aBar, b * r1 - a' * e) && Eq(q, a * (e + x), b)
    ensures Eq(q, w * a', aBar)
  {
    hide Eq;
    EqMul(q, w, x, a', a * r1);
    EqScale(q, e, a', a * r1);
    EqRefl(q, b * r1);
    EqSub(q, b * r1, b * r1, e * a', e * (a * r1));
    EqTrans(q, aBar, b * r1 - a' * e, b * r1 - e * (a * r1));
    EqScale(q, r1, a * (e + x), b);
    EqRefl(q, e * (a * r1));
    EqSub(q, r1 * (a * (e + x)), r1 * b, e * (a * r1), e * (a * r1));
    assert r1 * (a * (e + x)) == e * (a * r1) + x * (a * r1);
    EqTrans(q, w * a', x * (a * r1), b * r1 - e * (a * r1));
    EqSym(q, aBar, b * r1 - e * (a * r1));
    EqTrans(q, w * a', b * r1 - e * (a * r1), aBar);
  }
}
