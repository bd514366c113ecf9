/** Numbers as sequences of 32-bit limbs, lowest first. */
module Limbs {
  import opened Powers
  import opened Arith

  const BITS := 32
  const BASE := 0x1_0000_0000

  type Limbs = seq<nat>

  ghost predicate AreLimbs(s: Limbs) {
    forall i :: 0 <= i < |s| ==> s[i] < BASE
  }

  /** The number that limbs stand for. */
  ghost function Val(s: Limbs): nat {
    if s == [] then 0 else s[0] + BASE * Val(s[1..])
  }

  lemma {:induction false} ValAppend(s: Limbs, x: nat)
    ensures Val(s + [x]) == Val(s) + x * Pow(BASE, |s|)
  {
    if s == [] {
      assert (s + [x])[1..] == [];
    } else {
      assert (s + [x])[1..] == s[1..] + [x];
      ValAppend(s[1..], x);
      Regroup(s[0], Val(s[1..]), x, Pow(BASE, |s| - 1));
    }
  }

  lemma Regroup(a: nat, v: nat, x: nat, p: nat)
    ensures a + BASE * (v + x * p) == a + BASE * v + x * (BASE * p)
  {
    assert BASE * (x * p) == x * (BASE * p);
  }

  lemma {:induction false} ValBound(s: Limbs)
    requires AreLimbs(s)
    ensures Val(s) < Pow(BASE, |s|)
  {
    if s != [] {
      ValBound(s[1..]);
      assert BASE * (Val(s[1..]) + 1) <= BASE * Pow(BASE, |s| - 1);
    }
  }

  lemma {:induction false} ValSplit(s: Limbs, n: nat)
    requires n <= |s|
    ensures Val(s) == Val(s[..n]) + Pow(BASE, n) * Val(s[n..])
  {
    if n == 0 {
      assert s[..0] == [] && s[0..] == s;
    } else {
      ValSplit(s[1..], n - 1);
      assert s[..n][0] == s[0] && s[..n][1..] == s[1..][..n - 1] && s[1..][n - 1..] == s[n..];
      var a, v, p, w := s[0], Val(s[..n][1..]), Pow(BASE, n - 1), Val(s[n..]);
      assert BASE * (v + p * w) == BASE * v + BASE * p * w by { Distribute(BASE, v, p, w); }
    }
  }

  lemma Distribute(b: nat, v: nat, p: nat, w: nat)
    ensures b * (v + p * w) == b * v + b * p * w
  {
    assert b * (p * w) == b * p * w;
  }

  lemma ValOne(x: nat)
    ensures Val([x]) == x
  {
    assert [x][1..] == [];
  }

  /** What is below a power is below what has a multiple of it. */
  lemma AbovePower(v: nat, p: nat, lo: nat, hi: nat)
    requires v < p && hi >= 1
    ensures v < lo + p * hi
  {
    MulGrows(1, hi, p);
    assert hi * p == p * hi;
  }

  lemma AboveMultiple(lo: nat, p: nat, x: nat, lo': nat, y: nat)
    requires lo < p && x < y
    ensures lo + p * x < lo' + p * y
  {
    MulGrows(x + 1, y, p);
    assert (x + 1) * p == p * x + p && y * p == p * y;
  }

  // ----- one limb of a product and of a quotient -----

  /** A limb of a product: what has been done is worth the product so far. */
  lemma MulStep(was: nat, done: nat, p: nat, x: nat, v: nat, carry: nat, d: nat, carry': nat)
    requires done + carry * p == was * v && d + carry' * BASE == x * v + carry
    ensures done + d * p + carry' * (BASE * p) == (was + x * p) * v
  {
    calc {
      done + d * p + carry' * (BASE * p);
      { assert carry' * (BASE * p) == carry' * BASE * p; }
      done + (d * p + carry' * BASE * p);
      { assert d * p + carry' * BASE * p == (d + carry' * BASE) * p; }
      done + (x * v + carry) * p;
      { assert (x * v + carry) * p == x * v * p + carry * p; }
      was * v + x * v * p;
      { assert x * v * p == x * p * v; assert (was + x * p) * v == was * v + x * p * v; }
      (was + x * p) * v;
    }
  }

  /** The same on the limbs: `done` is what became of the first limbs of `was`. */
  lemma MulLimb(was: Limbs, done: Limbs, i: nat, v: nat, carry: nat, d: nat, carry': nat)
    requires i < |was| && |done| == i && Val(done) + carry * Pow(BASE, i) == Val(was[..i]) * v
    requires d + carry' * BASE == was[i] * v + carry
    ensures Val(done + [d]) + carry' * Pow(BASE, i + 1) == Val(was[..i + 1]) * v
  {
    var x, p := was[i], Pow(BASE, i);
    ValAppend(done, d);
    ValAppend(was[..i], x);
    assert was[..i + 1] == was[..i] + [x];
    assert Pow(BASE, i + 1) == BASE * p;
    MulStep(Val(was[..i]), Val(done), p, x, v, carry, d, carry');
  }

  /** A limb of a quotient, from the highest down. */
  lemma DivStep(was: nat, quot: nat, r: nat, x: nat, v: nat, q: nat, r': nat)
    requires was == quot * v + r && q * v + r' == r * BASE + x
    ensures x + BASE * was == (q + BASE * quot) * v + r'
  {
    calc {
      x + BASE * was;
      { assert BASE * (quot * v + r) == BASE * quot * v + BASE * r; }
      x + BASE * quot * v + BASE * r;
      q * v + r' + BASE * quot * v;
      { assert (q + BASE * quot) * v == q * v + BASE * quot * v; }
      (q + BASE * quot) * v + r';
    }
  }

  lemma DivLimb(was: Limbs, i: nat, quot: Limbs, r: nat, v: nat, q: nat, r': nat)
    requires i < |was| && Val(was[i + 1..]) == Val(quot) * v + r && q * v + r' == r * BASE + was[i]
    ensures Val(was[i..]) == Val([q] + quot) * v + r'
  {
    assert was[i..][1..] == was[i + 1..] && ([q] + quot)[1..] == quot;
    DivStep(Val(was[i + 1..]), Val(quot), r, was[i], v, q, r');
  }

  /** A digit of a quotient fits a limb while the remainder is below the divisor. */
  lemma DivFits(r: nat, x: nat, v: nat)
    requires r < v && x < BASE
    ensures (r * BASE + x) / v < BASE
  {
    MulGrows(r + 1, v, BASE);
    var t := r * BASE + x;
    assert t < v * BASE;
    var q := t / v;
    assert t == q * v + t % v;
    if q >= BASE { MulGrows(BASE, q, v); }
  }

  lemma DivUnique(t: nat, v: nat, q: nat, r: nat)
    requires v > 0 && t == q * v + r && r < v
    ensures t / v == q && t % v == r
  {
    DivIs(t, v, q);
  }

  /** A number is zero if all its limbs are. */
  lemma {:induction false} ValZeros(s: Limbs)
    ensures Val(s) == 0 <==> forall i :: 0 <= i < |s| ==> s[i] == 0
  {
    if s != [] {
      ValZeros(s[1..]);
      assert forall i :: 0 <= i < |s| - 1 ==> s[1..][i] == s[i + 1];
      if forall i :: 0 <= i < |s[1..]| ==> s[1..][i] == 0 {
        assert forall i :: 1 <= i < |s| ==> s[i] == s[1..][i - 1];
      }
    }
  }

  // ----- shifting one limb -----

  lemma BaseIsPow()
    ensures Pow(2, BITS) == BASE
  {
    PowAdd(2, 8, 8);
    PowAdd(2, 16, 16);
    assert Pow(2, 8) == 256;
  }

  lemma PowBits(s: nat)
    requires s <= BITS
    ensures Pow(2, s) * Pow(2, BITS - s) == BASE && Pow(2, s) > 0 && Pow(2, BITS - s) > 0
  {
    PowAdd(2, s, BITS - s);
    BaseIsPow();
    PowPositive(2, s);
    PowPositive(2, BITS - s);
  }

  /** The low part of a limb moved up, and the bits that leave it. */
  lemma ShiftUp(x: nat, a: nat, k: nat)
    requires a > 0 && k > 0 && a * k == BASE && x < BASE
    ensures x * a == x / k * BASE + x % k * a && x % k * a <= BASE - a && x / k < a
    ensures x * a % BASE == x % k * a
  {
    var q, r := x / k, x % k;
    assert x == q * k + r;
    assert x * a == q * (a * k) + r * a by {
      assert (q * k + r) * a == q * k * a + r * a;
      assert q * k * a == q * (a * k);
    }
    MulGrows(r, k - 1, a);
    assert (k - 1) * a == BASE - a;
    DivUnique(x * a, BASE, q, r * a);
    if q >= a { MulGrows(a, q, k); }
  }

  /** The high part of a limb moved down, below the bits that came from the limb above. */
  lemma ShiftDown(x: nat, a: nat, k: nat, r: nat)
    requires a > 0 && k > 0 && a * k == BASE && x < BASE && r < a
    ensures x / a < k && (x / a + r * k) * a + x % a == r * BASE + x
  {
    var q := x / a;
    assert x == q * a + x % a;
    assert (q + r * k) * a == q * a + r * (a * k) by {
      assert (q + r * k) * a == q * a + r * k * a;
      assert r * k * a == r * (a * k);
    }
    if q >= k { MulGrows(k, q, a); }
  }

  lemma DownLimb(x: nat, a: nat, k: nat, r: nat) returns (e: nat)
    requires a > 0 && k > 0 && a * k == BASE && x < BASE && r < a
    ensures e == r * k + x / a && x / a < k && e < BASE && e * a + x % a == r * BASE + x
  {
    ShiftDown(x, a, k, r);
    MulGrows(r + 1, a, k);
    e := r * k + x / a;
  }

  /** Two divisions in a row leave one remainder. */
  lemma Remainders(was: nat, mid: nat, now: nat, p: nat, a: nat, r: nat, r': nat)
    requires was == mid * p + r && r < p && mid == now * a + r' && r' < a
    ensures was == now * (a * p) + (r' * p + r) && r' * p + r < a * p
  {
    assert (now * a + r') * p == now * (a * p) + r' * p by { assert now * a * p == now * (a * p); }
    MulGrows(r' + 1, a, p);
  }

  lemma PowLimb(s: nat)
    requires s <= BITS
    ensures 0 < Pow(2, s) <= BASE
  {
    PowBits(s);
    MulGrows(1, Pow(2, BITS - s), Pow(2, s));
  }

  lemma PowTimes(v: nat, m: nat, n: nat)
    ensures v * Pow(2, m) * Pow(2, n) == v * Pow(2, m + n)
  {
    PowAdd(2, m, n);
    assert v * Pow(2, m) * Pow(2, n) == v * (Pow(2, m) * Pow(2, n));
  }

  lemma PowRemainders(was: nat, mid: nat, now: nat, m: nat, s: nat, r: nat, r': nat) returns (rest: nat)
    requires was == mid * Pow(2, m) + r && r < Pow(2, m) && mid == now * Pow(2, s) + r' && r' < Pow(2, s)
    ensures was == now * Pow(2, s + m) + rest && rest < Pow(2, s + m)
  {
    PowAdd(2, s, m);
    Remainders(was, mid, now, Pow(2, m), Pow(2, s), r, r');
    rest := r' * Pow(2, m) + r;
  }
}
