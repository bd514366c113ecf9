/** struct bigdouble of libphoenix/stdio/format.c: a double as an exact binary fraction. */
module BigDouble {
  import opened Powers
  import opened Arith
  import opened BitWord
  import opened Limbs
  import opened Bignum

  const EXP_SHIFT := 52

  /** A finite double that is not negative, by the bits of its fields. */
  datatype Double = Double(exponent: nat, mantissa: nat) {
    ghost predicate Valid() {
      exponent < 0x7ff && mantissa < Pow(2, EXP_SHIFT)
    }

    /** The significand with its hidden bit. */
    function Significand(): nat {
      if exponent == 0 then mantissa else mantissa + Pow(2, EXP_SHIFT)
    }

    /** The exponent without its bias. */
    function Exponent(): int {
      if exponent == 0 then -1022 else exponent - 1023
    }

    /** The value in units of 2^-1074, the least double above zero. */
    function Units(): nat
      requires exponent < 0x7ff
    {
      Significand() * Pow(2, Exponent() + 1022)
    }
  }

  // ----- which numbers the doubles are -----

  /** A number of 63 bits read as a double that is not negative. */
  function OfBits(n: nat): Double {
    PowPositive(2, EXP_SHIFT);
    Double(n / Pow(2, EXP_SHIFT), n % Pow(2, EXP_SHIFT))
  }

  /** Zero, the least double above it, and one. */
  lemma SomeDoubles()
    ensures Double(0, 0).Units() == 0 && Double(0, 1).Units() == 1 && Double(1023, 0).Units() == Pow(2, 1074)
  {
    PowAdd(2, EXP_SHIFT, 1022);
    assert Pow(2, 0) == 1;
  }

  /** The next double in the order of the bits is a unit of its binade away: units double from one
      exponent to the next, from 1 on. */
  lemma NextDouble(n: nat)
    requires OfBits(n).exponent < 0x7ff && OfBits(n + 1).exponent < 0x7ff
    ensures OfBits(n + 1).Units() == OfBits(n).Units() + Spacing(OfBits(n).exponent)
  {
    var d := OfBits(n);
    NextBits(n);
    if OfBits(n + 1).exponent == d.exponent {
      OneMoreTimes(d.Significand(), Spacing(d.exponent));
    } else {
      Doubled(Pow(2, EXP_SHIFT), Spacing(d.exponent));
    }
  }

  function Spacing(exponent: nat): nat { Pow(2, if exponent == 0 then 0 else exponent - 1) }

  /** The mantissa counts up, and then the exponent. */
  lemma NextBits(n: nat)
    ensures var d := OfBits(n);
      OfBits(n + 1) == Double(d.exponent, d.mantissa + 1)
      || (OfBits(n + 1) == Double(d.exponent + 1, 0) && d.mantissa + 1 == Pow(2, EXP_SHIFT))
  {
    PowPositive(2, EXP_SHIFT);
    NextParts(n, Pow(2, EXP_SHIFT));
  }

  lemma NextParts(n: nat, p: nat)
    requires p > 0
    ensures ((n + 1) / p == n / p && (n + 1) % p == n % p + 1)
      || ((n + 1) / p == n / p + 1 && (n + 1) % p == 0 && n % p + 1 == p)
  {
    var e, m := n / p, n % p;
    assert n == e * p + m;
    if m + 1 < p {
      DivUnique(n + 1, p, e, m + 1);
    } else {
      OneMoreTimes(e, p);
      DivUnique(n + 1, p, e + 1, 0);
    }
  }

  lemma OneMoreTimes(s: nat, u: nat)
    ensures (s + 1) * u == s * u + u
  {
  }

  lemma DivParts(a: nat, p: nat)
    requires p > 0
    ensures a / p * p <= a < (a / p + 1) * p
  {
    OneMoreTimes(a / p, p);
  }

  lemma Doubled(p: nat, u: nat)
    requires p > 0
    ensures p * (2 * u) == (p - 1 + p) * u + u
  {
  }

  /** The values of doubles grow with their bits. */
  lemma {:induction false} DoublesGrow(m: nat, n: nat)
    requires m < n && OfBits(n).exponent < 0x7ff
    ensures OfBits(m).exponent < 0x7ff && OfBits(m).Units() < OfBits(n).Units()
    decreases n - m
  {
    var p := Pow(2, EXP_SHIFT);
    PowPositive(2, EXP_SHIFT);
    DivGrows(m, n, p);
    DivGrows(n - 1, n, p);
    NextDouble(n - 1);
    PowPositive(2, if OfBits(n - 1).exponent == 0 then 0 else OfBits(n - 1).exponent - 1);
    if m < n - 1 { DoublesGrow(m, n - 1); }
  }

  lemma DivGrows(a: nat, b: nat, p: nat)
    requires a <= b && p > 0
    ensures a / p <= b / p
  {
    var q, r := a / p, b / p;
    DivParts(a, p);
    DivParts(b, p);
    if q > r {
      MulGrows(r + 1, q, p);
      assert false;
    }
  }

  lemma {:induction false} AndMask(x: nat, s: nat)
    ensures Pow(2, s) > 0 && And(x, Pow(2, s) - 1) == x % Pow(2, s)
    decreases s
  {
    PowPositive(2, s);
    if s == 0 {
      AndZero(x);
    } else {
      AndMask(x / 2, s - 1);
      HalfMod(x, Pow(2, s - 1));
    }
  }

  lemma HalfMod(x: nat, p: nat)
    requires p > 0
    ensures x % (2 * p) == x % 2 + 2 * (x / 2 % p)
  {
    var h := x / 2;
    assert h == h / p * p + h % p;
    assert x == h / p * (2 * p) + (x % 2 + 2 * (h % p)) by { assert 2 * (h / p * p) == h / p * (2 * p); }
    DivUnique(x, 2 * p, h / p, x % 2 + 2 * (h % p));
  }

  lemma SplitAt(s: Limbs, i: nat, p: nat)
    requires i < |s| && p == Pow(BASE, i)
    ensures Val(s) == Val(s[..i]) + p * (s[i] + BASE * Val(s[i + 1..]))
  {
    ValSplit(s, i);
    assert s[i..][1..] == s[i + 1..];
  }

  /** The low part of a number that has more limbs than the low part. */
  lemma CutLimbs(s: Limbs, i: nat, p: nat, a: nat, k: nat, m: nat)
    requires i < |s| && AreLimbs(s) && p == Pow(BASE, i) && a > 0 && a * k == BASE && m == p * a && m > 0
    ensures Val(s[..i] + [s[i] % a]) == Val(s) % m
  {
    var lo, x, rest := Val(s[..i]), s[i], Val(s[i + 1..]);
    SplitAt(s, i, p);
    assert lo < p by { ValBound(s[..i]); }
    ValAppend(s[..i], x % a);
    CutSum(lo, p, x, a, k, rest);
  }

  lemma CutSum(lo: nat, p: nat, x: nat, a: nat, k: nat, rest: nat)
    requires lo < p && a > 0 && a * k == BASE
    ensures p * a > 0 && (lo + p * (x + BASE * rest)) % (p * a) == lo + x % a * p
  {
    var q := x / a + k * rest;
    assert x + BASE * rest == q * a + x % a by {
      assert x == x / a * a + x % a;
      assert (x / a + k * rest) * a == x / a * a + k * rest * a;
      assert k * rest * a == a * k * rest;
    }
    MulGrows(x % a + 1, a, p);
    assert p * (q * a + x % a) == q * (p * a) + x % a * p by { assert p * (q * a) == q * (p * a); }
    DivUnique(lo + p * (x + BASE * rest), p * a, q, lo + x % a * p);
  }

  lemma LimbPower(n: nat)
    ensures Pow(2, n) == Pow(BASE, n / BITS) * Pow(2, n % BITS)
  {
    PowOfBase(n / BITS);
    PowAdd(2, BITS * (n / BITS), n % BITS);
  }

  lemma {:induction false} PowOfBase(i: nat)
    ensures Pow(BASE, i) == Pow(2, BITS * i)
  {
    if i > 0 {
      PowOfBase(i - 1);
      PowAdd(2, BITS, BITS * (i - 1));
      PowBits(BITS);
      assert Pow(2, 0) == 1;
    }
  }

  /** num / 2^firstIntegerBit. */
  class BigDouble {
    const num: Bignum
    const helper: Bignum
    var firstIntegerBit: nat

    ghost predicate Valid()
      reads this, num, helper
    {
      num != helper && num.Valid() && helper.Valid() && num.memory == helper.memory
    }

    constructor (memory: bool)
      ensures Valid() && fresh(num) && fresh(helper) && num.memory == memory
    {
      num := new Bignum(4, 0, memory);
      helper := new Bignum(4, 0, memory);
      firstIntegerBit := 0;
    }

    /** format_bigdoubleLoad after its bignums have been set up. */
    method Load(d: Double) returns (ret: int)
      requires Valid() && d.Valid()
      modifies this, num
      ensures Valid() && Returns(num.memory, ret)
      ensures ret == 0 ==> num.Value() * Pow(2, 1074) == d.Units() * Pow(2, firstIntegerBit)
    {
      num.Zero();
      if d.exponent == 0 && d.mantissa == 0 {
        firstIntegerBit := 0;
        return 0;
      }
      var exp := d.exponent - 1023;
      var isSubnormalOrZero := exp == -1023;
      var mantissa := d.mantissa + (if isSubnormalOrZero then 0 else Pow(2, EXP_SHIFT));
      SignificandFits(d);
      ret := SetTo(mantissa);
      if ret != 0 {
        return;
      }
      if isSubnormalOrZero {
        exp := -1022;
      }
      if EXP_SHIFT < exp {
        firstIntegerBit := 0;
        ret := num.ShiftLeft(exp - EXP_SHIFT);
        UnitsAbove(mantissa, exp);
      } else {
        firstIntegerBit := EXP_SHIFT - exp;
        UnitsBelow(mantissa, exp);
      }
    }

    /** The significand in two limbs. */
    method SetTo(mantissa: nat) returns (ret: int)
      requires Valid() && num.len == 1 && num.Value() == 0 && mantissa < BASE * BASE
      modifies num
      ensures Valid() && Returns(num.memory, ret)
      ensures ret == 0 ==> num.Value() == mantissa
    {
      num.data := num.data[0 := mantissa % BASE];
      assert num.data[..1] == [mantissa % BASE];
      ValOne(mantissa % BASE);
      ret := num.Push(mantissa / BASE);
      assert Pow(BASE, 1) == BASE * Pow(BASE, 0);
    }

    /** format_bigdoubleIntegerPart into the helper. */
    method IntegerPart() returns (ret: int)
      requires Valid()
      modifies helper
      ensures Valid() && Returns(num.memory, ret) && Pow(2, firstIntegerBit) > 0
      ensures ret == 0 ==> helper.Value() == num.Value() / Pow(2, firstIntegerBit)
    {
      PowPositive(2, firstIntegerBit);
      ret := helper.Copy(num);
      if ret == 0 {
        helper.ShiftRight(firstIntegerBit);
      }
    }

    /** format_bigdoubleCutIntegerPart. */
    method CutIntegerPart()
      requires Valid()
      modifies num
      ensures Valid() && Pow(2, firstIntegerBit) > 0 && num.Value() == old(num.Value()) % Pow(2, firstIntegerBit)
    {
      var first := firstIntegerBit / BITS;
      PowPositive(2, firstIntegerBit % BITS);
      PowPositive(2, firstIntegerBit);
      var fracMask := Pow(2, firstIntegerBit % BITS) - 1;
      ghost var s := num.data[..num.len];
      if first < num.len {
        CutAt(s, firstIntegerBit);
        AndMask(num.data[first], firstIntegerBit % BITS);
        num.data := num.data[first := And(num.data[first], fracMask)];
        num.len := first + 1;
        assert num.data[..num.len] == s[..first] + [num.data[first]];
      } else {
        Below(s, firstIntegerBit);
      }
    }

    /** The integer part moved to the helper, the fraction left. */
    method TakeIntegerPart() returns (ret: int)
      requires Valid()
      modifies num, helper
      ensures Valid() && Returns(num.memory, ret)
      ensures ret == 0 ==> Parts(old(num.Value()), Pow(2, firstIntegerBit), helper.Value(), num.Value())
    {
      ghost var n := num.Value();
      ret := IntegerPart();
      if ret == 0 {
        CutIntegerPart();
        WholeAndRest(n, Pow(2, firstIntegerBit));
      }
    }
  }

  lemma SignificandFits(d: Double)
    requires d.Valid()
    ensures d.Significand() < BASE * BASE
  {
    PowAdd(2, 26, 26);
    PowAdd(2, 13, 13);
    assert Pow(2, 13) == 8192;
  }

  lemma UnitsAbove(m: nat, e: nat)
    requires e > EXP_SHIFT
    ensures m * Pow(2, e - EXP_SHIFT) * Pow(2, 1074) == m * Pow(2, e + 1022)
  {
    PowTimes(m, e - EXP_SHIFT, 1074);
  }

  lemma UnitsBelow(m: nat, e: int)
    requires -1022 <= e <= EXP_SHIFT
    ensures m * Pow(2, 1074) == m * Pow(2, e + 1022) * Pow(2, EXP_SHIFT - e)
  {
    PowTimes(m, e + 1022, EXP_SHIFT - e);
  }

  lemma CutAt(s: Limbs, n: nat)
    requires n / BITS < |s| && AreLimbs(s)
    ensures Pow(2, n) > 0 && Pow(2, n % BITS) > 0 && s[n / BITS] % Pow(2, n % BITS) < BASE
    ensures Val(s[..n / BITS] + [s[n / BITS] % Pow(2, n % BITS)]) == Val(s) % Pow(2, n)
  {
    var i, a, k := n / BITS, Pow(2, n % BITS), Pow(2, BITS - n % BITS);
    LimbPower(n);
    PowPositive(2, n);
    PowBits(n % BITS);
    PowLimb(n % BITS);
    CutLimbs(s, i, Pow(BASE, i), a, k, Pow(2, n));
  }

  /** A number with fewer limbs than the low part is all low part. */
  lemma Below(s: Limbs, n: nat)
    requires |s| <= n / BITS && AreLimbs(s)
    ensures Pow(2, n) > 0 && Val(s) % Pow(2, n) == Val(s)
  {
    PowPositive(2, n);
    assert Val(s) < Pow(2, n) by {
      ValBound(s);
      PowOfBase(|s|);
      if BITS * |s| < n { PowGrows(2, BITS * |s|, n); }
    }
    DivUnique(Val(s), Pow(2, n), 0, Val(s));
  }
}
