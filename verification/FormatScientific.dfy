/** The scientific form of a double, as format_sprintfScientificForm of
    libphoenix/stdio/format.c makes it when trailing zeros are kept. */
module FormatScientific {
  import opened Powers
  import opened Arith
  import opened Limbs
  import opened Bignum
  import opened BigDouble
  import opened Digits
  import opened FormatDecimal
  import opened Numerals

  // ----- the numbers -----

  /** floor(a / b * 10^e). */
  ghost function Scaled(a: nat, b: nat, e: int): nat
    requires b > 0
  {
    if e >= 0 then a * Pow(10, e) / b
    else
      PowPositive(10, -e);
      ProductPositive(b, Pow(10, -e));
      a / (b * Pow(10, -e))
  }

  /** floor(a / b * 10^e + 1/2). */
  ghost function RoundedAt(a: nat, b: nat, e: int): nat
    requires b > 0
  {
    if e >= 0 then (2 * (a * Pow(10, e)) + b) / (2 * b)
    else
      PowPositive(10, -e);
      ProductPositive(b, Pow(10, -e));
      (2 * a + b * Pow(10, -e)) / (2 * (b * Pow(10, -e)))
  }

  /** 10^x <= a / b < 10^(x + 1). */
  ghost predicate HasExponent(a: nat, b: nat, x: int) {
    if x >= 0 then b * Pow(10, x) <= a < b * Pow(10, x + 1)
    else b <= a * Pow(10, -x) < 10 * b
  }

  lemma TenfoldAndRest(r: nat, s: nat, b: nat)
    ensures (10 * r + s - 5) * b == 10 * (r * b) + s * b - 5 * b
    ensures r * (2 * b) == 2 * (r * b)
  {
  }

  lemma RoundParts(a: nat, b: nat, k: nat, m: nat, r: nat, s: nat)
    requires Parts(10 * a, b, k, m) && k + 5 == 10 * r + s && s < 10
    ensures (2 * a + b) / (2 * b) == r
  {
    TenfoldAndRest(r, s, b);
    assert k == 10 * r + s - 5;
    MulGrows(s, 9, b);
    MulGrows(0, s, b);
    DivIs(2 * a + b, 2 * b, r);
  }

  /** Cutting a number at its next digit and rounding that digit half up rounds the number. */
  lemma RoundDigit(a: nat, b: nat)
    requires b > 0
    ensures (10 * a / b + 5) / 10 == (2 * a + b) / (2 * b)
  {
    var k := 10 * a / b;
    WholeAndRest(10 * a, b);
    RoundParts(a, b, k, 10 * a % b, (k + 5) / 10, (k + 5) % 10);
  }

  lemma RoundScaled(a: nat, b: nat, e: int)
    requires b > 0
    ensures (Scaled(a, b, e + 1) + 5) / 10 == RoundedAt(a, b, e)
  {
    if e >= 0 {
      MoreTens(a, e);
      RoundDigit(a * Pow(10, e), b);
    } else {
      PowPositive(10, -e - 1);
      MoreTens(b, -e - 1);
      var c := b * Pow(10, -e - 1);
      MulGrows(1, Pow(10, -e - 1), b);
      assert Scaled(a, b, e + 1) == a / c by {
        if e == -1 { assert Pow(10, 0) == 1; }
      }
      CancelTen(a, c);
      RoundDigit(a, 10 * c);
    }
  }

  lemma MoreTens(a: nat, e: nat)
    ensures a * Pow(10, e + 1) == 10 * (a * Pow(10, e))
  {
    var p := Pow(10, e);
    assert Pow(10, e + 1) == 10 * p;
    assert a * (10 * p) == 10 * (a * p);
  }

  lemma CancelTen(a: nat, c: nat)
    requires c > 0
    ensures 10 * a / (10 * c) == a / c
  {
    var q := a / c;
    assert a == q * c + a % c;
    assert q * (10 * c) == 10 * (q * c);
    DivIs(10 * a, 10 * c, q);
  }

  /** A quotient divided again. */
  lemma DivTwice(z: nat, f: nat, c: nat)
    requires f > 0 && c > 0
    ensures f * c > 0 && z / f / c == z / (f * c)
  {
    var q := z / f;
    var r := q / c;
    MulGrows(1, c, f);
    assert z == q * f + z % f && q == r * c + q % c;
    MulGrows(q % c + 1, c, f);
    assert z == r * (f * c) + (q % c * f + z % f) by {
      assert (r * c + q % c) * f == r * c * f + q % c * f;
      assert r * c * f == r * (f * c);
    }
    assert q % c * f + z % f < f * c by { assert (q % c + 1) * f == q % c * f + f; }
    DivUnique(z, f * c, r, q % c * f + z % f);
  }

  lemma Cancel(a: nat, b: nat, c: nat)
    requires b > 0 && c > 0
    ensures b * c > 0 && a * c / (b * c) == a / b
  {
    MulGrows(1, c, b);
    var q := a / b;
    assert a == q * b + a % b;
    assert a * c == q * (b * c) + a % b * c by {
      assert (q * b + a % b) * c == q * b * c + a % b * c;
      assert q * b * c == q * (b * c);
    }
    MulGrows(a % b + 1, b, c);
    DivUnique(a * c, b * c, q, a % b * c);
  }

  lemma CutUp(a: nat, b: nat, d: nat, c: nat)
    requires b > 0 && c > 0
    ensures a * (d * c) / b / c == a * d / b
  {
    var n := a * d;
    assert a * (d * c) == n * c;
    DivTwice(n * c, b, c);
    Cancel(n, b, c);
  }

  lemma CutDown(a: nat, b: nat, d: nat, c: nat)
    requires b > 0 && c > 0 && d > 0
    ensures d * c > 0 && b * d > 0 && a * c / b / (d * c) == a / (b * d)
  {
    MulGrows(1, c, d);
    MulGrows(1, d, b);
    DivTwice(a * c, b, d * c);
    assert b * (d * c) == b * d * c;
    Cancel(a, b * d, c);
  }

  /** The first digits of a longer quotient. */
  lemma ScaledCut(a: nat, b: nat, m: nat, x: nat, k: nat)
    requires b > 0 && k == a * Pow(10, m) / b
    ensures Pow(10, x) > 0 && k / Pow(10, x) == Scaled(a, b, m - x)
  {
    PowPositive(10, x);
    if m >= x {
      PowAdd(10, m - x, x);
      CutUp(a, b, Pow(10, m - x), Pow(10, x));
    } else {
      PowAdd(10, x - m, m);
      PowPositive(10, x - m);
      PowPositive(10, m);
      CutDown(a, b, Pow(10, x - m), Pow(10, m));
    }
  }

  /** The first digits of a text are worth a quotient of it. */
  lemma NumTake(s: seq<char>, m: nat)
    requires AllDigits(s) && m <= |s|
    ensures Pow(10, |s| - m) > 0 && Num(s[..m]) == Num(s) / Pow(10, |s| - m)
  {
    var t := s[m..];
    assert s == s[..m] + t;
    NumCat(s[..m], t);
    NumBound(t);
    DivUnique(Num(s), Pow(10, |t|), Num(s[..m]), Num(t));
  }

  /** A text of digits with no zero in front fills its length. */
  lemma NumFirst(s: seq<char>)
    requires |s| > 0 && AllDigits(s)
    ensures s[0] != '0' <==> Num(s) >= Pow(10, |s| - 1)
  {
    assert s == [s[0]] + s[1..];
    NumCat([s[0]], s[1..]);
    NumBound(s[1..]);
    NumAppend([], s[0]);
    assert [] + [s[0]] == [s[0]];
    var p := Pow(10, |s| - 1);
    if s[0] != '0' { MulGrows(1, DigitOf(s[0]), p); }
  }

  // ----- gathering digits -----

  /** Two reserved places and digits behind them: the first precision + 2 digits of n / f,
      which begin at 10^x. */
  ghost predicate Gathered(s: seq<char>, n: nat, f: nat, precision: nat, x: int) {
    && |s| == precision + 4 && s[..2] == ['\0', '\0'] && AllDigits(s[2..]) && s[2] != '0'
    && f > 0 && HasExponent(n, f, x) && Num(s[2..]) == Scaled(n, f, precision + 1 - x)
  }

  lemma IntegerExponent(n: nat, f: nat, ip: seq<char>, rem: nat)
    requires |ip| > 0 && AllDigits(ip) && ip[0] != '0' && Parts(n, f, Num(ip), rem)
    ensures HasExponent(n, f, |ip| - 1)
  {
    NumFirst(ip);
    NumBound(ip);
    QuotientBounds(n, f, Num(ip), rem, Pow(10, |ip| - 1), Pow(10, |ip|));
  }

  lemma QuotientBounds(n: nat, f: nat, q: nat, rem: nat, lo: nat, hi: nat)
    requires Parts(n, f, q, rem) && lo <= q < hi
    ensures f * lo <= n < f * hi
  {
    MulGrows(lo, q, f);
    MulGrows(q + 1, hi, f);
  }

  /** What is gathered of a number with an integer part of `k` digits. */
  lemma IntegerGathered(n: nat, f: nat, m: nat, k: nat, ds: seq<char>, rem: nat)
    requires m > 0 && k > 0 && AllDigits(ds) && |ds| == k + m && Parts(Tens(n, m), f, Num(ds), rem)
    ensures Num(ds[..m + 1]) == Scaled(n, f, m - (k - 1))
  {
    TensIs(n, m);
    PartsAre(n * Pow(10, m), f, Num(ds), rem);
    ScaledCut(n, f, m, k - 1, Num(ds));
    NumTake(ds, m + 1);
  }

  /** The start of a number with an integer part: its digits. */
  method IntegerStart(buff: Buffer, bd: BigDouble, precision: nat, ghost n: nat) returns (ret: int, exp: int)
    requires bd.Valid() && buff.data == ['\0', '\0'] && bd.helper.Value() > 0
    requires Parts(n, Pow(2, bd.firstIntegerBit), bd.helper.Value(), bd.num.Value())
    modifies buff, bd.num, bd.helper
    ensures bd.Valid() && Returns(bd.num.memory && buff.memory, ret)
    ensures ret == 0 ==> exp >= 0 && Gathered(buff.data, n, Pow(2, bd.firstIntegerBit), precision, exp)
  {
    exp := 0;
    ghost var f, i := Pow(2, bd.firstIntegerBit), bd.helper.Value();
    var length;
    ret, length := IntegerDigits(buff, bd.helper);
    if ret != 0 {
      return;
    }
    exp := length - 1;
    ghost var ip := buff.data[2..];
    assert buff.data == ['\0', '\0'] + ip;
    TwoPlaces(buff.data, ip);
    IntegerExponent(n, f, ip, bd.num.Value());
    ret := FractionDigits(buff, bd, precision + 1, n);
    if ret != 0 {
      return;
    }
    ghost var ds := buff.data[2..];
    Extended(ip, ds, length, precision + 1, buff.data);
    TwoPlaces(buff.data, ds);
    IntegerGathered(n, f, precision + 1, length, ds, bd.num.Value());
    assert buff.data[..precision + 4][2..] == ds[..precision + 2];
    buff.data := buff.data[..precision + 4];
  }

  lemma Extended(ip: seq<char>, ds: seq<char>, k: nat, m: nat, s: seq<char>)
    requires |ip| == k > 0 && AllDigits(ip) && |s| == 2 + k + m && s[..2 + k] == ['\0', '\0'] + ip
    requires AllDigits(s[2 + k..]) && ds == s[2..]
    ensures AllDigits(ds) && |ds| == k + m && ds[0] == ip[0] && s == ['\0', '\0'] + ds
  {
    assert ds == ip + s[2 + k..];
    assert s[..2] == s[..2 + k][..2];
  }

  lemma TwoPlaces(s: seq<char>, ds: seq<char>)
    requires s == ['\0', '\0'] + ds
    ensures Num(s) == Num(ds)
  {
    assert s == ['\0'] + (['\0'] + ds);
    LeadingPlace(['\0'] + ds, ds);
    LeadingPlace(s, ['\0'] + ds);
  }

  /** The start of a fraction: its first digit that is not zero. */
  method FractionStart(buff: Buffer, bd: BigDouble, precision: nat) returns (ret: int, exp: int)
    requires bd.Valid() && buff.data == ['\0', '\0'] && 0 < bd.num.Value() < Pow(2, bd.firstIntegerBit)
    modifies buff, bd.num, bd.helper
    ensures bd.Valid() && Returns(bd.num.memory && buff.memory, ret)
    ensures ret == 0 ==> exp < 0 && Gathered(buff.data, old(bd.num.Value()), Pow(2, bd.firstIntegerBit), precision, exp)
  {
    ghost var n, f := bd.num.Value(), Pow(2, bd.firstIntegerBit);
    var temp := 0;
    ret, exp, temp := FirstDigit(bd);
    if ret != 0 {
      return;
    }
    FirstExponent(n, f, -exp, temp, bd.num.Value());
    NumAppend(buff.data, CharOf(temp));
    TwoPlaces(['\0', '\0'], []);
    ret := buff.AddChar(CharOf(temp));
    if ret != 0 {
      return;
    }
    ret := FractionDigits(buff, bd, precision + 1, Tens(n, -exp));
    if ret != 0 {
      return;
    }
    ghost var ds := buff.data[2..];
    assert buff.data[..3] == ['\0', '\0'] + [CharOf(temp)];
    Extended([CharOf(temp)], ds, 1, precision + 1, buff.data);
    TwoPlaces(buff.data, ds);
    FractionGathered(n, f, -exp, precision + 1, Num(ds), bd.num.Value());
  }

  method FirstDigit(bd: BigDouble) returns (ret: int, exp: int, temp: nat)
    requires bd.Valid() && 0 < bd.num.Value() < Pow(2, bd.firstIntegerBit)
    modifies bd.num, bd.helper
    ensures bd.Valid() && Returns(bd.num.memory, ret)
    ensures ret == 0 ==> exp < 0 && 0 < temp < 10
    ensures ret == 0 ==> Parts(Tens(old(bd.num.Value()), -exp), Pow(2, bd.firstIntegerBit), temp, bd.num.Value())
  {
    ghost var n, f := bd.num.Value(), Pow(2, bd.firstIntegerBit);
    exp, temp, ret := 0, 0, 0;
    while temp == 0
      invariant bd.Valid() && ret == 0 && exp <= 0 && temp < 10 && (temp > 0 ==> exp < 0)
      invariant Parts(Tens(n, -exp), f, temp, bd.num.Value()) && (temp == 0 ==> bd.num.Value() > 0)
      decreases if temp == 0 then f - bd.num.Value() else 0, if temp == 0 then 1 else 0
    {
      ghost var rem := bd.num.Value();
      ret, temp := NextDigit(bd);
      if ret != 0 {
        return;
      }
      DigitStep(Tens(n, -exp), 0, f, rem, temp, bd.num.Value());
      exp := exp - 1;
    }
  }

  lemma FirstExponent(n: nat, f: nat, j: nat, d: nat, rem: nat)
    requires j > 0 && 0 < d < 10 && Parts(Tens(n, j), f, d, rem)
    ensures HasExponent(n, f, -(j as int))
  {
    TensIs(n, j);
    MulGrows(1, d, f);
    MulGrows(d + 1, 10, f);
  }

  lemma FractionGathered(n: nat, f: nat, j: nat, m: nat, k: nat, rem: nat)
    requires Parts(Tens(Tens(n, j), m), f, k, rem)
    ensures k == Scaled(n, f, m + j)
  {
    TensTwice(n, j, m);
    TensIs(n, m + j);
    PartsAre(n * Pow(10, m + j), f, k, rem);
  }

  lemma {:induction false} TensTwice(n: nat, j: nat, m: nat)
    ensures Tens(Tens(n, j), m) == Tens(n, m + j)
  {
    if m > 0 { TensTwice(n, j, m - 1); }
  }

  method Gather(buff: Buffer, bd: BigDouble, precision: nat) returns (ret: int, exp: int, positive: bool)
    requires buff.data == [] && bd.Valid() && bd.num.Value() > 0
    modifies buff, bd.num, bd.helper
    ensures bd.Valid() && Returns(bd.num.memory && buff.memory, ret)
    ensures ret == 0 ==>
      Gathered(buff.data, old(bd.num.Value()), Pow(2, bd.firstIntegerBit), precision, exp) && (positive <==> exp >= 0)
  {
    exp, positive := 0, false;
    ghost var n := bd.num.Value();
    ret := Places(buff);
    if ret != 0 {
      return;
    }
    ret := bd.TakeIntegerPart();
    if ret != 0 {
      return;
    }
    var c := bd.helper.CompareTo(0);
    if c != 0 {
      positive := true;
      ret, exp := IntegerStart(buff, bd, precision, n);
    } else {
      ret, exp := FractionStart(buff, bd, precision);
    }
  }

  /** Space for a carry and for a dot. */
  method Places(buff: Buffer) returns (ret: int)
    requires buff.data == []
    modifies buff
    ensures Returns(buff.memory, ret)
    ensures ret == 0 ==> buff.data == ['\0', '\0']
  {
    for i := 0 to 2
      invariant buff.data == seq(i, _ => '\0')
    {
      ret := buff.AddChar('\0');
      if ret != 0 {
        return;
      }
    }
    ret := 0;
  }

  // ----- rounding -----

  /** `m` with precision + 1 digits and the exponent `x` is n / f rounded half up at its last
      digit: either no carry left the digits, or one did and moved the exponent up. */
  ghost predicate RoundedTo(n: nat, f: nat, precision: nat, m: nat, x: int)
    requires f > 0
  {
    || (HasExponent(n, f, x) && m == RoundedAt(n, f, precision - x))
    || (&& HasExponent(n, f, x - 1) && RoundedAt(n, f, precision - (x - 1)) == Pow(10, precision + 1)
        && m == Pow(10, precision))
  }

  ghost predicate Significant(ms: seq<char>, n: nat, f: nat, precision: nat, x: int) {
    |ms| == precision + 1 && AllDigits(ms) && ms[0] != '0' && f > 0 && RoundedTo(n, f, precision, Num(ms), x)
  }

  lemma {:induction false} OneAndZeros(s: seq<char>)
    requires |s| > 0 && s[0] == '1' && forall i :: 1 <= i < |s| ==> s[i] == '0'
    ensures Num(s) == Pow(10, |s| - 1)
  {
    if |s| == 1 {
      assert s[..0] == [];
    } else {
      OneAndZeros(s[..|s| - 1]);
    }
  }

  /** Without a carry: the digits but the last are the number. */
  lemma KeptDigits(s: seq<char>, n: nat, f: nat, precision: nat, x: int)
    requires Gathered(s, n, f, precision, x) && DigitOf(s[precision + 3]) < 5
    ensures Significant(s[2..precision + 3], n, f, precision, x)
  {
    var ds, c := s[2..precision + 3], s[precision + 3];
    assert s[2..] == ds + [c] && c == s[2..][precision + 1];
    assert AllDigits(ds) by { assert forall i :: 0 <= i < |ds| ==> ds[i] == s[2..][i]; }
    NumAppend(ds, c);
    RoundScaled(n, f, precision - x);
  }

  lemma RoundedUp(s: seq<char>, n: nat, f: nat, precision: nat, x: int, ds: seq<char>)
    requires Gathered(s, n, f, precision, x) && DigitOf(s[precision + 3]) >= 5 && ds == s[2..precision + 3]
    ensures AllDigits(ds) && ds[0] != '0' && Num(ds) + 1 == RoundedAt(n, f, precision - x)
  {
    var c := s[precision + 3];
    assert s[2..] == ds + [c] && c == s[2..][precision + 1];
    assert AllDigits(ds) by { assert forall i :: 0 <= i < |ds| ==> ds[i] == s[2..][i]; }
    NumAppend(ds, c);
    RoundScaled(n, f, precision - x);
  }

  /** Digits with one added, behind a reserved place. */
  lemma AddedOne(ds: seq<char>, t: seq<char>, r: seq<char>)
    requires |ds| > 0 && AllDigits(ds) && ds[0] != '0' && t == ['\0'] + ds && Reserved(t) && r == Increment(t)
    ensures |r| == |ds| + 1 && Num(r) == Num(ds) + 1
    ensures r[0] == '1' ==> Num(r) == Pow(10, |ds|) && AllDigits(r[..|ds|]) && Num(r[..|ds|]) == Pow(10, |ds| - 1)
    ensures r[0] != '1' ==> r[0] == '\0' && AllDigits(r[1..]) && Num(r[1..]) == Num(r) && r[1] != '0'
  {
    assert |r| == |t| && r[0] in {'\0', '1'}
      && (forall i :: 1 <= i < |r| ==> IsDigit(r[i]) && (r[0] == '1' ==> r[i] == '0')) by {
      IncrementForm(t);
      assert forall i :: 1 <= i < |t| ==> t[i] == ds[i - 1];
    }
    assert Num(r) == Num(ds) + 1 by {
      LeadingPlace(t, ds);
      IncrementNum(t);
    }
    if r[0] == '1' {
      OneAndZeros(r);
      OneAndZeros(r[..|ds|]);
    } else {
      FilledDigits(ds, r);
    }
  }

  /** With a carry: one more, in the same digits or as a power of ten. */
  lemma CarriedDigits(s: seq<char>, n: nat, f: nat, precision: nat, x: int, r: seq<char>)
    requires Gathered(s, n, f, precision, x) && DigitOf(s[precision + 3]) >= 5
    requires Reserved(s[1..precision + 3]) && r == Increment(s[1..precision + 3])
    ensures |r| == precision + 2
    ensures r[0] == '1' ==> Significant(r[..precision + 1], n, f, precision, x + 1)
    ensures r[0] != '1' ==> r[0] == '\0' && Significant(r[1..], n, f, precision, x)
  {
    var t, ds := s[1..precision + 3], s[2..precision + 3];
    assert t == ['\0'] + ds by { assert s[1] == s[..2][1]; }
    RoundedUp(s, n, f, precision, x, ds);
    AddedOne(ds, t, r);
  }

  lemma FilledDigits(ds: seq<char>, r: seq<char>)
    requires |ds| > 0 && AllDigits(ds) && ds[0] != '0' && |r| == |ds| + 1 && r[0] == '\0' && Num(r) == Num(ds) + 1
    requires forall i :: 1 <= i < |r| ==> IsDigit(r[i])
    ensures AllDigits(r[1..]) && Num(r[1..]) == Num(r) && r[1..][0] != '0'
  {
    var ms := r[1..];
    assert r == ['\0'] + ms;
    LeadingPlace(r, ms);
    assert forall i :: 0 <= i < |ms| ==> ms[i] == r[i + 1];
    NumFirst(ds);
    NumFirst(ms);
  }

  /** The rounding: the digits stand from `startOffset` on. */
  method RoundDigits(buff: Buffer, precision: nat, exp: int, positive: bool, ghost n: nat, ghost f: nat)
    returns (startOffset: nat, exp': int, positive': bool)
    requires Gathered(buff.data, n, f, precision, exp) && (positive <==> exp >= 0)
    modifies buff
    ensures 1 <= startOffset <= 2 && |buff.data| == startOffset + precision + 1 && (positive' <==> exp' >= 0)
    ensures Significant(buff.data[startOffset..], n, f, precision, exp')
  {
    startOffset, exp', positive' := 2, exp, positive;
    var s := buff.data;
    assert IsDigit(s[precision + 3]) by { assert s[precision + 3] == s[2..][precision + 1]; }
    var carry := DigitOf(s[precision + 3]) >= 5;
    buff.data := s[..precision + 3];
    if carry {
      ReservedBehind(s, precision);
      var r := Carry(buff.data[1..]);
      CarriedDigits(s, n, f, precision, exp, r);
      buff.data := [buff.data[0]] + r;
      assert buff.data[1..] == r && buff.data[2..] == r[1..];
      if r[0] == '1' {
        startOffset, exp' := 1, exp + 1;
        assert buff.data[..precision + 2][1..] == r[..precision + 1];
        buff.data := buff.data[..precision + 2];
        if exp' == 0 {
          positive' := true;
        }
      }
    } else {
      KeptDigits(s, n, f, precision, exp);
      assert buff.data[2..] == s[2..precision + 3];
    }
  }

  lemma ReservedBehind(s: seq<char>, precision: nat)
    requires |s| == precision + 4 && s[..2] == ['\0', '\0'] && AllDigits(s[2..])
    ensures Reserved(s[1..precision + 3]) && s[..precision + 3][1..] == s[1..precision + 3]
  {
    var t := s[1..precision + 3];
    assert t[0] == s[..2][1];
    forall i | 1 <= i < |t| ensures t[i] != '\0' {
      assert t[i] == s[2..][i - 1];
    }
  }

  // ----- the text -----

  /** The exponent as text: its sign and at least two digits. */
  ghost predicate IsExponent(s: seq<char>, x: int) {
    && |s| >= 3 && s[0] == (if x >= 0 then '+' else '-') && AllDigits(s[1..])
    && Num(s[1..]) == (if x >= 0 then x else -x) && (|s| > 3 ==> s[1] != '0')
  }

  method ExponentDigits(buff: Buffer, v: nat) returns (ret: int)
    modifies buff
    ensures Returns(buff.memory, ret)
    ensures ret == 0 ==> |buff.data| >= |old(buff.data)| + 2 && buff.data[..|old(buff.data)|] == old(buff.data)
    ensures ret == 0 ==> AllDigits(buff.data[|old(buff.data)|..]) && Num(buff.data[|old(buff.data)|..]) == v
    ensures ret == 0 ==> (|buff.data| > |old(buff.data)| + 2 ==> buff.data[|old(buff.data)|] != '0')
  {
    ghost var was := buff.data;
    var start := |buff.data|;
    ghost var ds;
    ret, ds := LowExponentDigits(buff, v);
    if ret != 0 {
      return;
    }
    var end := |buff.data|;
    assert buff.data[start..end] == ds && buff.data[..start] == was && buff.data[end..] == [];
    var r := Reverse(buff.data, start, end);
    assert r == was + Reversed(ds);
    buff.data := r;
    Turned(was, ds, r);
  }

  method LowExponentDigits(buff: Buffer, v: nat) returns (ret: int, ghost ds: seq<char>)
    modifies buff
    ensures Returns(buff.memory, ret)
    ensures ret == 0 ==> buff.data == old(buff.data) + ds && |ds| >= 2 && AllDigits(ds) && NumRev(ds) == v
    ensures ret == 0 ==> (|ds| > 2 ==> ds[|ds| - 1] != '0')
  {
    ghost var was := buff.data;
    ds := [];
    assert TakenOff(v, v, []);
    var exp := v;
    ret := buff.AddChar(CharOf(exp % 10));
    if ret != 0 {
      return;
    }
    TakeOff(v, v, ds, exp / 10, exp % 10);
    ds := ds + [CharOf(exp % 10)];
    exp := exp / 10;
    if exp == 0 {
      ret := buff.AddChar('0');
      if ret != 0 {
        return;
      }
      TakeOff(v, 0, ds, 0, 0);
      ds := ds + [CharOf(0)];
      return;
    }
    while exp != 0
      invariant buff.data == was + ds && |ds| >= 1 && ret == 0 && TakenOff(v, exp, ds)
      invariant exp == 0 ==> |ds| >= 2 && ds[|ds| - 1] != '0'
    {
      ret := buff.AddChar(CharOf(exp % 10));
      if ret != 0 {
        return;
      }
      TakeOff(v, exp, ds, exp / 10, exp % 10);
      ds := ds + [CharOf(exp % 10)];
      exp := exp / 10;
    }
  }

  /** The digits of a number with a dot behind the first, if there is one. */
  ghost function WithDot(ms: seq<char>, dot: bool): seq<char>
    requires |ms| > 0
  {
    if dot then [ms[0], '.'] + ms[1..] else ms
  }

  /** Text in scientific form: digits as Significant says, a letter, the exponent. */
  ghost predicate IsScientific(s: seq<char>, n: nat, f: nat, precision: nat, dot: bool, letter: char, x: int) {
    exists ms, es :: Significant(ms, n, f, precision, x) && IsExponent(es, x) && s == WithDot(ms, dot) + [letter] + es
  }

  /** format_sprintfScientificForm; the exponent it returns is that of the text. */
  method ScientificForm(buff: Buffer, bd: BigDouble, precision: nat, alternate: bool, large: bool)
    returns (ret: int, startOffset: nat, exp: int)
    requires buff.data == [] && bd.Valid() && bd.num.Value() > 0
    modifies buff, bd.num, bd.helper
    ensures bd.Valid() && Returns(bd.num.memory && buff.memory, ret)
    ensures ret == 0 ==> startOffset <= |buff.data|
    ensures ret == 0 ==>
      IsScientific(buff.data[startOffset..], old(bd.num.Value()), Pow(2, bd.firstIntegerBit), precision,
        precision > 0 || alternate, if large then 'E' else 'e', exp)
  {
    startOffset, exp := 0, 0;
    ghost var n, f := bd.num.Value(), Pow(2, bd.firstIntegerBit);
    var positive, dot := false, precision > 0 || alternate;
    ret, exp, positive := Gather(buff, bd, precision);
    if ret != 0 {
      return;
    }
    startOffset, exp, positive := RoundDigits(buff, precision, exp, positive, n, f);
    ghost var ms := buff.data[startOffset..];
    var letter := if large then 'E' else 'e';
    ghost var es;
    ret, startOffset, es := DotAndExponent(buff, startOffset, dot, letter, exp, positive);
  }

  /** The dot behind the first digit, and the exponent. */
  method DotAndExponent(buff: Buffer, start: nat, dot: bool, letter: char, exp: int, positive: bool)
    returns (ret: int, start': nat, ghost es: seq<char>)
    requires 0 < start < |buff.data| && (positive <==> exp >= 0)
    modifies buff
    ensures Returns(buff.memory, ret)
    ensures ret == 0 ==> start' <= |buff.data| && IsExponent(es, exp)
    ensures ret == 0 ==> buff.data[start'..] == WithDot(old(buff.data)[start..], dot) + [letter] + es
  {
    ghost var ms := buff.data[start..];
    es := [];
    start' := PlaceDot(buff, start, dot);
    ret := AddExponent(buff, start', WithDot(ms, dot), letter, exp, positive);
    if ret == 0 {
      es := buff.data[start' + |WithDot(ms, dot)| + 1..];
      Whole(buff.data, start', WithDot(ms, dot) + [letter], es);
    }
  }

  lemma Whole(s: seq<char>, start: nat, head: seq<char>, tail: seq<char>)
    requires start + |head| <= |s| && s[start..start + |head|] == head && s[start + |head|..] == tail
    ensures s[start..] == head + tail
  {
    assert s[start..] == s[start..start + |head|] + s[start + |head|..];
  }

  /** The first digit moves into the reserved place, and a dot takes its own. */
  method PlaceDot(buff: Buffer, start: nat, dot: bool) returns (start': nat)
    requires 0 < start < |buff.data|
    modifies buff
    ensures start' <= |buff.data| && buff.data[start'..] == WithDot(old(buff.data)[start..], dot)
  {
    start' := start;
    if dot {
      start' := start - 1;
      buff.data := buff.data[start' := buff.data[start]][start := '.'];
    }
  }

  method AddExponent(buff: Buffer, startOffset: nat, ghost head: seq<char>, letter: char, exp: int, positive: bool)
    returns (ret: int)
    requires startOffset <= |buff.data| && buff.data[startOffset..] == head && (positive <==> exp >= 0)
    modifies buff
    ensures Returns(buff.memory, ret)
    ensures ret == 0 ==>
      startOffset + |head| + 1 <= |buff.data| && buff.data[startOffset..startOffset + |head| + 1] == head + [letter]
    ensures ret == 0 ==> IsExponent(buff.data[startOffset + |head| + 1..], exp)
  {
    ret := buff.AddChar(letter);
    if ret != 0 {
      return;
    }
    ret := buff.AddChar(if positive then '+' else '-');
    if ret != 0 {
      return;
    }
    ghost var was := buff.data;
    ret := ExponentDigits(buff, if positive then exp else -exp);
    if ret == 0 {
      ghost var i := startOffset + |head| + 1;
      assert buff.data[startOffset..i] == was[startOffset..i];
      assert buff.data[i..][0] == was[i] && buff.data[i..][1..] == buff.data[|was|..];
    }
  }

  // ----- a double -----

  lemma CancelOrder(a: nat, b: nat, c: nat)
    requires c > 0
    ensures a * c <= b * c <==> a <= b
  {
    if a <= b { MulGrows(a, b, c); } else { MulGrows(b + 1, a, c); }
  }

  /** Neither the exponent nor the rounding depends on how a fraction is written. */
  lemma SameOrder(n: nat, f: nat, u: nat, g: nat, p: nat, q: nat)
    requires f > 0 && g > 0 && n * g == u * f
    ensures p * f <= n * q <==> p * g <= u * q
  {
    CancelOrder(p * f, n * q, g);
    CancelOrder(p * g, u * q, f);
    Swap(p, f, g);
    Swap(n, q, g);
    Swap(u, q, f);
  }

  lemma Swap(a: nat, b: nat, c: nat)
    ensures a * b * c == a * c * b
  {
  }

  lemma ExponentSame(n: nat, f: nat, u: nat, g: nat, x: int)
    requires f > 0 && g > 0 && n * g == u * f
    ensures HasExponent(n, f, x) <==> HasExponent(u, g, x)
  {
    if x >= 0 {
      SameOrder(n, f, u, g, Pow(10, x), 1);
      SameOrder(n, f, u, g, Pow(10, x + 1), 1);
      assert f * Pow(10, x) == Pow(10, x) * f && g * Pow(10, x) == Pow(10, x) * g;
      assert f * Pow(10, x + 1) == Pow(10, x + 1) * f && g * Pow(10, x + 1) == Pow(10, x + 1) * g;
    } else {
      SameOrder(n, f, u, g, 1, Pow(10, -x));
      SameOrder(n, f, u, g, 10, Pow(10, -x));
    }
  }

  lemma HalfUpSame(n: nat, f: nat, u: nat, g: nat)
    requires f > 0 && g > 0 && n * g == u * f
    ensures (2 * n + f) / (2 * f) == (2 * u + g) / (2 * g)
  {
    RoundedSame(n, f, u, g, 0);
    assert Pow(10, 0) == 1;
  }

  lemma HalfUpTimes(n: nat, f: nat, u: nat, g: nat, t: nat)
    requires f > 0 && g > 0 && n * g == u * f
    ensures (2 * (n * t) + f) / (2 * f) == (2 * (u * t) + g) / (2 * g)
  {
    assert n * t * g == u * t * f by { assert n * t * g == n * g * t && u * t * f == u * f * t; }
    HalfUpSame(n * t, f, u * t, g);
  }

  lemma TimesBoth(n: nat, f: nat, u: nat, g: nat, t: nat)
    requires f > 0 && g > 0 && t > 0 && n * g == u * f
    ensures f * t > 0 && g * t > 0 && n * (g * t) == u * (f * t)
  {
    MulGrows(1, t, f);
    MulGrows(1, t, g);
    assert n * (g * t) == n * g * t && u * (f * t) == u * f * t;
  }

  lemma RoundedAtSame(n: nat, f: nat, u: nat, g: nat, e: int)
    requires f > 0 && g > 0 && n * g == u * f
    ensures RoundedAt(n, f, e) == RoundedAt(u, g, e)
  {
    if e >= 0 {
      HalfUpTimes(n, f, u, g, Pow(10, e));
    } else {
      PowPositive(10, -e);
      var f', g' := f * Pow(10, -e), g * Pow(10, -e);
      TimesBoth(n, f, u, g, Pow(10, -e));
      HalfUpSame(n, f', u, g');
    }
  }

  lemma SignificantSame(ms: seq<char>, n: nat, f: nat, u: nat, g: nat, precision: nat, x: int)
    requires f > 0 && g > 0 && n * g == u * f && Significant(ms, n, f, precision, x)
    ensures Significant(ms, u, g, precision, x)
  {
    ExponentSame(n, f, u, g, x);
    ExponentSame(n, f, u, g, x - 1);
    RoundedAtSame(n, f, u, g, precision - x);
    RoundedAtSame(n, f, u, g, precision - (x - 1));
  }

  // ----- the text, read -----

  lemma RoundedAtNearest(n: nat, f: nat, e: int)
    requires f > 0
    ensures NearestAt(RoundedAt(n, f, e), n, f, e)
  {
    if e >= 0 {
      HalfUpNearest(n * Pow(10, e), f);
    } else {
      PowPositive(10, -e);
      ProductPositive(f, Pow(10, -e));
      HalfUpNearest(n, f * Pow(10, -e));
    }
  }

  lemma CoarserNumber(m: nat, v: nat, f: nat)
    requires Nearest(10 * m, 10 * v, f)
    ensures Nearest(m, v, f)
  {
    assert 10 * m * f == 10 * (m * f);
  }

  lemma CoarserUnit(m: nat, n: nat, g: nat)
    requires Nearest(10 * m, n, g)
    ensures Nearest(m, n, 10 * g)
  {
    assert 10 * m * g == m * (10 * g);
  }

  /** Ten times a number is nearest on a finer scale: then the number is on the coarser one. */
  lemma Coarser(m: nat, n: nat, f: nat, e: int)
    requires NearestAt(10 * m, n, f, e + 1)
    ensures NearestAt(m, n, f, e)
  {
    if e >= 0 {
      TenMore(n, e);
      CoarserNumber(m, n * Pow(10, e), f);
    } else {
      TenMore(f, -e - 1);
      if e == -1 { assert Pow(10, 0) == 1; }
      CoarserUnit(m, n, f * Pow(10, -e - 1));
    }
  }

  lemma TenMore(a: nat, k: nat)
    ensures a * Pow(10, k + 1) == 10 * (a * Pow(10, k))
  {
    assert Pow(10, k + 1) == 10 * Pow(10, k);
  }

  lemma RoundedToNearest(n: nat, f: nat, precision: nat, m: nat, x: int)
    requires f > 0 && RoundedTo(n, f, precision, m, x)
    ensures NearestAt(m, n, f, precision - x)
  {
    if HasExponent(n, f, x) && m == RoundedAt(n, f, precision - x) {
      RoundedAtNearest(n, f, precision - x);
    } else {
      RoundedAtNearest(n, f, precision - (x - 1));
      assert Pow(10, precision + 1) == 10 * m && precision - (x - 1) == precision - x + 1;
      Coarser(m, n, f, precision - x);
    }
  }

  lemma ExponentSays(s: seq<char>, x: int)
    requires IsExponent(s, x)
    ensures SaysExponent(s, x)
  {
    NumReads(s[1..]);
  }

  lemma MantissaReads(ms: seq<char>, dot: bool)
    requires |ms| > 0 && AllDigits(ms) && (|ms| > 1 ==> dot)
    ensures ReadsAs(WithDot(ms, dot), dot, ms[..1], ms[1..]) && ms[..1] + ms[1..] == ms
  {
    var whole, frac := ms[..1], ms[1..];
    assert whole == [ms[0]] && whole + frac == ms;
    if dot { assert WithDot(ms, dot) == whole + ['.'] + frac; } else { assert frac == [] && ms == whole; }
  }

  lemma ScientificSays(s: seq<char>, n: nat, f: nat, precision: nat, dot: bool, letter: char, x: int)
    requires IsScientific(s, n, f, precision, dot, letter, x) && (precision > 0 ==> dot)
    ensures SaysScientific(s, n, f, precision, dot, letter, x)
  {
    var ms, es :|
      Significant(ms, n, f, precision, x) && IsExponent(es, x) && s == WithDot(ms, dot) + [letter] + es;
    MantissaReads(ms, dot);
    NumReads(ms);
    ExponentSays(es, x);
    RoundedToNearest(n, f, precision, Num(ms), x);
    assert ReadsAs(WithDot(ms, dot), dot, ms[..1], ms[1..]);
  }

  /** A double that is finite and above zero in scientific form. */
  method PrintScientific(d: Double, precision: nat, alternate: bool, large: bool, memory: bool)
    returns (ret: int, text: seq<char>, exp: int)
    requires d.Valid() && d.Units() > 0
    ensures Returns(memory, ret)
    ensures ret == 0 ==>
      IsScientific(text, d.Units(), Pow(2, 1074), precision, precision > 0 || alternate,
        if large then 'E' else 'e', exp)
    ensures ret == 0 ==>
      SaysScientific(text, d.Units(), Pow(2, 1074), precision, precision > 0 || alternate,
        if large then 'E' else 'e', exp)
  {
    text, exp := [], 0;
    PowPositive(2, 1074);
    var bd := new BigDouble(memory);
    ret := bd.Load(d);
    if ret != 0 {
      return;
    }
    ghost var n, f, u := bd.num.Value(), Pow(2, bd.firstIntegerBit), d.Units();
    assert n > 0 by {
      PowPositive(2, bd.firstIntegerBit);
      if n == 0 { MulGrows(1, u, f); }
    }
    var buff := new Buffer(memory);
    var start;
    ret, start, exp := ScientificForm(buff, bd, precision, alternate, large);
    if ret == 0 {
      text := buff.data[start..];
      ghost var dot, letter := precision > 0 || alternate, if large then 'E' else 'e';
      ghost var ms, es :|
        Significant(ms, n, f, precision, exp) && IsExponent(es, exp) && text == WithDot(ms, dot) + [letter] + es;
      SignificantSame(ms, n, f, u, Pow(2, 1074), precision, exp);
      ScientificSays(text, u, Pow(2, 1074), precision, dot, letter, exp);
    }
  }
}
