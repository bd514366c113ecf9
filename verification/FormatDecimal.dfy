/** The decimal form of a double, as format_sprintfDecimalForm of libphoenix/stdio/format.c
    makes it when trailing zeros are kept. */
module FormatDecimal {
  import opened Powers
  import opened Arith
  import opened Limbs
  import opened Bignum
  import opened BigDouble
  import opened Digits
  import opened Numerals

  /** struct buffer; its capacity shows only in that growing it may fail. */
  class Buffer {
    var data: seq<char>
    /** Whether there is memory whenever the buffer grows. */
    const memory: bool

    constructor (memory: bool)
      ensures data == [] && this.memory == memory
    {
      this.memory := memory;
      data := [];
    }

    method AddChar(c: char) returns (ret: int)
      modifies this
      ensures Returns(memory, ret)
      ensures data == if ret == 0 then old(data) + [c] else old(data)
    {
      var fails: bool := *;
      if fails && !memory {
        return -ENOMEM;
      }
      data := data + [c];
      return 0;
    }
  }

  // ----- the numbers -----

  /** floor(n / f * 10^p + 1/2). */
  function Rounded(n: nat, f: nat, p: nat): nat
    requires f > 0
  {
    (2 * n * Pow(10, p) + f) / (2 * f)
  }

  /** n * 10^i. */
  ghost function Tens(n: nat, i: nat): nat {
    if i == 0 then n else 10 * Tens(n, i - 1)
  }

  lemma {:induction false} TensIs(n: nat, i: nat)
    ensures Tens(n, i) == n * Pow(10, i)
  {
    if i > 0 {
      TensIs(n, i - 1);
      assert 10 * (n * Pow(10, i - 1)) == n * (10 * Pow(10, i - 1));
    }
  }

  lemma RoundedIs(n: nat, f: nat, p: nat, num: nat, rem: nat)
    requires Parts(Tens(n, p), f, num, rem)
    ensures Rounded(n, f, p) == num + if 2 * rem >= f then 1 else 0
  {
    TensIs(n, p);
    var up := if 2 * rem >= f then 1 else 0;
    var t := 2 * n * Pow(10, p) + f;
    assert t == 2 * (n * Pow(10, p)) + f;
    assert t == num * (2 * f) + 2 * rem + f by { assert 2 * (num * f) == num * (2 * f); }
    assert (num + up) * (2 * f) == num * (2 * f) + up * (2 * f);
    DivUnique(t, 2 * f, num + up, 2 * rem + f - up * (2 * f));
  }

  /** One more digit of a fraction. */
  lemma DigitStep(z: nat, num: nat, f: nat, rem: nat, d: nat, rem': nat)
    requires Parts(z, f, num, rem) && Parts(10 * rem, f, d, rem')
    ensures Parts(10 * z, f, 10 * num + d, rem')
  {
    assert (10 * num + d) * f == 10 * (num * f) + d * f;
  }

  /** A digit is at least five exactly if the rest was at least one half. */
  lemma HalfDigit(f: nat, rem: nat, d: nat, rem': nat)
    requires Parts(10 * rem, f, d, rem')
    ensures d >= 5 <==> 2 * rem >= f
  {
    if d >= 5 { MulGrows(5, d, f); } else { MulGrows(d + 1, 5, f); }
  }

  lemma DigitBelow10(f: nat, rem: nat, d: nat, rem': nat)
    requires Parts(10 * rem, f, d, rem') && rem < f
    ensures d < 10
  {
    if d >= 10 { MulGrows(10, d, f); }
  }

  /** A number below the base is its lowest limb. */
  lemma LowLimb(s: Limbs)
    requires |s| > 0 && Val(s) < BASE
    ensures s[0] == Val(s)
  {
  }

  // ----- the text -----

  /** Digits, with a dot before the last `precision` of them if there is one, and no zero before the
      other digits of the integer part. */
  ghost predicate IsDecimal(s: seq<char>, precision: nat, dot: bool) {
    && |s| >= 1 + precision + (if dot then 1 else 0)
    && (|s| > 1 + precision + (if dot then 1 else 0) ==> s[0] != '0')
    && forall i :: 0 <= i < |s| ==> if dot && i == |s| - precision - 1 then s[i] == '.' else IsDigit(s[i])
  }

  lemma {:induction false} NumReads(s: seq<char>)
    requires AllDigits(s)
    ensures Plain(s) && Num(s) == Read(s)
    decreases |s|
  {
    if s != [] {
      var n := |s| - 1;
      NumReads(s[..n]);
      assert s == s[..n] + [s[n]];
      ReadLast(s[..n], s[n]);
    }
  }

  /** A dot between digits is passed over. */
  lemma NumAcross(whole: seq<char>, frac: seq<char>)
    requires AllDigits(whole) && AllDigits(frac)
    ensures AllDigits(whole + frac) && Num(whole + ['.'] + frac) == Num(whole + frac)
  {
    NumAppend(whole, '.');
    NumCat(whole + ['.'], frac);
    NumCat(whole, frac);
  }

  lemma RoundedNearest(n: nat, f: nat, p: nat)
    requires f > 0
    ensures Nearest(Rounded(n, f, p), n * Pow(10, p), f)
  {
    HalfUpNearest(n * Pow(10, p), f);
    assert 2 * n * Pow(10, p) == 2 * (n * Pow(10, p));
  }

  lemma HalfUpNearest(v: nat, f: nat)
    requires f > 0
    ensures Nearest((2 * v + f) / (2 * f), v, f)
  {
    var t := 2 * v + f;
    var q, r := t / (2 * f), t % (2 * f);
    assert t == q * (2 * f) + r;
    assert q * (2 * f) == 2 * (q * f);
  }

  /** Text in decimal form, read. */
  lemma DecimalSays(s: seq<char>, n: nat, f: nat, p: nat, dot: bool)
    requires IsDecimal(s, p, dot) && (p > 0 ==> dot) && f > 0 && Num(s) == Rounded(n, f, p)
    ensures SaysDecimal(s, n, f, p, dot)
  {
    var k := if dot then |s| - p - 1 else |s|;
    var whole, frac := s[..k], if dot then s[k + 1..] else [];
    assert AllDigits(whole) && AllDigits(frac);
    assert s == if dot then whole + ['.'] + frac else whole + frac;
    NumAcross(whole, frac);
    NumReads(whole + frac);
    NumReads(whole);
    NumReads(frac);
    RoundedNearest(n, f, p);
    assert ReadsAs(s, dot, whole, frac);
  }

  /** The next digit of the fraction: the number times ten, its integer part taken away. */
  method NextDigit(bd: BigDouble) returns (ret: int, d: nat)
    requires bd.Valid() && bd.num.Value() < Pow(2, bd.firstIntegerBit)
    modifies bd.num, bd.helper
    ensures bd.Valid() && Returns(bd.num.memory, ret)
    ensures ret == 0 ==> d < 10 && Parts(10 * old(bd.num.Value()), Pow(2, bd.firstIntegerBit), d, bd.num.Value())
  {
    d := 0;
    ghost var rem := bd.num.Value();
    ret := bd.num.Mul(10);
    if ret != 0 {
      return;
    }
    assert bd.num.Value() == 10 * rem;
    ret := bd.TakeIntegerPart();
    if ret != 0 {
      return;
    }
    DigitBelow10(Pow(2, bd.firstIntegerBit), rem, bd.helper.Value(), bd.num.Value());
    d := LastDigit(bd.helper);
  }

  /** The lowest limb modulo ten, of a number below ten. */
  method LastDigit(helper: Bignum) returns (d: nat)
    requires helper.Valid() && helper.Value() < 10
    ensures d == helper.Value()
  {
    LowLimb(helper.data[..helper.len]);
    d := helper.data[0] % 10;
  }

  /** `v` is what is left, `h`, and the digits taken off it. */
  ghost predicate TakenOff(v: nat, h: nat, ds: seq<char>) {
    AllDigits(ds) && v == h * Pow(10, |ds|) + NumRev(ds)
  }

  lemma TakeOff(v: nat, h: nat, ds: seq<char>, q: nat, r: nat)
    requires TakenOff(v, h, ds) && h == q * 10 + r && r < 10
    ensures TakenOff(v, q, ds + [CharOf(r)])
  {
    var p := Pow(10, |ds|);
    NumRevAppend(ds, CharOf(r));
    assert (q * 10 + r) * p == q * (10 * p) + r * p by { assert q * 10 * p == q * (10 * p); }
  }

  /** The digits of the helper's number, highest first; the helper is used up. */
  method IntegerDigits(buff: Buffer, helper: Bignum) returns (ret: int, length: nat)
    requires helper.Valid()
    modifies buff, helper
    ensures helper.Valid() && Returns(helper.memory && buff.memory, ret)
    ensures ret == 0 ==>
      length > 0 && |buff.data| == |old(buff.data)| + length && buff.data[..|old(buff.data)|] == old(buff.data)
    ensures ret == 0 ==>
      AllDigits(buff.data[|old(buff.data)|..]) && Num(buff.data[|old(buff.data)|..]) == old(helper.Value())
    ensures ret == 0 ==> (length > 1 || old(helper.Value()) > 0 ==> buff.data[|old(buff.data)|] != '0')
  {
    ghost var was, v := buff.data, helper.Value();
    var start := |buff.data|;
    ghost var ds;
    ret, ds := LowDigits(buff, helper);
    if ret != 0 {
      return ret, 0;
    }
    length := |buff.data| - start;
    Halves(was, ds, buff.data);
    assert buff.data[start..start + length] == buff.data[start..];
    var r := Reverse(buff.data, start, start + length);
    assert buff.data[start + length..] == [] && r == was + Reversed(ds);
    Turned(was, ds, r);
    buff.data := r;
  }

  lemma Turned(was: seq<char>, ds: seq<char>, r: seq<char>)
    requires |ds| > 0 && AllDigits(ds) && r == was + Reversed(ds)
    ensures |r| == |was| + |ds| && r[..|was|] == was
    ensures AllDigits(r[|was|..]) && Num(r[|was|..]) == NumRev(ds) && r[|was|] == ds[|ds| - 1]
  {
    NumOfReversed(ds);
    ReversedAt(ds, 0);
    assert r[|was|..] == Reversed(ds);
  }

  /** The digits lowest first. */
  method LowDigits(buff: Buffer, helper: Bignum) returns (ret: int, ghost ds: seq<char>)
    requires helper.Valid()
    modifies buff, helper
    ensures helper.Valid() && Returns(helper.memory && buff.memory, ret)
    ensures ret == 0 ==>
      buff.data == old(buff.data) + ds && |ds| > 0 && AllDigits(ds) && NumRev(ds) == old(helper.Value())
    ensures ret == 0 ==> (|ds| > 1 || old(helper.Value()) > 0 ==> ds[|ds| - 1] != '0')
  {
    ghost var was, v := buff.data, helper.Value();
    ds := [];
    assert TakenOff(v, v, []);
    while true
      invariant helper.Valid() && buff.data == was + ds && TakenOff(v, helper.Value(), ds)
      invariant if ds == [] then helper.Value() == v else helper.Value() > 0
      decreases helper.Value()
    {
      ghost var h := helper.Value();
      var remainder := helper.Div(10);
      ret := buff.AddChar(CharOf(remainder));
      if ret != 0 {
        return;
      }
      TakeOff(v, h, ds, helper.Value(), remainder);
      ds := ds + [CharOf(remainder)];
      var c := helper.CompareTo(0);
      if c == 0 {
        return;
      }
    }
  }

  /** `precision` digits of the fraction. */
  method FractionDigits(buff: Buffer, bd: BigDouble, precision: nat, ghost n: nat) returns (ret: int)
    requires bd.Valid() && Parts(n, Pow(2, bd.firstIntegerBit), Num(buff.data), bd.num.Value())
    modifies buff, bd.num, bd.helper
    ensures bd.Valid() && Returns(bd.num.memory && buff.memory, ret)
    ensures ret == 0 ==> |buff.data| == |old(buff.data)| + precision && buff.data[..|old(buff.data)|] == old(buff.data)
    ensures ret == 0 ==> AllDigits(buff.data[|old(buff.data)|..])
    ensures ret == 0 ==> Parts(Tens(n, precision), Pow(2, bd.firstIntegerBit), Num(buff.data), bd.num.Value())
  {
    ghost var was, ds, f := buff.data, [], Pow(2, bd.firstIntegerBit);
    ret := 0;
    for i := 0 to precision
      invariant bd.Valid() && ret == 0
      invariant |ds| == i && AllDigits(ds) && buff.data == was + ds
      invariant Parts(Tens(n, i), f, Num(buff.data), bd.num.Value())
    {
      ghost var before := buff.data;
      ret := FractionDigit(buff, bd, Tens(n, i));
      if ret != 0 {
        return;
      }
      OneBehind(was, ds, before, buff.data);
      ds := ds + [buff.data[|before|]];
    }
    Halves(was, ds, buff.data);
  }

  lemma OneBehind(was: seq<char>, ds: seq<char>, s: seq<char>, t: seq<char>)
    requires AllDigits(ds) && s == was + ds && |t| == |s| + 1 && t[..|s|] == s && IsDigit(t[|s|])
    ensures t == was + (ds + [t[|s|]]) && AllDigits(ds + [t[|s|]])
  {
  }

  lemma Halves(was: seq<char>, ds: seq<char>, s: seq<char>)
    requires s == was + ds
    ensures s[..|was|] == was && s[|was|..] == ds
  {
  }

  method FractionDigit(buff: Buffer, bd: BigDouble, ghost z: nat) returns (ret: int)
    requires bd.Valid() && Parts(z, Pow(2, bd.firstIntegerBit), Num(buff.data), bd.num.Value())
    modifies buff, bd.num, bd.helper
    ensures bd.Valid() && Returns(bd.num.memory && buff.memory, ret)
    ensures ret == 0 ==> |buff.data| == |old(buff.data)| + 1 && buff.data[..|old(buff.data)|] == old(buff.data)
    ensures ret == 0 ==> IsDigit(buff.data[|old(buff.data)|])
    ensures ret == 0 ==> Parts(10 * z, Pow(2, bd.firstIntegerBit), Num(buff.data), bd.num.Value())
  {
    ghost var rem, num := bd.num.Value(), Num(buff.data);
    var d;
    ret, d := NextDigit(bd);
    if ret != 0 {
      return;
    }
    DigitStep(z, num, Pow(2, bd.firstIntegerBit), rem, d, bd.num.Value());
    NumDigit(buff.data, d);
    ret := buff.AddChar(CharOf(d));
  }

  /** A reserved place, the integer part, and a dot if there is one. */
  method IntegerText(buff: Buffer, bd: BigDouble, dot: bool) returns (ret: int, ghost ds: seq<char>)
    requires buff.data == [] && bd.Valid()
    modifies buff, bd.num, bd.helper
    ensures bd.Valid() && Returns(bd.num.memory && buff.memory, ret)
    ensures ret == 0 ==> |ds| > 0 && AllDigits(ds) && (|ds| > 1 ==> ds[0] != '0')
    ensures ret == 0 ==> buff.data == Head(ds, dot)
    ensures ret == 0 ==> Parts(old(bd.num.Value()), Pow(2, bd.firstIntegerBit), Num(buff.data), bd.num.Value())
  {
    ds := [];
    ret := buff.AddChar('\0');
    if ret != 0 {
      return;
    }
    ret := bd.TakeIntegerPart();
    if ret != 0 {
      return;
    }
    var length;
    ret, length := IntegerDigits(buff, bd.helper);
    if ret != 0 {
      return;
    }
    ds := buff.data[1..];
    LeadingPlace(buff.data, ds);
    assert buff.data == ['\0'] + ds;
    if dot {
      NumAppend(buff.data, '.');
      ret := buff.AddChar('.');
    }
  }

  ghost function Head(ds: seq<char>, dot: bool): seq<char> { ['\0'] + ds + (if dot then ['.'] else []) }

  /** The digits before the rounding: a reserved place, the integer part, a dot if there is one
      and the fraction. */
  method Truncated(buff: Buffer, bd: BigDouble, precision: nat, dot: bool) returns (ret: int)
    requires buff.data == [] && bd.Valid()
    modifies buff, bd.num, bd.helper
    ensures bd.Valid() && Returns(bd.num.memory && buff.memory, ret)
    ensures ret == 0 ==> Reserved(buff.data) && IsDecimal(buff.data[1..], precision, dot)
    ensures ret == 0 ==>
      Parts(Tens(old(bd.num.Value()), precision), Pow(2, bd.firstIntegerBit), Num(buff.data), bd.num.Value())
  {
    ghost var n := bd.num.Value();
    ghost var ds;
    ret, ds := IntegerText(buff, bd, dot);
    if ret != 0 {
      return;
    }
    ret := FractionDigits(buff, bd, precision, n);
    if ret == 0 { DecimalText(buff.data, ds, dot, precision); }
  }

  lemma {:induction false} LeadingPlace(s: seq<char>, ds: seq<char>)
    requires s == ['\0'] + ds
    ensures Num(s) == Num(ds)
    decreases |ds|
  {
    if ds == [] {
      assert s[..0] == [];
    } else {
      assert s[..|s| - 1] == ['\0'] + ds[..|ds| - 1];
      LeadingPlace(s[..|s| - 1], ds[..|ds| - 1]);
    }
  }

  lemma DecimalText(s: seq<char>, ds: seq<char>, dot: bool, precision: nat)
    requires |ds| > 0 && AllDigits(ds) && (|ds| > 1 ==> ds[0] != '0')
    requires var head := Head(ds, dot); |s| == |head| + precision && s[..|head|] == head && AllDigits(s[|head|..])
    ensures Reserved(s) && IsDecimal(s[1..], precision, dot)
  {
    var head := Head(ds, dot);
    var fs := s[|head|..];
    assert s == head + fs;
    forall i | 0 <= i < |s| - 1
      ensures if dot && i == |s| - 1 - precision - 1 then s[1..][i] == '.' else IsDigit(s[1..][i])
    {
      if i < |ds| {
        assert s[1..][i] == ds[i];
      } else if i + 1 >= |head| {
        assert s[1..][i] == fs[i + 1 - |head|];
      }
    }
    assert s[1..][0] == ds[0];
    forall i | 1 <= i < |s| ensures s[i] != '\0' {
      assert s[i] == s[1..][i - 1];
    }
  }

  /** format_sprintfDecimalForm: the text from `startOffset` on is the number with `precision`
      digits behind the dot, rounded half up. */
  method DecimalForm(buff: Buffer, bd: BigDouble, precision: nat, alternate: bool) returns (ret: int, startOffset: nat)
    requires buff.data == [] && bd.Valid()
    modifies buff, bd.num, bd.helper
    ensures bd.Valid() && Returns(bd.num.memory && buff.memory, ret) && Pow(2, bd.firstIntegerBit) > 0
    ensures ret == 0 ==>
      startOffset <= |buff.data| && IsDecimal(buff.data[startOffset..], precision, precision > 0 || alternate)
    ensures ret == 0 ==>
      Num(buff.data[startOffset..]) == Rounded(old(bd.num.Value()), Pow(2, bd.firstIntegerBit), precision)
  {
    startOffset := 1;
    ghost var n, f := bd.num.Value(), Pow(2, bd.firstIntegerBit);
    PowPositive(2, bd.firstIntegerBit);
    var dot := precision > 0 || alternate;
    ret := Truncated(buff, bd, precision, dot);
    if ret != 0 {
      return;
    }
    ghost var rem, num := bd.num.Value(), Num(buff.data);
    RoundedIs(n, f, precision, num, rem);
    var d;
    ret, d := NextDigit(bd);
    if ret != 0 {
      return;
    }
    HalfDigit(f, rem, d, bd.num.Value());
    startOffset := RoundText(buff, d >= 5, precision, dot);
  }

  /** The text after the rounding, and where it begins. */
  method RoundText(buff: Buffer, up: bool, precision: nat, dot: bool) returns (startOffset: nat)
    requires Reserved(buff.data) && IsDecimal(buff.data[1..], precision, dot)
    modifies buff
    ensures startOffset <= |buff.data| && IsDecimal(buff.data[startOffset..], precision, dot)
    ensures Num(buff.data[startOffset..]) == Num(old(buff.data)) + if up then 1 else 0
  {
    startOffset := 1;
    ghost var s := buff.data;
    LeadingPlace(s, s[1..]);
    if up {
      var r := Carry(buff.data);
      buff.data := r;
      IncrementForm(s);
      IncrementNum(s);
      IncrementLead(s);
      CarriedText(s, r, precision, dot);
      if r[0] == '1' {
        startOffset := 0;
        assert r[0..] == r;
      } else {
        assert r == ['\0'] + r[1..];
        LeadingPlace(r, r[1..]);
      }
    }
  }

  lemma CarriedText(s: seq<char>, r: seq<char>, precision: nat, dot: bool)
    requires Reserved(s) && IsDecimal(s[1..], precision, dot) && SameForm(s, r) && r[0] in {'\0', '1'}
    requires r[0] == '\0' && |s| > 1 && IsDigit(s[1]) && s[1] != '0' ==> r[1] != '0'
    ensures if r[0] == '1' then IsDecimal(r, precision, dot) else IsDecimal(r[1..], precision, dot)
  {
    forall i | 1 <= i < |r| ensures if dot && i == |r| - precision - 1 then r[i] == '.' else IsDigit(r[i]) {
      assert s[i] == s[1..][i - 1];
    }
    forall i | 0 <= i < |r| - 1
      ensures if dot && i == |r| - 1 - precision - 1 then r[1..][i] == '.' else IsDigit(r[1..][i])
    {
      assert r[1..][i] == r[i + 1];
    }
    assert s[1..][0] == s[1] && r[1..][0] == r[1];
  }

  /** Rounding does not depend on how the fraction is written. */
  lemma RoundedSame(n: nat, f: nat, u: nat, g: nat, p: nat)
    requires f > 0 && g > 0 && n * g == u * f
    ensures Rounded(n, f, p) == Rounded(u, g, p)
  {
    var t, q := Pow(10, p), Rounded(n, f, p);
    var a, b := 2 * n * t + f, 2 * u * t + g;
    assert a == q * (2 * f) + a % (2 * f) && a % (2 * f) < 2 * f;
    assert a * g == b * f by { SameRatio(n, f, u, g, t); }
    BetweenMultiples(a, b, f, g, q);
    DivIs(b, 2 * g, q);
  }

  lemma SameRatio(n: nat, f: nat, u: nat, g: nat, t: nat)
    requires n * g == u * f
    ensures (2 * n * t + f) * g == (2 * u * t + g) * f
  {
    assert (2 * n * t + f) * g == 2 * t * (n * g) + f * g;
    assert (2 * u * t + g) * f == 2 * t * (u * f) + g * f;
  }

  lemma BetweenMultiples(a: nat, b: nat, f: nat, g: nat, q: nat)
    requires f > 0 && g > 0 && a * g == b * f && q * (2 * f) <= a < q * (2 * f) + 2 * f
    ensures q * (2 * g) <= b < q * (2 * g) + 2 * g
  {
    assert q * (2 * f) * g == q * (2 * g) * f && (q * (2 * f) + 2 * f) * g == (q * (2 * g) + 2 * g) * f;
    MulGrows(q * (2 * f), a, g);
    MulGrows(a + 1, q * (2 * f) + 2 * f, g);
    if b < q * (2 * g) { MulGrows(b + 1, q * (2 * g), f); }
    if b >= q * (2 * g) + 2 * g { MulGrows(q * (2 * g) + 2 * g, b, f); }
  }

  /** A double that is finite and not negative, with `precision` digits behind the dot. */
  method PrintDecimal(d: Double, precision: nat, alternate: bool, memory: bool) returns (ret: int, text: seq<char>)
    requires d.Valid()
    ensures Returns(memory, ret)
    ensures Pow(2, 1074) > 0
    ensures ret == 0 ==>
      IsDecimal(text, precision, precision > 0 || alternate) && Num(text) == Rounded(d.Units(), Pow(2, 1074), precision)
    ensures ret == 0 ==> SaysDecimal(text, d.Units(), Pow(2, 1074), precision, precision > 0 || alternate)
  {
    text := [];
    PowPositive(2, 1074);
    var bd := new BigDouble(memory);
    ret := bd.Load(d);
    if ret != 0 {
      return;
    }
    ghost var n, f := bd.num.Value(), Pow(2, bd.firstIntegerBit);
    var buff := new Buffer(memory);
    var start;
    ret, start := DecimalForm(buff, bd, precision, alternate);
    if ret == 0 {
      RoundedSame(n, f, d.Units(), Pow(2, 1074), precision);
      text := buff.data[start..];
      DecimalSays(text, d.Units(), Pow(2, 1074), precision, precision > 0 || alternate);
    }
  }
}
