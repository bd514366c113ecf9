/** libphoenix/stdio/bignum.c. */
module Bignum {
  import opened Powers
  import opened Arith
  import opened BitWord
  import opened Limbs

  const STACK_BUFFER_SIZE := 4
  const ENOMEM := 12

  /** A call succeeds; only for want of memory may it fail. */
  predicate Returns(memory: bool, ret: int) { ret == 0 || (ret == -ENOMEM && !memory) }

  /** bignum_cmpInternal on the limbs in use: 1, 0 or -1 as the first number is above, equal to or
      below the second. */
  method Compare(a: Limbs, b: Limbs) returns (r: int)
    requires |a| > 0 && |b| > 0 && AreLimbs(a) && AreLimbs(b)
    ensures r == if Val(a) > Val(b) then 1 else if Val(a) < Val(b) then -1 else 0
    decreases if |a| < |b| then 1 else 0
  {
    if |a| < |b| {
      var s := Compare(b, a);
      return -s;
    }
    var i := |a| - 1;
    while i >= |b|
      invariant |b| - 1 <= i < |a|
      invariant forall k :: i < k < |a| ==> a[k] == 0
    {
      if a[i] != 0 {
        HigherLimb(a, b, i);
        return 1;
      }
      i := i - 1;
    }
    SameHigh(a, |b|);
    i := |b|;
    while true
      invariant 0 < i <= |b|
      invariant Val(a[i..|b|]) == Val(b[i..])
      decreases i
    {
      i := i - 1;
      if a[i] != b[i] {
        DecidingLimb(a[..|b|], b, i);
        return if a[i] > b[i] then 1 else -1;
      }
      assert a[i..|b|][1..] == a[i + 1..|b|] && b[i..][1..] == b[i + 1..];
      if i == 0 {
        assert a[0..|b|] == a[..|b|] && b[0..] == b;
        return 0;
      }
    }
  }

  /** Limbs above a position that are all zero add nothing. */
  lemma SameHigh(a: Limbs, n: nat)
    requires n <= |a| && forall k :: n <= k < |a| ==> a[k] == 0
    ensures Val(a) == Val(a[..n])
  {
    ValSplit(a, n);
    ValZeros(a[n..]);
  }

  /** A limb that is not zero where the other number has none. */
  lemma HigherLimb(a: Limbs, b: Limbs, i: nat)
    requires AreLimbs(b) && |b| <= i < |a| && a[i] != 0
    ensures Val(a) > Val(b)
  {
    var hi := a[|b|..];
    assert Val(hi) >= 1 by {
      ValZeros(hi);
      assert hi[i - |b|] == a[i];
    }
    ValBound(b);
    ValSplit(a, |b|);
    AbovePower(Val(b), Pow(BASE, |b|), Val(a[..|b|]), Val(hi));
  }

  /** The highest limb in which two numbers differ decides. */
  lemma DecidingLimb(a: Limbs, b: Limbs, i: nat)
    requires |a| == |b| && AreLimbs(a) && AreLimbs(b) && i < |a| && Val(a[i + 1..]) == Val(b[i + 1..])
    ensures a[i] > b[i] ==> Val(a) > Val(b)
    ensures a[i] < b[i] ==> Val(a) < Val(b)
  {
    var p, x, y := Pow(BASE, i), Val(a[i..]), Val(b[i..]);
    assert x - a[i] == y - b[i] by {
      assert a[i..][1..] == a[i + 1..] && b[i..][1..] == b[i + 1..];
    }
    ValSplit(a, i);
    ValSplit(b, i);
    if a[i] > b[i] {
      ValBound(b[..i]);
      AboveMultiple(Val(b[..i]), p, y, Val(a[..i]), x);
    } else if a[i] < b[i] {
      ValBound(a[..i]);
      AboveMultiple(Val(a[..i]), p, x, Val(b[..i]), y);
    }
  }

  /** A limb set below the limbs that are done. */
  lemma SetAt(was: Limbs, data: Limbs, i: nat, len: nat, d: nat, done: Limbs)
    requires i < len <= |data| && i < |was| && data[..i + 1] == was[..i + 1] && data[i + 1..len] == done
    ensures data[i := d][i..len] == [d] + done && data[i := d][..i] == was[..i]
  {
    assert data[..i] == data[..i + 1][..i] == was[..i + 1][..i];
    assert data[i := d][i..len] == [d] + data[i + 1..len];
  }

  /** A limb replaced, those behind it left. */
  lemma LimbSet(data: Limbs, was: Limbs, i: nat, d: nat)
    requires i < |was| <= |data| && data[i..|was|] == was[i..] && d < BASE
    ensures data[i := d][..i + 1] == data[..i] + [d] && data[i := d][i + 1..|was|] == was[i + 1..]
  {
    assert data[i := d][i + 1..|was|] == data[i..|was|][1..];
    assert was[i + 1..] == was[i..][1..];
  }

  class Bignum {
    /** The storage, `size` limbs of it, of which `len` are in use. */
    var data: Limbs
    var len: nat
    var onHeap: bool
    /** Whether there is memory whenever the number grows. */
    const memory: bool

    ghost predicate Valid()
      reads this
    {
      0 < len <= |data| && AreLimbs(data) && (|data| > STACK_BUFFER_SIZE ==> onHeap)
    }

    ghost function Value(): nat
      reads this
      requires Valid()
    {
      Val(data[..len])
    }

    /** bignum_init of a size that the buffer in the structure has room for. */
    constructor (size: nat, val: nat, memory: bool)
      requires 0 < size <= STACK_BUFFER_SIZE && val < BASE
      ensures Valid() && Value() == val && |data| == size && len == 1 && this.memory == memory
    {
      this.memory := memory;
      data := [val] + seq(size - 1, _ => 0);
      len, onHeap := 1, false;
      new;
      assert data[..1] == [val];
      ValOne(val);
    }

    method Zero()
      requires Valid()
      modifies this
      ensures Valid() && Value() == 0 && len == 1 && |data| == |old(data)|
    {
      data := seq(|data|, _ => 0);
      len := 1;
      assert data[..1] == [0];
      ValOne(0);
    }

    /** bignum_resize; it fails only for want of memory, and then nothing has changed. */
    method Resize(newSize: nat) returns (ret: int)
      requires Valid() && newSize > 0
      modifies this
      ensures Returns(memory, ret)
      ensures ret != 0 ==> data == old(data) && len == old(len) && onHeap == old(onHeap)
      ensures ret == 0 ==> Valid() && |data| == newSize && len == (if old(len) > newSize then newSize else old(len))
      ensures ret == 0 ==> data[..len] == old(data)[..len]
    {
      var fails: bool := *;
      fails := fails && !memory;
      if |data| == newSize {
        return 0;
      }
      if |data| > newSize {
        if onHeap && newSize > STACK_BUFFER_SIZE && fails {
          return -ENOMEM;
        }
        onHeap := onHeap && newSize > STACK_BUFFER_SIZE;
        data := data[..newSize];
        len := if len > newSize then newSize else len;
        return 0;
      }
      if newSize <= STACK_BUFFER_SIZE {
        var rest := Junk(newSize - |data|);
        data := data + rest;
        return 0;
      }
      if fails {
        return -ENOMEM;
      }
      var rest := Junk(newSize - |data|);
      data := data + if onHeap then rest else seq(newSize - |data|, _ => 0);
      onHeap := true;
      return 0;
    }

    /** What memory holds before it is written. */
    method Junk(n: nat) returns (s: Limbs)
      ensures |s| == n && AreLimbs(s)
    {
      s := [];
      while |s| < n
        invariant |s| <= n && AreLimbs(s)
      {
        var x: nat :| x < BASE;
        s := s + [x];
      }
    }

    /** bignum_push: one more limb on top. */
    method Push(val: nat) returns (ret: int)
      requires Valid() && val < BASE
      modifies this
      ensures Valid() && Returns(memory, ret)
      ensures ret == 0 ==> len == old(len) + 1 && data[..len] == old(data)[..old(len)] + [val]
      ensures ret == 0 ==> Value() == old(Value()) + val * Pow(BASE, old(len))
    {
      ghost var was := data[..len];
      if len >= |data| {
        ret := Resize(2 * |data|);
        if ret != 0 {
          return;
        }
      }
      data := data[len := val];
      len := len + 1;
      assert data[..len] == was + [val];
      ValAppend(was, val);
      return 0;
    }

    /** bignum_mul. */
    method Mul(val: nat) returns (ret: int)
      requires Valid() && val < BASE
      modifies this
      ensures Valid() && Returns(memory, ret)
      ensures ret == 0 ==> Value() == old(Value()) * val
    {
      ghost var was := data[..len];
      var carry: nat, i: nat := 0, 0;
      while i < len
        invariant i <= len == old(len) && Valid() && carry < BASE
        invariant data[i..len] == was[i..]
        invariant Val(data[..i]) + carry * Pow(BASE, i) == Val(was[..i]) * val
      {
        ghost var done := data[..i];
        assert data[i] == was[i] by { assert data[i..len][0] == was[i..][0]; }
        var d, carry' := MulAdd(data[i], val, carry);
        MulLimb(was, done, i, val, carry, d, carry');
        LimbSet(data, was, i, d);
        data := data[i := d];
        carry := carry';
        i := i + 1;
      }
      assert was[..i] == was;
      if carry > 0 {
        ret := Push(carry);
      } else {
        ret := 0;
      }
    }

    /** bignum_shiftlInternal. */
    method ShiftLeftBy(shift: nat) returns (ret: int)
      requires Valid() && 0 < shift <= BITS
      modifies this
      ensures Valid() && Returns(memory, ret)
      ensures ret == 0 ==> Value() == old(Value()) * Pow(2, shift)
    {
      ghost var was := data[..len];
      PowLimb(shift);
      var carry: nat, i: nat := 0, 0;
      while i < len
        invariant i <= len == old(len) && Valid() && carry < Pow(2, shift)
        invariant data[i..len] == was[i..]
        invariant Val(data[..i]) + carry * Pow(BASE, i) == Val(was[..i]) * Pow(2, shift)
      {
        ghost var done := data[..i];
        assert data[i] == was[i] by { assert data[i..len][0] == was[i..][0]; }
        var d, carry' := LimbUp(data[i], shift, carry);
        MulLimb(was, done, i, Pow(2, shift), carry, d, carry');
        LimbSet(data, was, i, d);
        data := data[i := d];
        carry := carry';
        i := i + 1;
      }
      assert was[..i] == was;
      if carry != 0 {
        ret := Push(carry);
      } else {
        ret := 0;
      }
    }

    /** bignum_shiftl by at least one bit: times 2^shift. */
    method ShiftLeft(shift: nat) returns (ret: int)
      requires Valid() && shift > 0
      modifies this
      ensures Valid() && Returns(memory, ret)
      ensures ret == 0 ==> Value() == old(Value()) * Pow(2, shift)
    {
      var left := shift;
      while left > BITS
        invariant 0 < left <= shift && Valid() && Value() == old(Value()) * Pow(2, shift - left)
      {
        ghost var v, done := old(Value()), shift - left;
        ret := ShiftLeftBy(BITS);
        if ret != 0 {
          return;
        }
        PowTimes(v, done, BITS);
        left := left - BITS;
      }
      ghost var v, done := old(Value()), shift - left;
      ret := ShiftLeftBy(left);
      PowTimes(v, done, left);
    }

    /** bignum_shiftrInternal. */
    method ShiftRightBy(shift: nat) returns (ghost r: nat)
      requires Valid() && 0 < shift <= BITS
      modifies this
      ensures Valid() && len == old(len) && |data| == |old(data)|
      ensures old(Value()) == Value() * Pow(2, shift) + r && r < Pow(2, shift)
    {
      ghost var was := data[..len];
      PowLimb(shift);
      r := 0;
      var carry: nat, i: nat := 0, len;
      while i > 0
        invariant i <= len == old(len) && Valid() && r < Pow(2, shift) && carry == r * Pow(2, BITS - shift)
        invariant |data| == |old(data)|
        invariant data[..i] == was[..i]
        invariant Val(was[i..]) == Val(data[i..len]) * Pow(2, shift) + r
      {
        i := i - 1;
        ghost var quot := data[i + 1..len];
        assert data[i] == was[i] by { assert data[..i + 1][i] == was[..i + 1][i]; }
        var d, carry' := LimbDown(data[i], shift, carry, r);
        DivLimb(was, i, quot, r, Pow(2, shift), d, was[i] % Pow(2, shift));
        r := was[i] % Pow(2, shift);
        SetAt(was, data, i, len, d, quot);
        data := data[i := d];
        carry := carry';
      }
      assert was[0..] == was && data[0..len] == data[..len];
    }

    /** bignum_shiftr, with the remainder that is lost. */
    method ShiftRightRest(shift: nat) returns (ghost rest: nat)
      requires Valid()
      modifies this
      ensures Valid() && len == old(len) && |data| == |old(data)|
      ensures old(Value()) == Value() * Pow(2, shift) + rest && rest < Pow(2, shift)
    {
      var left: nat := shift;
      ghost var v := Value();
      rest := 0;
      while left > BITS
        invariant left <= shift && Valid() && len == old(len) && |data| == |old(data)|
        invariant v == Value() * Pow(2, shift - left) + rest && rest < Pow(2, shift - left)
      {
        ghost var mid := Value();
        ghost var r := ShiftRightBy(BITS);
        rest := PowRemainders(v, mid, Value(), shift - left, BITS, rest, r);
        left := left - BITS;
      }
      if left != 0 {
        ghost var mid := Value();
        ghost var r := ShiftRightBy(left);
        rest := PowRemainders(v, mid, Value(), shift - left, left, rest, r);
      }
    }

    /** bignum_shiftr: floor division by 2^shift. */
    method ShiftRight(shift: nat)
      requires Valid()
      modifies this
      ensures Valid() && len == old(len) && |data| == |old(data)|
      ensures Pow(2, shift) > 0 && Value() == old(Value()) / Pow(2, shift)
    {
      ghost var rest := ShiftRightRest(shift);
      PowPositive(2, shift);
      DivUnique(old(Value()), Pow(2, shift), Value(), rest);
    }

    /** bignum_cmp with a word. */
    method CompareTo(val: nat) returns (r: int)
      requires Valid() && val < BASE
      ensures r == if Value() > val then 1 else if Value() < val then -1 else 0
    {
      ValOne(val);
      r := Compare(data[..len], [val]);
    }

    /** bignum_copy into this number. */
    method Copy(source: Bignum) returns (ret: int)
      requires Valid() && source.Valid() && source != this
      modifies this
      ensures Valid() && Returns(memory, ret)
      ensures ret == 0 ==> Value() == source.Value() && len == source.len
    {
      ret := 0;
      if |data| < |source.data| {
        ret := Resize(|source.data|);
        if ret != 0 {
          return;
        }
      }
      var i := 0;
      while i < |source.data|
        invariant 0 <= i <= |source.data| <= |data| && Valid()
        invariant data[..i] == source.data[..i]
      {
        data := data[i := source.data[i]];
        i := i + 1;
      }
      len := source.len;
      assert data[..len] == data[..i][..len] == source.data[..len];
    }

    /** bignum_div: the quotient stays, the remainder is below the divisor. */
    method Div(divisor: nat) returns (remainder: nat)
      requires Valid() && 0 < divisor < BASE
      modifies this
      ensures Valid() && len == old(len) && |data| == |old(data)|
      ensures old(Value()) == Value() * divisor + remainder && remainder < divisor
    {
      ghost var was := data[..len];
      var temp: nat, i: nat := 0, len;
      while i > 0
        invariant i <= len == old(len) && Valid() && temp < divisor && |data| == |old(data)|
        invariant data[..i] == was[..i]
        invariant Val(was[i..]) == Val(data[i..len]) * divisor + temp
      {
        i := i - 1;
        ghost var quot := data[i + 1..len];
        assert data[i] == was[i] by { assert data[..i + 1][i] == was[..i + 1][i]; }
        var q, r := DivDigit(temp, data[i], divisor);
        DivLimb(was, i, quot, temp, divisor, q, r);
        SetAt(was, data, i, len, q, quot);
        data := data[i := q];
        temp := r;
      }
      assert was[0..] == was && data[0..len] == data[..len];
      remainder := temp;
    }
  }

  lemma NoneStays(x: nat, a: nat, k: nat)
    requires k > 0
    ensures k == 1 ==> x % k * a == 0
  {
  }

  /** A limb moved up by `shift` bits, the bits that come in from below, and those that go out. */
  method LimbUp(x: nat, shift: nat, carry: nat) returns (d: nat, carry': nat)
    requires x < BASE && 0 < shift <= BITS && carry < Pow(2, shift)
    ensures d + carry' * BASE == x * Pow(2, shift) + carry && d < BASE && carry' < Pow(2, shift)
  {
    PowBits(shift);
    var a, k := Pow(2, shift), Pow(2, BITS - shift);
    ShiftUp(x, a, k);
    var q, m := DivMod(x, k);
    d := if shift == BITS then 0 else x * a % BASE;
    NoneStays(x, a, k);
    assert d == m * a by { if shift == BITS { assert Pow(2, 0) == 1; } }
    OrAdds(m, carry, shift);
    d := Or(d, carry);
    carry' := q;
  }

  lemma AllOut(x: nat, a: nat, k: nat, q: nat)
    requires a > 0 && a * k == BASE && x < BASE && q == x / a
    ensures k == 1 ==> q == 0
  {
  }

  /** A limb moved down by `shift` bits; the bits that go out come in to the limb below. */
  method LimbDown(x: nat, shift: nat, carry: nat, ghost r: nat) returns (d: nat, carry': nat)
    requires x < BASE && 0 < shift <= BITS && r < Pow(2, shift) && carry == r * Pow(2, BITS - shift)
    ensures d * Pow(2, shift) + x % Pow(2, shift) == r * BASE + x && d < BASE && x % Pow(2, shift) < Pow(2, shift)
    ensures carry' == x % Pow(2, shift) * Pow(2, BITS - shift)
  {
    PowBits(shift);
    var a, k := Pow(2, shift), Pow(2, BITS - shift);
    ghost var e := DownLimb(x, a, k, r);
    var q, m := DivMod(x, a);
    d := if shift == BITS then 0 else q;
    AllOut(x, a, k, q);
    assert d == q by { if shift == BITS { assert Pow(2, 0) == 1; } }
    OrAdds(r, q, BITS - shift);
    d := Or(d, carry);
    assert d == e;
    carry' := m * k;
  }

  /** A product of two limbs and a carry, in two limbs. */
  method MulAdd(x: nat, v: nat, carry: nat) returns (d: nat, carry': nat)
    requires x < BASE && v < BASE && carry < BASE
    ensures d + carry' * BASE == x * v + carry && d < BASE && carry' < BASE
  {
    MulFits(x, v, carry);
    var temp := x * v + carry;
    d, carry' := temp % BASE, temp / BASE;
  }

  method DivDigit(r: nat, x: nat, v: nat) returns (q: nat, r': nat)
    requires r < v && x < BASE
    ensures q * v + r' == r * BASE + x && q < BASE && r' < v
  {
    DivFits(r, x, v);
    var temp := r * BASE + x;
    q, r' := temp / v, temp % v;
  }

  lemma MulFits(x: nat, v: nat, c: nat)
    requires x < BASE && v < BASE && c < BASE
    ensures (x * v + c) / BASE < BASE
  {
    MulGrows(x, BASE - 1, v);
    MulGrows(v, BASE - 1, BASE - 1);
  }
}
