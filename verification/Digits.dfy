/** Decimal digits in text, and the numbers they stand for. */
module Digits {
  import opened Powers

  predicate IsDigit(c: char) { '0' <= c <= '9' }

  function DigitOf(c: char): (d: nat)
    requires IsDigit(c)
    ensures d < 10
  {
    c as int - '0' as int
  }

  function CharOf(d: nat): (c: char)
    requires d < 10
    ensures IsDigit(c) && DigitOf(c) == d
  {
    (d + '0' as int) as char
  }

  /** The number a text stands for when all that is not a digit is passed over. */
  ghost function Num(s: seq<char>): nat {
    if s == [] then 0
    else
      var n, c := Num(s[..|s| - 1]), s[|s| - 1];
      if IsDigit(c) then 10 * n + DigitOf(c) else n
  }

  lemma NumAppend(s: seq<char>, c: char)
    ensures Num(s + [c]) == if IsDigit(c) then 10 * Num(s) + DigitOf(c) else Num(s)
  {
    assert (s + [c])[..|s|] == s;
  }

  lemma NumDigit(s: seq<char>, d: nat)
    requires d < 10
    ensures IsDigit(CharOf(d)) && Num(s + [CharOf(d)]) == 10 * Num(s) + d
  {
    NumAppend(s, CharOf(d));
  }

  ghost predicate AllDigits(s: seq<char>) {
    forall i :: 0 <= i < |s| ==> IsDigit(s[i])
  }

  lemma TenTimes(a: nat, p: nat, b: nat)
    ensures 10 * (a * p + b) == a * (10 * p) + 10 * b
  {
    assert 10 * (a * p) == a * (10 * p);
  }

  lemma {:induction false} NumCat(s: seq<char>, t: seq<char>)
    requires AllDigits(t)
    ensures Num(s + t) == Num(s) * Pow(10, |t|) + Num(t)
  {
    if t == [] {
      assert s + t == s;
    } else {
      var u, c := t[..|t| - 1], t[|t| - 1];
      assert s + t == s + u + [c] && t == u + [c];
      NumCat(s, u);
      NumAppend(s + u, c);
      NumAppend(u, c);
      TenTimes(Num(s), Pow(10, |u|), Num(u));
    }
  }

  lemma {:induction false} NumBound(s: seq<char>)
    requires AllDigits(s)
    ensures Num(s) < Pow(10, |s|)
  {
    if s != [] { NumBound(s[..|s| - 1]); }
  }

  // ----- digits lowest first -----

  /** The number of digits written lowest first. */
  ghost function NumRev(s: seq<char>): nat
    requires AllDigits(s)
  {
    if s == [] then 0 else DigitOf(s[0]) + 10 * NumRev(s[1..])
  }

  function Reversed(s: seq<char>): (r: seq<char>)
    ensures |r| == |s|
  {
    if s == [] then [] else Reversed(s[1..]) + [s[0]]
  }

  lemma {:induction false} ReversedAt(s: seq<char>, i: nat)
    requires i < |s|
    ensures Reversed(s)[i] == s[|s| - 1 - i]
  {
    if i < |s| - 1 { ReversedAt(s[1..], i); }
  }

  lemma {:induction false} NumOfReversed(s: seq<char>)
    requires AllDigits(s)
    ensures AllDigits(Reversed(s)) && Num(Reversed(s)) == NumRev(s)
  {
    if s != [] {
      NumOfReversed(s[1..]);
      NumAppend(Reversed(s[1..]), s[0]);
    }
  }

  lemma {:induction false} NumRevAppend(s: seq<char>, c: char)
    requires AllDigits(s) && IsDigit(c)
    ensures AllDigits(s + [c]) && NumRev(s + [c]) == NumRev(s) + DigitOf(c) * Pow(10, |s|)
  {
    if s == [] {
      assert [c][1..] == [];
      assert s + [c] == [c];
    } else {
      assert (s + [c])[1..] == s[1..] + [c];
      NumRevAppend(s[1..], c);
      assert 10 * (DigitOf(c) * Pow(10, |s| - 1)) == DigitOf(c) * (10 * Pow(10, |s| - 1));
    }
  }

  /** Outside `i` to `j` the stretch from `start` to `end` is turned round, elsewhere it is as it was. */
  ghost predicate Turning(buff: seq<char>, r: seq<char>, start: nat, end: nat, i: int, j: int) {
    && |r| == |buff| && start <= i <= end <= |buff| && i + j == start + end - 1
    && forall k {:trigger r[k]} :: 0 <= k < |buff| ==>
      r[k] == buff[if start <= k < end && !(i <= k <= j) then start + end - 1 - k else k]
  }

  lemma TurnStep(buff: seq<char>, r: seq<char>, start: nat, end: nat, i: int, j: int)
    requires Turning(buff, r, start, end, i, j) && i < j
    ensures Turning(buff, r[i := r[j]][j := r[i]], start, end, i + 1, j - 1)
  {
    var t := r[i := r[j]][j := r[i]];
    assert r[i] == buff[i] && r[j] == buff[j];
    forall k | 0 <= k < |buff|
      ensures t[k] == buff[if start <= k < end && !(i + 1 <= k <= j - 1) then start + end - 1 - k else k]
    {
      if k != i && k != j { assert t[k] == r[k]; }
    }
  }

  lemma TurnEnd(buff: seq<char>, r: seq<char>, start: nat, end: nat, i: int, j: int)
    requires Turning(buff, r, start, end, i, j) && i >= j
    ensures r == buff[..start] + Reversed(buff[start..end]) + buff[end..]
  {
    var s := buff[start..end];
    if s != [] { ReversedAt(s, 0); }
    var t := buff[..start] + Reversed(s) + buff[end..];
    forall k | 0 <= k < |buff|
      ensures |t| == |buff| && r[k] == t[k]
    {
      if start <= k < end {
        ReversedAt(s, k - start);
        assert s[|s| - 1 - (k - start)] == buff[start + end - 1 - k];
      }
    }
  }

  /** format_bufferReverse. */
  method Reverse(buff: seq<char>, start: nat, end: nat) returns (r: seq<char>)
    requires start < end <= |buff|
    ensures r == buff[..start] + Reversed(buff[start..end]) + buff[end..]
  {
    r := buff;
    var i, j := start, end - 1;
    while i < j
      invariant Turning(buff, r, start, end, i, j)
    {
      TurnStep(buff, r, start, end, i, j);
      r := r[i := r[j]][j := r[i]];
      i, j := i + 1, j - 1;
    }
    TurnEnd(buff, r, start, end, i, j);
  }

  // ----- adding one -----

  /** The carry of rounding, from the end of the text on: nines become zeros, what is neither
      digit nor the reserved first place is passed over. */
  function Increment(s: seq<char>): seq<char> {
    if s == [] then []
    else
      var t, c := s[..|s| - 1], s[|s| - 1];
      if c == '\0' then t + ['1']
      else if c == '9' then Increment(t) + ['0']
      else if IsDigit(c) then t + [CharOf(DigitOf(c) + 1)]
      else Increment(t) + [c]
  }

  /** A text that begins with a reserved place. */
  ghost predicate Reserved(s: seq<char>) {
    |s| > 0 && s[0] == '\0' && forall i :: 1 <= i < |s| ==> s[i] != '\0'
  }

  /** Behind the first place, digits for digits and the same characters otherwise. */
  ghost predicate SameForm(s: seq<char>, t: seq<char>) {
    |s| == |t| && forall i :: 1 <= i < |s| ==> if IsDigit(s[i]) then IsDigit(t[i]) else t[i] == s[i]
  }

  lemma {:induction false} IncrementForm(s: seq<char>)
    requires Reserved(s)
    ensures SameForm(s, Increment(s)) && Increment(s)[0] in {'\0', '1'}
    ensures Increment(s)[0] == '1' ==> forall i :: 1 <= i < |s| && IsDigit(s[i]) ==> Increment(s)[i] == '0'
  {
    var t := s[..|s| - 1];
    if |s| > 1 && (s[|s| - 1] == '9' || !IsDigit(s[|s| - 1])) {
      IncrementForm(t);
    }
  }

  /** A first digit that is not zero stays so, unless a digit is put before it. */
  lemma {:induction false} IncrementLead(s: seq<char>)
    requires Reserved(s)
    ensures |Increment(s)| == |s|
    ensures |s| > 1 && IsDigit(s[1]) && s[1] != '0' && Increment(s)[0] == '\0' ==> Increment(s)[1] != '0'
  {
    var t, c := s[..|s| - 1], s[|s| - 1];
    if |s| > 1 && (c == '9' || !IsDigit(c)) {
      IncrementLead(t);
    }
  }

  /** Incremented text is worth one more. */
  lemma {:induction false} IncrementNum(s: seq<char>)
    requires Reserved(s)
    ensures Num(Increment(s)) == Num(s) + 1
  {
    var t, c := s[..|s| - 1], s[|s| - 1];
    if |s| == 1 {
      assert t == [] && t + ['1'] == ['1'];
      NumAppend(t, '1');
    } else if c == '9' {
      IncrementNum(t);
      NumAppend(Increment(t), '0');
    } else if IsDigit(c) {
      NumAppend(t, CharOf(DigitOf(c) + 1));
    } else {
      IncrementNum(t);
      NumAppend(Increment(t), c);
    }
  }

  /** The carry stands before the place behind `n`: what is before it is as it was. */
  ghost predicate CarryAt(buff: seq<char>, r: seq<char>, n: nat) {
    && n <= |buff| == |r| && r[..n] == buff[..n]
    && Increment(buff) == Increment(buff[..n]) + r[n..]
  }

  lemma CarryStarts(buff: seq<char>)
    ensures CarryAt(buff, buff, |buff|)
  {
    assert buff[..|buff|] == buff && buff[|buff|..] == [];
  }

  /** A place that takes the carry in. */
  lemma CarryEnds(buff: seq<char>, r: seq<char>, n: nat, x: char)
    requires 0 < n && CarryAt(buff, r, n) && Increment(buff[..n]) == buff[..n - 1] + [x]
    ensures r[n - 1 := x] == Increment(buff)
  {
    assert r[..n - 1] == r[..n][..n - 1] && buff[..n - 1] == buff[..n][..n - 1];
    assert r[n - 1 := x] == r[..n - 1] + [x] + r[n..];
  }

  /** A place that passes the carry on. */
  lemma CarryGoes(buff: seq<char>, r: seq<char>, n: nat, x: char)
    requires 0 < n && CarryAt(buff, r, n) && Increment(buff[..n]) == Increment(buff[..n - 1]) + [x]
    ensures CarryAt(buff, r[n - 1 := x], n - 1)
  {
    assert r[..n - 1] == r[..n][..n - 1] && buff[..n - 1] == buff[..n][..n - 1];
    assert r[n - 1 := x][..n - 1] == r[..n - 1];
    assert r[n - 1 := x][n - 1..] == [x] + r[n..];
  }

  lemma CarryPlace(buff: seq<char>, r: seq<char>, n: nat)
    requires 0 < n && CarryAt(buff, r, n)
    ensures r[n - 1] == buff[n - 1]
    ensures var c, t := buff[n - 1], buff[..n - 1];
      Increment(buff[..n]) == if c == '\0' then t + ['1'] else if c == '9' then Increment(t) + ['0']
        else if IsDigit(c) then t + [CharOf(DigitOf(c) + 1)] else Increment(t) + [c]
  {
    assert r[..n][n - 1] == buff[..n][n - 1];
    assert buff[..n][..n - 1] == buff[..n - 1];
  }

  /** One turn of the carry loop. */
  method CarryTurn(buff: seq<char>, r: seq<char>, n: nat) returns (r': seq<char>, carry: bool)
    requires 0 < n && CarryAt(buff, r, n)
    ensures if carry then CarryAt(buff, r', n - 1) && buff[n - 1] != '\0' else r' == Increment(buff)
  {
    var c := r[n - 1];
    CarryPlace(buff, r, n);
    var x := if c == '\0' then '1' else if c == '9' then '0' else if IsDigit(c) then CharOf(DigitOf(c) + 1) else c;
    carry := c != '\0' && (c == '9' || !IsDigit(c));
    if carry { CarryGoes(buff, r, n, x); } else { CarryEnds(buff, r, n, x); }
    r' := r[n - 1 := x];
  }

  /** The carry loop: from the last character back. */
  method Carry(buff: seq<char>) returns (r: seq<char>)
    requires Reserved(buff)
    ensures r == Increment(buff)
  {
    r := buff;
    var n := |buff|;
    var carry := true;
    CarryStarts(buff);
    while carry
      invariant carry ==> 0 < n <= |buff| && CarryAt(buff, r, n)
      invariant !carry ==> r == Increment(buff)
      decreases if carry then n else 0
    {
      r, carry := CarryTurn(buff, r, n);
      n := n - 1;
    }
  }
}
