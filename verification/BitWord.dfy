/** A machine word as the small state sets of libphoenix/regex/regexec.c use it: bit tests,
    and, or, and shifts on an unsigned word of WORD_BITS bits. */
module BitWord {
  import opened Powers

  const WORD_BITS: nat := 32

  type Word = w: nat | w < 0x1_0000_0000

  /** Bit `i` of `v`. */
  predicate Bit(v: nat, i: nat) { if i == 0 then v % 2 == 1 else Bit(v / 2, i - 1) }

  function And(a: nat, b: nat): nat {
    if a == 0 then 0 else (if a % 2 == 1 && b % 2 == 1 then 1 else 0) + 2 * And(a / 2, b / 2)
  }

  function Or(a: nat, b: nat): nat
    decreases a + b
  {
    if a == 0 && b == 0 then 0 else (if a % 2 == 1 || b % 2 == 1 then 1 else 0) + 2 * Or(a / 2, b / 2)
  }

  function Shl(v: nat, n: nat): Word { v * Pow(2, n) % 0x1_0000_0000 }

  function Shr(v: nat, n: nat): nat { if n == 0 then v else Shr(v / 2, n - 1) }

  lemma {:induction false} BitZero(i: nat)
    ensures !Bit(0, i)
  {
    if i > 0 { BitZero(i - 1); }
  }

  lemma {:induction false} BitOr(a: nat, b: nat, i: nat)
    ensures Bit(Or(a, b), i) <==> Bit(a, i) || Bit(b, i)
  {
    if a == 0 && b == 0 { BitZero(i); }
    else if i > 0 { BitOr(a / 2, b / 2, i - 1); }
  }

  lemma {:induction false} BitPow(n: nat, i: nat)
    ensures Bit(Pow(2, n), i) <==> i == n
  {
    if n == 0 { if i > 0 { BitZero(i - 1); } }
    else if i > 0 { BitPow(n - 1, i - 1); }
  }

  lemma PowFits(n: nat)
    requires n < WORD_BITS
    ensures Pow(2, n) < 0x1_0000_0000
  {
    PowGrows(2, n, WORD_BITS);
    PowWord();
  }

  lemma PowWord()
    ensures Pow(2, WORD_BITS) == 0x1_0000_0000
  {
    assert Pow(2, 8) == 256;
    PowAdd(2, 8, 8);
    PowAdd(2, 16, 16);
  }

  lemma {:induction false} ShrPow(p: nat, n: nat)
    requires n <= p
    ensures Shr(Pow(2, p), n) == Pow(2, p - n)
  {
    if n > 0 { ShrPow(p - 1, n - 1); }
  }

  /** A single bit of a word, or nothing. */
  lemma {:induction false} AndPow(s: nat, p: nat)
    ensures And(s, Pow(2, p)) == if Bit(s, p) then Pow(2, p) else 0
  {
    if s == 0 { BitZero(p); }
    else if p == 0 { AndZero(s / 2); }
    else { AndPow(s / 2, p - 1); }
  }

  lemma {:induction false} AndZero(s: nat)
    ensures And(s, 0) == 0
  {
    if s > 0 { AndZero(s / 2); }
  }

  lemma {:induction false} OrFits(a: nat, b: nat, n: nat)
    requires a < Pow(2, n) && b < Pow(2, n)
    ensures Or(a, b) < Pow(2, n)
  {
    if a == 0 && b == 0 {} else { OrFits(a / 2, b / 2, n - 1); }
  }

  /** A word has no bit beyond its last. */
  lemma NoHighBit(w: Word, i: nat)
    requires i >= WORD_BITS
    ensures !Bit(w, i)
  {
    PowWord();
    BelowPower(w, WORD_BITS, i);
  }

  lemma {:induction false} BelowPower(a: nat, n: nat, i: nat)
    requires a < Pow(2, n) && i >= n
    ensures !Bit(a, i)
    decreases n
  {
    if n == 0 {
      BitZero(i);
    } else {
      BelowPower(a / 2, n - 1, i - 1);
    }
  }

  lemma {:induction false} BitsDecide(a: nat, b: nat)
    requires forall i :: 0 <= i ==> (Bit(a, i) <==> Bit(b, i))
    ensures a == b
    decreases a + b
  {
    assert Bit(a, 0) <==> Bit(b, 0);
    if a + b > 0 {
      forall i | 0 <= i
        ensures Bit(a / 2, i) <==> Bit(b / 2, i)
      {
        assert Bit(a, i + 1) <==> Bit(b, i + 1);
      }
      BitsDecide(a / 2, b / 2);
    }
  }

  /** Or-ing bits below 2^n into a multiple of it adds them. */
  lemma {:induction false} OrAdds(m: nat, b: nat, n: nat)
    requires b < Pow(2, n)
    ensures Or(m * Pow(2, n), b) == m * Pow(2, n) + b && Or(b, m * Pow(2, n)) == m * Pow(2, n) + b
    decreases n
  {
    if n == 0 {
      OrZero(m);
    } else {
      var h := m * Pow(2, n - 1);
      assert m * Pow(2, n) == 2 * h;
      OrAdds(m, b / 2, n - 1);
    }
  }

  lemma {:induction false} OrZero(a: nat)
    ensures Or(a, 0) == a && Or(0, a) == a
  {
    if a > 0 { OrZero(a / 2); }
  }
}
