/** The positions of a text that lie a text of some language further on, as an algebra. */
module RegexTimes {
  import opened RegexStrip
  import opened RegexLang

  type Times = set<nat>

  ghost predicate Within(t: Text, ts: Times) {
    forall i :: i in ts ==> i <= |t|
  }

  ghost predicate Hit(t: Text, la: Lang, ts: Times, j: nat) {
    j <= |t| && exists i :: i in ts && i <= j && t[i..j] in la
  }

  /** The positions behind one of `ts` by a text of `la`. */
  ghost function After(t: Text, la: Lang, ts: Times): Times {
    set j: nat | j <= |t| && Hit(t, la, ts, j)
  }

  lemma Reach(t: Text, la: Lang, ts: Times, i: nat, j: nat)
    requires i in ts && i <= j <= |t| && t[i..j] in la
    ensures j in After(t, la, ts)
  {
    assert Hit(t, la, ts, j);
  }

  lemma Grows(t: Text, la: Lang, ts: Times, us: Times)
    requires ts <= us
    ensures After(t, la, ts) <= After(t, la, us)
  {
  }

  lemma Slices(t: Text, i: nat, m: nat, j: nat)
    requires i <= m <= j <= |t|
    ensures t[i..j] == t[i..m] + t[m..j] && t[i..j][..m - i] == t[i..m] && t[i..j][m - i..] == t[m..j]
  {
  }

  lemma AfterJoin(t: Text, la: Lang, lb: Lang, ts: Times)
    ensures After(t, Join(la, lb), ts) == After(t, lb, After(t, la, ts))
  {
    forall j | j in After(t, Join(la, lb), ts) ensures j in After(t, lb, After(t, la, ts)) {
      var i :| i in ts && i <= j && t[i..j] in Join(la, lb);
      var m: nat :| Splits(la, lb, t[i..j], m);
      Slices(t, i, i + m, j);
      Reach(t, la, ts, i, i + m);
      Reach(t, lb, After(t, la, ts), i + m, j);
    }
    forall j | j in After(t, lb, After(t, la, ts)) ensures j in After(t, Join(la, lb), ts) {
      assert Hit(t, lb, After(t, la, ts), j);
      var m :| m in After(t, la, ts) && m <= j && t[m..j] in lb;
      assert Hit(t, la, ts, m);
      var i :| i in ts && i <= m && t[i..m] in la;
      Slices(t, i, m, j);
      InJoin(la, lb, t[i..m], t[m..j]);
      Reach(t, Join(la, lb), ts, i, j);
    }
  }

  lemma AfterNothing(t: Text, ts: Times)
    requires Within(t, ts)
    ensures After(t, iset{[]}, ts) == ts
  {
    forall i | i in ts ensures i in After(t, iset{[]}, ts) {
      assert t[i..i] == [];
      Reach(t, iset{[]}, ts, i, i);
    }
  }

  lemma AfterEither(t: Text, la: Lang, lb: Lang, ts: Times)
    ensures After(t, la + lb, ts) == After(t, la, ts) + After(t, lb, ts)
  {
    forall j | j in After(t, la, ts) + After(t, lb, ts) ensures j in After(t, la + lb, ts) {
      if Hit(t, la, ts, j) {
        var i :| i in ts && i <= j && t[i..j] in la;
        Reach(t, la + lb, ts, i, j);
      } else {
        assert Hit(t, lb, ts, j);
        var i :| i in ts && i <= j && t[i..j] in lb;
        Reach(t, la + lb, ts, i, j);
      }
    }
  }

  // ----- loops -----

  ghost predicate HitMany(t: Text, la: Lang, ts: Times, j: nat) {
    exists n: nat :: j in After(t, Power(la, n), ts)
  }

  /** The positions behind one of `ts` by any number of texts of `la`. */
  ghost function Star(t: Text, la: Lang, ts: Times): Times {
    set j: nat | j <= |t| && HitMany(t, la, ts, j)
  }

  lemma AfterSnoc(t: Text, la: Lang, n: nat, ts: Times)
    ensures After(t, la, After(t, Power(la, n), ts)) <= After(t, Power(la, n + 1), ts)
  {
    forall j | j in After(t, la, After(t, Power(la, n), ts)) ensures j in After(t, Power(la, n + 1), ts) {
      assert Hit(t, la, After(t, Power(la, n), ts), j);
      var m :| m in After(t, Power(la, n), ts) && m <= j && t[m..j] in la;
      assert Hit(t, Power(la, n), ts, m);
      var i :| i in ts && i <= m && t[i..m] in Power(la, n);
      Slices(t, i, m, j);
      SnocPower(la, n, t[i..m], t[m..j]);
      Reach(t, Power(la, n + 1), ts, i, j);
    }
  }

  lemma PowerIsSome(t: Text, la: Lang, n: nat, ts: Times)
    requires n >= 1
    ensures After(t, Power(la, n), ts) <= After(t, Some(la), ts)
  {
    forall j | j in After(t, Power(la, n), ts) ensures j in After(t, Some(la), ts) {
      assert Hit(t, Power(la, n), ts, j);
      var i :| i in ts && i <= j && t[i..j] in Power(la, n);
      Reach(t, Some(la), ts, i, j);
    }
  }

  /** What holds at the head of a loop entered at `ts`, and behind its body. */
  lemma LoopInside(t: Text, la: Lang, ts: Times)
    requires Within(t, ts)
    ensures ts <= Star(t, la, ts)
    ensures After(t, la, Star(t, la, ts)) <= Star(t, la, ts)
    ensures After(t, la, Star(t, la, ts)) <= After(t, Some(la), ts)
  {
    AfterNothing(t, ts);
    assert After(t, Power(la, 0), ts) == ts;
    forall j | j in After(t, la, Star(t, la, ts))
      ensures j in Star(t, la, ts) && j in After(t, Some(la), ts)
    {
      assert Hit(t, la, Star(t, la, ts), j);
      var m :| m in Star(t, la, ts) && m <= j && t[m..j] in la;
      assert HitMany(t, la, ts, m);
      var n: nat :| m in After(t, Power(la, n), ts);
      Reach(t, la, After(t, Power(la, n), ts), m, j);
      AfterSnoc(t, la, n, ts);
      PowerIsSome(t, la, n + 1, ts);
    }
  }

  lemma {:induction false} LoopFollows(t: Text, la: Lang, n: nat, head: Times, tail: Times, ts: Times)
    requires ts <= head && After(t, la, head) <= tail <= head && n >= 1
    ensures After(t, Power(la, n), ts) <= tail
    decreases n
  {
    AfterJoin(t, la, Power(la, n - 1), ts);
    Grows(t, la, ts, head);
    if n == 1 {
      AfterNothing(t, After(t, la, ts));
    } else {
      LoopFollows(t, la, n - 1, head, tail, After(t, la, ts));
    }
  }

  /** A loop whose head gets the positions of its tail holds all repetitions. */
  lemma LoopOutside(t: Text, la: Lang, head: Times, tail: Times)
    requires After(t, la, head) <= tail <= head
    ensures After(t, Some(la), head) <= tail
  {
    forall j | j in After(t, Some(la), head) ensures j in tail {
      assert Hit(t, Some(la), head, j);
      var i :| i in head && i <= j && t[i..j] in Some(la);
      var n: nat :| n >= 1 && t[i..j] in Power(la, n);
      Reach(t, Power(la, n), head, i, j);
      LoopFollows(t, la, n, head, tail, head);
    }
  }

  // ----- single characters -----

  ghost predicate Passes(sets: Sets, t: Text, s: Sop, ts: Times, j: nat) {
    1 <= j <= |t| && j - 1 in ts && Accepts(sets, s, Ch(t[j - 1]))
  }

  /** The positions behind a character that the operator accepts. */
  ghost function Next(sets: Sets, t: Text, s: Sop, ts: Times): Times {
    set j: nat | j <= |t| && Passes(sets, t, s, ts, j)
  }

  lemma AfterSingle(sets: Sets, t: Text, s: Sop, ts: Times)
    ensures After(t, Single(sets, s), ts) == Next(sets, t, s, ts)
  {
    forall j | j in After(t, Single(sets, s), ts) ensures j in Next(sets, t, s, ts) {
      assert Hit(t, Single(sets, s), ts, j);
      var i :| i in ts && i <= j && t[i..j] in Single(sets, s);
      SingleAccepts(sets, s, t[i..j]);
      assert i == j - 1 && t[i..j] == [t[i]];
      assert Passes(sets, t, s, ts, j);
    }
    forall j | j in Next(sets, t, s, ts) ensures j in After(t, Single(sets, s), ts) {
      assert Passes(sets, t, s, ts, j);
      assert t[j - 1..j] == [t[j - 1]];
      SingleAccepts(sets, s, t[j - 1..j]);
      Reach(t, Single(sets, s), ts, j - 1, j);
    }
  }
}
