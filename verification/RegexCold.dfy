/** The place `coldp` that `fast` of libphoenix/regex/engine.c reports: when the matcher goes cold, and
    an expression and a text for which a match begins before that place. */
module RegexCold {
  import opened RegexStrip
  import opened RegexLang
  import opened RegexTimes
  import opened RegexSegment
  import opened RegexCode
  import opened RegexChain
  import opened RegexEngine

  // ----- the sets are determined -----

  lemma {:induction false} ChainUnique(strip: Strip, sets: Sets, lo: nat, hi: nat, t: Text, ts: Times,
    sts: seq<set<nat>>, sts': seq<set<nat>>, k: nat)
    requires hi <= |strip| && Chain(strip, sets, lo, hi, t, ts, sts) && Chain(strip, sets, lo, hi, t, ts, sts')
    requires k <= |t|
    ensures sts[k] == sts'[k]
    decreases k
  {
    if k > 0 {
      ChainUnique(strip, sets, lo, hi, t, ts, sts, sts', k - 1);
      assert Link(strip, sets, lo, hi, sts[k - 1], t[k - 1], k - 1 + 1 in ts, sts[k - 1 + 1]);
      assert Link(strip, sets, lo, hi, sts'[k - 1], t[k - 1], k - 1 + 1 in ts, sts'[k - 1 + 1]);
    }
  }

  /** There is one such place. */
  lemma ColdUnique(strip: Strip, sets: Sets, lo: nat, hi: nat, text: Text, start: nat, end: nat, a: nat, b: nat)
    requires hi <= |strip|
    requires ColdAt(strip, sets, lo, hi, text, start, end, a) && ColdAt(strip, sets, lo, hi, text, start, end, b)
    ensures a == b
  {
    var n := end + 1;
    var st, first :| FastAt(strip, sets, lo, hi, text, start, a, n, end, st, first);
    var sts :| Stands(strip, sets, lo, hi, text, start, a, n, end, st, first, sts);
    var st', first' :| FastAt(strip, sets, lo, hi, text, start, b, n, end, st', first');
    var sts' :| Stands(strip, sets, lo, hi, text, start, b, n, end, st', first', sts');
    var t := text[start..end];
    ChainUnique(strip, sets, lo, hi, t, All(|t|), sts, sts', a - start);
    ChainUnique(strip, sets, lo, hi, t, All(|t|), sts, sts', b - start);
  }

  // ----- when the matcher goes cold -----

  /** A set of states that may be on, the start being switched on, is the first one exactly if every
      move on the character leads to one of the first states. */
  lemma GoesCold(strip: Strip, sets: Sets, lo: nat, hi: nat, prev: set<nat>, c: nat, first: set<nat>, cur: set<nat>)
    requires hi <= |strip| && Link(strip, sets, lo, hi, {}, 0, true, first)
    requires Link(strip, sets, lo, hi, prev, c, true, cur)
    ensures cur == first <==> Moves(strip, sets, lo, hi, prev, Ch(c), first)
  {
    assert Holds(strip, sets, lo, hi, {}, 0, true, cur);
    if Moves(strip, sets, lo, hi, prev, Ch(c), first) {
      assert Holds(strip, sets, lo, hi, prev, c, true, first);
    }
  }

  // ----- an expression whose match begins before it -----

  const A: nat := 97
  const B: nat := 98
  const C: nat := 99

  /** The code of `(a*|b)c`, and the end mark behind it. */
  const STRIP: Strip := [
    Sop(OLPAREN, 1), Sop(OCH_, 7), Sop(OQUEST_, 4), Sop(OPLUS_, 2), Sop(OCHAR, A), Sop(O_PLUS, 2), Sop(O_QUEST, 4),
    Sop(OOR1, 6), Sop(OOR2, 2), Sop(OCHAR, B), Sop(O_CH, 2), Sop(ORPAREN, 1), Sop(OCHAR, C), Sop(OEND, 0)]

  const TEXT: Text := [B, C]

  /** The states that are on at the start: all but the end of the loop and the end. */
  const FIRST: set<nat> := {0, 1, 2, 3, 4, 6, 7, 8, 9, 10, 11, 12}

  /** What stands between the parentheses. */
  ghost const EITHER: Lang := (iset{[]} + Some(Single([], Sop(OCHAR, A)))) + Single([], Sop(OCHAR, B))

  ghost const LANG: Lang := Join(EITHER, Single([], Sop(OCHAR, C)))

  lemma StripDenotes()
    ensures Segment(STRIP, [], 0, 13, LANG)
  {
    SymbolSegment(STRIP, [], 4);
    PlusSegment(STRIP, [], 3, 5, Single([], Sop(OCHAR, A)));
    QuestSegment(STRIP, [], 2, 6, Some(Single([], Sop(OCHAR, A))));
    SymbolSegment(STRIP, [], 9);
    LastTail(STRIP, [], 8, 10, Single([], Sop(OCHAR, B)));
    ChoiceSegment(STRIP, [], 1, 8, 11, iset{[]} + Some(Single([], Sop(OCHAR, A))), Single([], Sop(OCHAR, B)));
    GroupSegment(STRIP, [], 0, 11, EITHER);
    SymbolSegment(STRIP, [], 12);
    CatSegment(STRIP, [], 0, 12, 13, EITHER, Single([], Sop(OCHAR, C)));
  }

  /** Where the states of the code lead without input. */
  lemma EpsAre()
    ensures Eps(STRIP, 0) == {1} && Eps(STRIP, 1) == {2, 8} && Eps(STRIP, 2) == {3, 6} && Eps(STRIP, 3) == {4}
    ensures Eps(STRIP, 4) == {} && Eps(STRIP, 6) == {7} && Eps(STRIP, 7) == {10} && Eps(STRIP, 8) == {9}
    ensures Eps(STRIP, 9) == {} && Eps(STRIP, 10) == {11} && Eps(STRIP, 11) == {12} && Eps(STRIP, 12) == {}
  {
    assert Look(STRIP, 10) == 10;
    assert Look(STRIP, 8) == 10;
  }

  /** Whatever is closed and has the start has all of the first states. */
  lemma FirstIsLeast(s: set<nat>)
    requires Closed(STRIP, 0, 13, s) && 0 in s
    ensures FIRST <= s
  {
    EpsAre();
  }

  lemma FirstIsClosed(s: set<nat>)
    requires s == FIRST || s == FIRST + {13}
    ensures Closed(STRIP, 0, 13, s)
  {
    EpsAre();
    forall p | 0 <= p < 13 && p in s
      ensures Eps(STRIP, p) <= s
    {
    }
  }

  /** The states that accept a character. */
  lemma OnlyAccepts(p: nat, c: nat)
    requires p < 13 && Accepts([], STRIP[p], Ch(c))
    ensures (p == 4 && c == A) || (p == 9 && c == B) || (p == 12 && c == C)
  {
  }

  lemma LinkOf(prev: set<nat>, c: nat, s: set<nat>)
    requires s == FIRST || s == FIRST + {13}
    requires Moves(STRIP, [], 0, 13, prev, Ch(c), s)
    requires s == FIRST || (12 in prev && c == C)
    ensures Link(STRIP, [], 0, 13, prev, c, true, s)
  {
    FirstIsClosed(s);
    forall s' | Holds(STRIP, [], 0, 13, prev, c, true, s')
      ensures s <= s'
    {
      FirstIsLeast(s');
      if s != FIRST { assert Accepts([], STRIP[12], Ch(c)); }
    }
  }

  lemma MovesOf(c: nat, s: set<nat>)
    requires (c == B && s == FIRST) || (c == C && s == FIRST + {13})
    ensures Moves(STRIP, [], 0, 13, FIRST, Ch(c), s)
  {
    forall p | 0 <= p < 13 && p in FIRST && Accepts([], STRIP[p], Ch(c))
      ensures p + 1 in s
    {
      OnlyAccepts(p, c);
    }
  }

  lemma ColdThere()
    ensures ColdAt(STRIP, [], 0, 13, TEXT, 0, 2, 1)
  {
    LinkOf({}, 0, FIRST);
    MovesOf(B, FIRST);
    LinkOf(FIRST, B, FIRST);
    MovesOf(C, FIRST + {13});
    LinkOf(FIRST, C, FIRST + {13});
    var sts := [FIRST, FIRST, FIRST + {13}];
    var t := TEXT[0..2];
    assert t == TEXT;
    assert Between(0, 0, 2) && Between(1, 0, 2) && Between(2, 0, 2);
    assert Chain(STRIP, [], 0, 13, t, All(|t|), sts);
    assert 13 !in FIRST && 13 in FIRST + {13};
    assert Stands(STRIP, [], 0, 13, TEXT, 0, 1, 3, 2, FIRST + {13}, FIRST, sts);
    assert FastAt(STRIP, [], 0, 13, TEXT, 0, 1, 3, 2, FIRST + {13}, FIRST);
  }

  lemma MatchesThere()
    ensures TEXT[0..2] in LANG && TEXT[1..2] in LANG
  {
    var la, lb := EITHER, Single([], Sop(OCHAR, C));
    assert TEXT[0..2] == [B] + [C] && TEXT[1..2] == [] + [C];
    assert [B] in Single([], Sop(OCHAR, B)) && [C] in lb;
    InJoin(la, lb, [B], [C]);
    InJoin(la, lb, [], [C]);
  }

  /** On "bc" the matcher goes cold behind the "b", though "bc" is a match; another match, "c", begins
      where it went cold. */
  lemma ColdIsLate()
    ensures Segment(STRIP, [], 0, 13, LANG) && TEXT[0..2] in LANG && TEXT[1..2] in LANG
    ensures ColdAt(STRIP, [], 0, 13, TEXT, 0, 2, 1)
  {
    StripDenotes();
    MatchesThere();
    ColdThere();
  }
}
