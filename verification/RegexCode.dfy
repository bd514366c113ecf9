/** Well-formed segments with their languages: how they are put together, and that they may be
    moved about because operands are relative. */
module RegexCode {
  import opened RegexStrip
  import opened RegexLang
  import opened RegexTimes
  import opened RegexSegment

  /** The code in [lo, hi) is well formed and accepts exactly the texts of `la`. */
  ghost predicate Segment(strip: Strip, sets: Sets, lo: nat, hi: nat, la: Lang) {
    WellFormed(strip, lo, hi) && Denotes(strip, sets, lo, hi, la)
  }

  /** The rest of a choice, from the OOR2 at `q` to behind its O_CH. */
  ghost predicate Tail(strip: Strip, sets: Sets, q: nat, end: nat, la: Lang) {
    WellFormed(strip, q, end) && ChoiceOk(strip, end, q) && TailDenotes(strip, sets, q, end, la)
  }

  // ----- well-formedness -----

  lemma {:induction false} ChoiceWiden(strip: Strip, hi: nat, hi': nat, q: nat)
    requires hi <= hi' <= |strip| && ChoiceOk(strip, hi, q)
    ensures ChoiceOk(strip, hi', q)
    decreases if q < hi then hi - q else 0
  {
    if strip[q].op != O_CH { ChoiceWiden(strip, hi, hi', q + strip[q].opnd); }
  }

  lemma Widen(strip: Strip, lo: nat, hi: nat, lo': nat, hi': nat, p: nat)
    requires lo' <= lo <= p < hi <= hi' <= |strip| && OpOk(strip, lo, hi, p)
    ensures OpOk(strip, lo', hi', p)
  {
    if strip[p].op == OOR1 { ChoiceWiden(strip, hi, hi', p + 1); }
  }

  lemma WidenAll(strip: Strip, lo: nat, hi: nat, lo': nat, hi': nat)
    requires lo' <= lo && hi <= hi' <= |strip| && WellFormed(strip, lo, hi)
    ensures forall p :: lo <= p < hi ==> OpOk(strip, lo', hi', p)
  {
    forall p | lo <= p < hi ensures OpOk(strip, lo', hi', p) {
      Widen(strip, lo, hi, lo', hi', p);
    }
  }

  /** Between two operators that are well formed there. */
  lemma WrapWell(strip: Strip, lo: nat, e: nat)
    requires lo < e < |strip| && WellFormed(strip, lo + 1, e)
    requires OpOk(strip, lo, e + 1, lo) && OpOk(strip, lo, e + 1, e)
    ensures WellFormed(strip, lo, e + 1)
  {
    var hi := e + 1;
    forall p | lo <= p < hi ensures OpOk(strip, lo, hi, p) {
      if lo < p < e { Widen(strip, lo + 1, e, lo, hi, p); }
    }
  }

  lemma ForkWell(strip: Strip, q: nat, n: nat, end: nat)
    requires q + 1 < n < end <= |strip| && strip[q].op in {OCH_, OOR2} && strip[q].opnd == n - q
    requires strip[n - 1].op == OOR1
    requires WellFormed(strip, q + 1, n - 1) && WellFormed(strip, n, end) && ChoiceOk(strip, end, n)
    ensures WellFormed(strip, q, end)
  {
    WidenAll(strip, q + 1, n - 1, q, end);
    WidenAll(strip, n, end, q, end);
  }

  // ----- the combinations -----

  lemma EmptySegment(strip: Strip, sets: Sets, off: nat)
    requires off <= |strip|
    ensures Segment(strip, sets, off, off, iset{[]})
  {
    EmptyDenotes(strip, sets, off);
  }

  lemma SymbolSegment(strip: Strip, sets: Sets, off: nat)
    requires off < |strip| && strip[off].op in {OCHAR, OANY, OANYOF}
    ensures Segment(strip, sets, off, off + 1, Single(sets, strip[off]))
  {
    SymbolDenotes(strip, sets, off);
  }

  lemma CatSegment(strip: Strip, sets: Sets, lo: nat, m: nat, hi: nat, la: Lang, lb: Lang)
    requires Segment(strip, sets, lo, m, la) && Segment(strip, sets, m, hi, lb)
    ensures Segment(strip, sets, lo, hi, Join(la, lb))
  {
    assert WellFormed(strip, lo, hi) by {
      WidenAll(strip, lo, m, lo, hi);
      WidenAll(strip, m, hi, lo, hi);
    }
    CatDenotes(strip, sets, lo, m, hi, la, lb);
  }

  lemma PlusSegment(strip: Strip, sets: Sets, lo: nat, e: nat, la: Lang)
    requires IsPlus(strip, lo, e) && Segment(strip, sets, lo + 1, e, la)
    ensures Segment(strip, sets, lo, e + 1, Some(la))
  {
    WrapWell(strip, lo, e);
    PlusDenotes(strip, sets, lo, e, la);
  }

  lemma QuestSegment(strip: Strip, sets: Sets, lo: nat, e: nat, la: Lang)
    requires IsQuest(strip, lo, e) && Segment(strip, sets, lo + 1, e, la)
    ensures Segment(strip, sets, lo, e + 1, iset{[]} + la)
  {
    WrapWell(strip, lo, e);
    QuestDenotes(strip, sets, lo, e, la);
  }

  lemma GroupSegment(strip: Strip, sets: Sets, lo: nat, e: nat, la: Lang)
    requires IsGroup(strip, lo, e) && Segment(strip, sets, lo + 1, e, la)
    ensures Segment(strip, sets, lo, e + 1, la)
  {
    WrapWell(strip, lo, e);
    GroupDenotes(strip, sets, lo, e, la);
  }

  lemma LastTail(strip: Strip, sets: Sets, q: nat, e: nat, la: Lang)
    requires IsLast(strip, q, e) && Segment(strip, sets, q + 1, e, la)
    ensures Tail(strip, sets, q, e + 1, la)
  {
    assert ChoiceOk(strip, e + 1, e);
    WrapWell(strip, q, e);
    LastDenotes(strip, sets, q, e, la);
  }

  lemma MoreTail(strip: Strip, sets: Sets, q: nat, n: nat, end: nat, la: Lang, lb: Lang)
    requires q + 1 < n < |strip| && strip[q] == Sop(OOR2, n - q) && strip[n - 1].op == OOR1
    requires Segment(strip, sets, q + 1, n - 1, la) && Tail(strip, sets, n, end, lb)
    ensures Tail(strip, sets, q, end, la + lb)
  {
    ForkWell(strip, q, n, end);
    MoreDenotes(strip, sets, q, n, end, la, lb);
  }

  lemma ChoiceSegment(strip: Strip, sets: Sets, lo: nat, n: nat, end: nat, la: Lang, lb: Lang)
    requires lo + 1 < n < |strip| && strip[lo] == Sop(OCH_, n - lo) && strip[n - 1].op == OOR1
    requires Segment(strip, sets, lo + 1, n - 1, la) && Tail(strip, sets, n, end, lb)
    ensures Segment(strip, sets, lo, end, la + lb)
  {
    ForkWell(strip, lo, n, end);
    ChoiceDenotes(strip, sets, lo, n, end, la, lb);
  }

  // ----- moving code -----

  ghost predicate SameAt(strip: Strip, strip': Strip, d: int, p: nat) {
    p < |strip| && 0 <= p + d < |strip'| && strip'[p + d] == strip[p]
  }

  /** `strip'` has at distance `d` what `strip` has in [lo, hi). */
  ghost predicate Copied(strip: Strip, strip': Strip, d: int, lo: nat, hi: nat) {
    lo <= hi <= |strip| && 0 <= lo + d && hi + d <= |strip'| && forall p :: lo <= p < hi ==> SameAt(strip, strip', d, p)
  }

  lemma {:induction false} LookMoves(strip: Strip, strip': Strip, d: int, lo: nat, hi: nat, q: nat)
    requires Copied(strip, strip', d, lo, hi) && lo <= q && ChoiceOk(strip, hi, q)
    ensures Look(strip', q + d) == Look(strip, q) + d && ChoiceOk(strip', hi + d, q + d)
    decreases if q < hi then hi - q else 0
  {
    assert SameAt(strip, strip', d, q);
    if strip[q].op != O_CH {
      var n := q + strip[q].opnd;
      LookMoves(strip, strip', d, lo, hi, n);
      assert Look(strip, q) == Look(strip, n) && Look(strip', q + d) == Look(strip', n + d);
    }
  }

  lemma OpMoves(strip: Strip, strip': Strip, d: int, lo: nat, hi: nat, p: nat, p': nat)
    requires Copied(strip, strip', d, lo, hi) && lo <= p < hi && OpOk(strip, lo, hi, p) && p' == p + d
    ensures OpOk(strip', lo + d, hi + d, p')
    ensures forall q: nat :: q in Eps(strip', p') ==> q - d >= 0 && q - d in Eps(strip, p)
  {
    assert SameAt(strip, strip', d, p);
    var s := strip[p];
    if s.op == OOR1 {
      LookMoves(strip, strip', d, lo, hi, p + 1);
    } else if s.op == OOR2 {
      assert SameAt(strip, strip', d, p + s.opnd);
    }
  }

  lemma WellMoves(strip: Strip, strip': Strip, d: int, lo: nat, hi: nat)
    requires Copied(strip, strip', d, lo, hi) && WellFormed(strip, lo, hi)
    ensures WellFormed(strip', lo + d, hi + d)
  {
    var l, h := lo + d, hi + d;
    forall p | l <= p < h ensures OpOk(strip', l, h, p) {
      OpMoves(strip, strip', d, lo, hi, p - d, p);
    }
  }

  ghost predicate Between(p: nat, lo: int, hi: int) {
    lo <= p <= hi
  }

  ghost function Shift(run: Run, d: int, lo: nat, hi: nat): Run
    requires lo + d >= 0
  {
    var l, h := lo + d, hi + d;
    map p: nat | l <= p <= h && Between(p, l, h) :: On(run, p - d)
  }

  lemma ShiftOn(run: Run, d: int, lo: nat, hi: nat, p: nat, p': nat)
    requires lo + d >= 0 && lo <= p <= hi && p' == p + d
    ensures On(Shift(run, d, lo, hi), p') == On(run, p)
  {
    assert Between(p', lo + d, hi + d);
  }

  lemma ShiftTo(strip: Strip, strip': Strip, d: int, lo: nat, hi: nat, run: Run, p: nat, p': nat, q: nat)
    requires Copied(strip, strip', d, lo, hi) && WellFormed(strip, lo, hi) && lo <= p < hi && p' == p + d
    requires p' < |strip'|
    requires (forall r :: r in Eps(strip, p) ==> On(run, p) <= On(run, r)) && q in Eps(strip', p')
    ensures On(run, p) <= On(Shift(run, d, lo, hi), q)
  {
    OpMoves(strip, strip', d, lo, hi, p, p');
    EpsInside(strip, lo, hi, p);
    ShiftOn(run, d, lo, hi, q - d, q);
  }

  lemma ShiftAt(strip: Strip, sets: Sets, strip': Strip, d: int, lo: nat, hi: nat, t: Text, run: Run, run': Run,
    p: nat, p': nat)
    requires Copied(strip, strip', d, lo, hi) && WellFormed(strip, lo, hi) && lo <= p < hi && p' == p + d
    requires FlowsAt(strip, sets, t, run, p) && run' == Shift(run, d, lo, hi)
    ensures FlowsAt(strip', sets, t, run', p')
  {
    assert p' < |strip'| && strip'[p'] == strip[p] by { assert SameAt(strip, strip', d, p); }
    assert On(run', p') == On(run, p) by { ShiftOn(run, d, lo, hi, p, p'); }
    assert On(run', p' + 1) == On(run, p + 1) by { ShiftOn(run, d, lo, hi, p + 1, p' + 1); }
    forall q | q in Eps(strip', p') ensures On(run', p') <= On(run', q) {
      ShiftTo(strip, strip', d, lo, hi, run, p, p', q);
    }
  }

  lemma ShiftFlows(strip: Strip, sets: Sets, strip': Strip, d: int, lo: nat, hi: nat, t: Text, run: Run, run': Run)
    requires Copied(strip, strip', d, lo, hi) && WellFormed(strip, lo, hi) && Flows(strip, sets, lo, hi, t, run)
    requires run' == Shift(run, d, lo, hi)
    ensures Flows(strip', sets, lo + d, hi + d, t, run')
  {
    var l, h := lo + d, hi + d;
    forall p | l <= p < h ensures FlowsAt(strip', sets, t, run', p) {
      ShiftAt(strip, sets, strip', d, lo, hi, t, run, run', p - d, p);
    }
    forall p | p in run' ensures Within(t, run'[p]) {
      assert run'[p] == On(run, p - d);
    }
  }

  lemma CopiedBack(strip: Strip, strip': Strip, d: int, lo: nat, hi: nat)
    requires Copied(strip, strip', d, lo, hi)
    ensures Copied(strip', strip, -d, lo + d, hi + d)
  {
    var l, h, c := lo + d, hi + d, -d;
    forall p | l <= p < h ensures SameAt(strip', strip, c, p) {
      assert SameAt(strip, strip', d, p - d);
    }
  }

  lemma CompleteMoves(strip: Strip, sets: Sets, lo: nat, hi: nat, strip': Strip, d: int, l: nat, h: nat, la: Lang,
    t: Text, run: Run)
    requires Copied(strip', strip, d, l, h) && lo == l + d && hi == h + d && WellFormed(strip', l, h)
    requires Complete(strip, sets, lo, hi, la) && Flows(strip', sets, l, h, t, run)
    ensures After(t, la, On(run, l)) <= On(run, h)
  {
    var r := Shift(run, d, l, h);
    ShiftFlows(strip', sets, strip, d, l, h, t, run, r);
    ShiftOn(run, d, l, h, l, lo);
    ShiftOn(run, d, l, h, h, hi);
  }

  lemma SoundMoves(strip: Strip, sets: Sets, strip': Strip, d: int, lo: nat, hi: nat, la: Lang, t: Text, ts: Times)
    requires Copied(strip, strip', d, lo, hi) && WellFormed(strip, lo, hi) && Sound(strip, sets, lo, hi, la)
    requires Within(t, ts)
    ensures HasExact(strip', sets, lo + d, hi + d, la, t, ts)
  {
    assert HasExact(strip, sets, lo, hi, la, t, ts);
    var r :| Exact(strip, sets, lo, hi, la, t, ts, r);
    var r' := Shift(r, d, lo, hi);
    ShiftFlows(strip, sets, strip', d, lo, hi, t, r, r');
    ShiftOn(r, d, lo, hi, lo, lo + d);
    ShiftOn(r, d, lo, hi, hi, hi + d);
    assert Exact(strip', sets, lo + d, hi + d, la, t, ts, r');
  }

  lemma StaysWell(strip: Strip, lo: nat, hi: nat)
    requires WellFormed(strip, lo, hi)
    ensures Stays(strip, lo, hi)
  {
    forall p, q | lo <= p < hi && q in Eps(strip, p) ensures lo <= q <= hi {
      EpsInside(strip, lo, hi, p);
    }
  }

  /** A segment keeps its language wherever it stands. */
  lemma SegmentMoves(strip: Strip, sets: Sets, strip': Strip, d: int, lo: nat, hi: nat, la: Lang)
    requires Copied(strip, strip', d, lo, hi) && Segment(strip, sets, lo, hi, la)
    ensures Segment(strip', sets, lo + d, hi + d, la)
  {
    WellMoves(strip, strip', d, lo, hi);
    StaysWell(strip', lo + d, hi + d);
    CopiedBack(strip, strip', d, lo, hi);
    var l, h := lo + d, hi + d;
    forall t, run | Flows(strip', sets, l, h, t, run) ensures After(t, la, On(run, l)) <= On(run, h) {
      CompleteMoves(strip, sets, lo, hi, strip', -d, l, h, la, t, run);
    }
    forall t, ts | Within(t, ts) ensures HasExact(strip', sets, l, h, la, t, ts) {
      SoundMoves(strip, sets, strip', d, lo, hi, la, t, ts);
    }
  }
}
