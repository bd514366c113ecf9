/** Code generation of libphoenix/regex/regcomp.c: the strip as it grows, and the code for
    repetition, option and choice. */
module RegexCompile {
  import opened RegexStrip
  import opened RegexLang
  import opened RegexCode

  const DUPMAX := 255

  const REG_BADRPT := 13
  const REG_EMPTY := 14

  /** The count that stands for no upper bound. */
  const INFINITY := DUPMAX + 1

  // ----- the languages of counted repetition -----

  ghost predicate InBounds(la: Lang, from: nat, to: nat, n: nat, w: Text) {
    from <= n && (to == INFINITY || n <= to) && w in Power(la, n)
  }

  ghost predicate IsCounted(la: Lang, from: nat, to: nat, w: Text) {
    exists n: nat :: InBounds(la, from, to, n, w)
  }

  /** `from` to `to` texts of `la` one after the other. */
  ghost function Counted(la: Lang, from: nat, to: nat): Lang {
    iset w: Text | IsCounted(la, from, to, w)
  }

  lemma CountedNone(la: Lang)
    ensures Counted(la, 0, 0) == iset{[]}
  {
    assert InBounds(la, 0, 0, 0, []);
    forall w | w in Counted(la, 0, 0) ensures w == [] {
      var n: nat :| InBounds(la, 0, 0, n, w);
    }
  }

  lemma CountedOne(la: Lang)
    ensures Counted(la, 1, 1) == la
  {
    assert Power(la, 1) == la by { JoinNothing(la); }
    forall w | w in la ensures w in Counted(la, 1, 1) {
      assert InBounds(la, 1, 1, 1, w);
    }
    forall w | w in Counted(la, 1, 1) ensures w in la {
      var n: nat :| InBounds(la, 1, 1, n, w);
    }
  }

  lemma CountedSome(la: Lang)
    ensures Counted(la, 1, INFINITY) == Some(la)
  {
    forall w | w in Some(la) ensures w in Counted(la, 1, INFINITY) {
      var n: nat :| n >= 1 && w in Power(la, n);
      assert InBounds(la, 1, INFINITY, n, w);
    }
    forall w | w in Counted(la, 1, INFINITY) ensures w in Some(la) {
      var n: nat :| InBounds(la, 1, INFINITY, n, w);
    }
  }

  lemma CountedFromZero(la: Lang, to: nat)
    requires to >= 1
    ensures Counted(la, 0, to) == Counted(la, 1, to) + iset{[]}
  {
    assert InBounds(la, 0, to, 0, []);
    forall w | w in Counted(la, 0, to) ensures w in Counted(la, 1, to) + iset{[]} {
      var n: nat :| InBounds(la, 0, to, n, w);
      if n > 0 { assert InBounds(la, 1, to, n, w); }
    }
    forall w | w in Counted(la, 1, to) ensures w in Counted(la, 0, to) {
      var n: nat :| InBounds(la, 1, to, n, w);
      assert InBounds(la, 0, to, n, w);
    }
  }

  /** One less to go: what `x{from,to}` is made of. */
  function Less(to: nat): nat
    requires to >= 1
  {
    if to == INFINITY then to else to - 1
  }

  lemma CountedMore(la: Lang, from: nat, to: nat)
    requires 2 <= from <= to <= INFINITY
    ensures Counted(la, from, to) == Join(la, Counted(la, from - 1, Less(to)))
  {
    forall w | w in Counted(la, from, to) ensures w in Join(la, Counted(la, from - 1, Less(to))) {
      var n: nat :| InBounds(la, from, to, n, w);
      var i := InJoinAt(la, Power(la, n - 1), w);
      assert InBounds(la, from - 1, Less(to), n - 1, w[i..]);
      assert Splits(la, Counted(la, from - 1, Less(to)), w, i);
    }
    forall w | w in Join(la, Counted(la, from - 1, Less(to))) ensures w in Counted(la, from, to) {
      var i := InJoinAt(la, Counted(la, from - 1, Less(to)), w);
      var n: nat :| InBounds(la, from - 1, Less(to), n, w[i..]);
      assert Splits(la, Power(la, n), w, i);
      assert InBounds(la, from, to, n + 1, w);
    }
  }

  lemma CountedOption(la: Lang, to: nat)
    requires 2 <= to < INFINITY
    ensures Counted(la, 1, to) == Join(la + iset{[]}, Counted(la, 1, to - 1))
  {
    var lo := la + iset{[]};
    forall w | w in Counted(la, 1, to) ensures w in Join(lo, Counted(la, 1, to - 1)) {
      var n: nat :| InBounds(la, 1, to, n, w);
      if n == 1 {
        assert InBounds(la, 1, to - 1, 1, w);
        assert w[..0] == [] && w[0..] == w;
        assert Splits(lo, Counted(la, 1, to - 1), w, 0);
      } else {
        var i := InJoinAt(la, Power(la, n - 1), w);
        assert InBounds(la, 1, to - 1, n - 1, w[i..]);
        assert Splits(lo, Counted(la, 1, to - 1), w, i);
      }
    }
    forall w | w in Join(lo, Counted(la, 1, to - 1)) ensures w in Counted(la, 1, to) {
      var i := InJoinAt(lo, Counted(la, 1, to - 1), w);
      var n: nat :| InBounds(la, 1, to - 1, n, w[i..]);
      if w[..i] in la {
        assert Splits(la, Power(la, n), w, i);
        assert InBounds(la, 1, to, n + 1, w);
      } else {
        assert w[i..] == w;
        assert InBounds(la, 1, to, n, w);
      }
    }
  }

  // ----- the strip as a value -----

  /** INSERT: an operator before the code from `pos` on. */
  function Inserted(strip: Strip, op: Op, pos: nat): Strip
    requires pos <= |strip|
  {
    strip[..pos] + [Sop(op, |strip| - pos + 1)] + strip[pos..]
  }

  lemma InsertedKeeps(strip: Strip, sets: Sets, op: Op, pos: nat, la: Lang)
    requires pos <= |strip| && Segment(strip, sets, pos, |strip|, la)
    ensures Segment(Inserted(strip, op, pos), sets, pos + 1, |strip| + 1, la)
  {
    var strip' := Inserted(strip, op, pos);
    forall p | pos <= p < |strip| ensures SameAt(strip, strip', 1, p) {}
    SegmentMoves(strip, sets, strip', 1, pos, |strip|, la);
  }

  /** Code that stands where it stood keeps its language. */
  lemma Kept(strip: Strip, sets: Sets, strip': Strip, lo: nat, hi: nat, la: Lang)
    requires Segment(strip, sets, lo, hi, la) && hi <= |strip'|
    requires forall p :: lo <= p < hi ==> strip'[p] == strip[p]
    ensures Segment(strip', sets, lo, hi, la)
  {
    forall p | lo <= p < hi ensures SameAt(strip, strip', 0, p) {}
    SegmentMoves(strip, sets, strip', 0, lo, hi, la);
  }

  /** x+ */
  lemma PlusMade(strip: Strip, sets: Sets, pos: nat, la: Lang, strip': Strip)
    requires pos <= |strip| && Segment(strip, sets, pos, |strip|, la)
    requires strip' == Inserted(strip, OPLUS_, pos) + [Sop(O_PLUS, |strip| + 1 - pos)]
    ensures Segment(strip', sets, pos, |strip'|, Some(la))
  {
    var s := Inserted(strip, OPLUS_, pos);
    InsertedKeeps(strip, sets, OPLUS_, pos, la);
    Kept(s, sets, strip', pos + 1, |s|, la);
    PlusSegment(strip', sets, pos, |s|, la);
  }

  /** The quest that `*` puts around a loop. */
  lemma QuestMade(strip: Strip, sets: Sets, pos: nat, la: Lang, strip': Strip)
    requires pos <= |strip| && Segment(strip, sets, pos, |strip|, la)
    requires strip' == Inserted(strip, OQUEST_, pos) + [Sop(O_QUEST, |strip| + 1 - pos)]
    ensures Segment(strip', sets, pos, |strip'|, iset{[]} + la)
  {
    var s := Inserted(strip, OQUEST_, pos);
    InsertedKeeps(strip, sets, OQUEST_, pos, la);
    Kept(s, sets, strip', pos + 1, |s|, la);
    QuestSegment(strip', sets, pos, |s|, la);
  }

  /** The end of `(y|)`, behind an OCH_ at `pos` and the code of y. */
  function OptionEnd(n: nat): Strip {
    [Sop(OOR1, n + 1), Sop(OOR2, 1), Sop(O_CH, 2)]
  }

  lemma OptionMade(strip: Strip, sets: Sets, pos: nat, la: Lang, strip': Strip)
    requires pos < |strip| && Segment(strip, sets, pos + 1, |strip|, la)
    requires strip' == strip[pos := Sop(OCH_, |strip| + 1 - pos)] + OptionEnd(|strip| - pos - 1)
    ensures Segment(strip', sets, pos, |strip'|, la + iset{[]})
  {
    var n := |strip| + 1;
    Kept(strip, sets, strip', pos + 1, |strip|, la);
    EmptySegment(strip', sets, n + 1);
    LastTail(strip', sets, n, n + 1, iset{[]});
    ChoiceSegment(strip', sets, pos, n, n + 2, la, iset{[]});
  }

  /** Code of one strip put at the end of another. */
  lemma Appended(strip: Strip, sets: Sets, lo: nat, la: Lang, s: Strip, strip': Strip)
    requires lo <= |strip| && Segment(strip, sets, lo, |strip|, la) && strip' == s + strip[lo..]
    ensures Segment(strip', sets, |s|, |strip'|, la)
  {
    var d := |s| - lo;
    forall p | lo <= p < |strip| ensures SameAt(strip, strip', d, p) {}
    SegmentMoves(strip, sets, strip', d, lo, |strip|, la);
  }

  /** The code that stood in `s` from `lo` on, and what has been put behind it. */
  lemma Followed(s: Strip, sets: Sets, lo: nat, la: Lang, strip: Strip, lb: Lang)
    requires lo <= |s| <= |strip| && Segment(s, sets, lo, |s|, la) && Segment(strip, sets, |s|, |strip|, lb)
    requires strip[..|s|] == s
    ensures Segment(strip, sets, lo, |strip|, Join(la, lb))
  {
    Kept(s, sets, strip, lo, |s|, la);
    CatSegment(strip, sets, lo, |s|, |strip|, la, lb);
  }

  // ----- choices -----

  /** A text of one of the languages. */
  ghost function Union(las: seq<Lang>): Lang
    requires |las| > 0
  {
    if |las| == 1 then las[0] else las[0] + Union(las[1..])
  }

  /** The choice as far as it has been emitted: its head and the OOR2 of each further
      alternative stand at `heads`, each pointing to the next one; before each of these but the
      first is the OOR1 of the alternative it follows. */
  ghost predicate Pending(strip: Strip, sets: Sets, heads: seq<nat>, las: seq<Lang>) {
    && 0 < |heads| <= |las|
    && (forall i :: 0 <= i < |heads| ==> heads[i] < |strip| && strip[heads[i]].op == if i == 0 then OCH_ else OOR2)
    && (forall i, j :: 0 <= i < j < |heads| ==> heads[i] < heads[j])
    && forall i :: 0 <= i < |heads| - 1 ==> LinkedTo(strip, sets, heads[i], heads[i + 1], las[i])
  }

  ghost predicate LinkedTo(strip: Strip, sets: Sets, q: nat, n: nat, la: Lang) {
    && q + 1 < n < |strip| && strip[q].opnd == n - q && strip[n - 1].op == OOR1
    && Segment(strip, sets, q + 1, n - 1, la)
  }

  lemma {:induction false} FoldTail(strip: Strip, sets: Sets, heads: seq<nat>, las: seq<Lang>, i: nat, end: nat)
    requires Pending(strip, sets, heads, las) && |heads| == |las| && 0 < i < |heads| && 0 < end <= |strip|
    requires heads[|heads| - 1] + 1 < end && strip[end - 1].op == O_CH
    requires strip[heads[|heads| - 1]].opnd == end - 1 - heads[|heads| - 1]
    requires Segment(strip, sets, heads[|heads| - 1] + 1, end - 1, las[|las| - 1])
    ensures Tail(strip, sets, heads[i], end, Union(las[i..]))
    decreases |heads| - i
  {
    if i == |heads| - 1 {
      assert las[i..] == [las[i]];
      LastTail(strip, sets, heads[i], end - 1, las[i]);
    } else {
      FoldTail(strip, sets, heads, las, i + 1, end);
      assert LinkedTo(strip, sets, heads[i], heads[i + 1], las[i]);
      MoreTail(strip, sets, heads[i], heads[i + 1], end, las[i], Union(las[i + 1..]));
      assert las[i..][1..] == las[i + 1..];
    }
  }

  lemma FoldChoice(strip: Strip, sets: Sets, heads: seq<nat>, las: seq<Lang>, end: nat)
    requires Pending(strip, sets, heads, las) && 1 < |heads| == |las| && 0 < end <= |strip|
    requires heads[|heads| - 1] + 1 < end && strip[end - 1].op == O_CH
    requires strip[heads[|heads| - 1]].opnd == end - 1 - heads[|heads| - 1]
    requires Segment(strip, sets, heads[|heads| - 1] + 1, end - 1, las[|las| - 1])
    ensures Segment(strip, sets, heads[0], end, Union(las))
  {
    FoldTail(strip, sets, heads, las, 1, end);
    assert LinkedTo(strip, sets, heads[0], heads[0 + 1], las[0]);
    ChoiceSegment(strip, sets, heads[0], heads[1], end, las[0], Union(las[1..]));
  }

  lemma LinkKept(strip: Strip, sets: Sets, strip': Strip, q: nat, n: nat, la: Lang)
    requires LinkedTo(strip, sets, q, n, la) && n < |strip'|
    requires forall p :: q <= p < n ==> strip'[p] == strip[p]
    ensures LinkedTo(strip', sets, q, n, la)
  {
    Kept(strip, sets, strip', q + 1, n - 1, la);
  }

  /** The first alternative, with the code of it behind `base`. */
  lemma FirstHead(base: Strip, sets: Sets, b: Strip, las: seq<Lang>, opnd: nat, s: Strip, strip: Strip)
    requires |las| > 0 && b != [] && Segment(b, sets, 0, |b|, las[0])
    requires s == Inserted(base + b, OCH_, |base|) + [Sop(OOR1, opnd)]
    requires strip == s[|base| := Sop(OCH_, |s| - |base|)] + [Sop(OOR2, 0)]
    requires |las| > 1
    ensures Pending(strip, sets, [|base|, |s|], las)
  {
    assert b[0..] == b;
    Appended(b, sets, 0, las[0], strip[..|base| + 1], strip[..|base| + 1] + b);
    Kept(strip[..|base| + 1] + b, sets, strip, |base| + 1, |base| + 1 + |b|, las[0]);
  }

  lemma NextHead(strip: Strip, sets: Sets, heads: seq<nat>, las: seq<Lang>, b: Strip, opnd: nat, s: Strip,
    strip': Strip)
    requires Pending(strip, sets, heads, las) && |heads| < |las| && heads[|heads| - 1] == |strip| - 1
    requires b != [] && Segment(b, sets, 0, |b|, las[|heads| - 1])
    requires s == strip + b + [Sop(OOR1, opnd)]
    requires strip' == s[|strip| - 1 := Sop(OOR2, |s| - (|strip| - 1))] + [Sop(OOR2, 0)]
    requires |heads| > 1
    ensures Pending(strip', sets, heads + [|s|], las)
  {
    var k, heads' := |heads| - 1, heads + [|s|];
    assert b[0..] == b;
    Appended(b, sets, 0, las[k], strip, strip + b);
    Kept(strip + b, sets, strip', |strip|, |strip + b|, las[k]);
    forall i | 0 <= i < |heads'| - 1 ensures LinkedTo(strip', sets, heads'[i], heads'[i + 1], las[i]) {
      if i < k {
        assert LinkedTo(strip, sets, heads[i], heads[i + 1], las[i]);
        LinkKept(strip, sets, strip', heads[i], heads[i + 1], las[i]);
      }
    }
  }

  lemma LastHead(strip: Strip, sets: Sets, heads: seq<nat>, las: seq<Lang>, b: Strip, opnd: nat, s: Strip,
    strip': Strip)
    requires Pending(strip, sets, heads, las) && 1 < |heads| == |las| && heads[|heads| - 1] == |strip| - 1
    requires Segment(b, sets, 0, |b|, las[|heads| - 1])
    requires s == strip + b && strip' == s[|strip| - 1 := Sop(OOR2, |s| - (|strip| - 1))] + [Sop(O_CH, opnd)]
    ensures Segment(strip', sets, heads[0], |strip'|, Union(las))
  {
    var k := |heads| - 1;
    assert b[0..] == b;
    Appended(b, sets, 0, las[k], strip, s);
    Kept(s, sets, strip', |strip|, |s|, las[k]);
    LinksKept(strip, sets, heads, las, strip');
    FoldChoice(strip', sets, heads, las, |strip'|);
  }

  lemma LinksKept(strip: Strip, sets: Sets, heads: seq<nat>, las: seq<Lang>, strip': Strip)
    requires Pending(strip, sets, heads, las) && 1 < |heads| && heads[|heads| - 1] == |strip| - 1
    requires |strip| <= |strip'| && strip'[|strip| - 1].op == OOR2
    requires forall p :: 0 <= p < |strip| - 1 ==> strip'[p] == strip[p]
    ensures Pending(strip', sets, heads, las)
  {
    forall i | 0 <= i < |heads| - 1 ensures LinkedTo(strip', sets, heads[i], heads[i + 1], las[i]) {
      LinkKept(strip, sets, strip', heads[i], heads[i + 1], las[i]);
    }
  }

  // ----- code without anchors and word marks -----

  predicate IsClean(op: Op) { op !in {OBOL, OEOL, OBOW, OEOW} }

  ghost predicate Clean(strip: Strip) {
    forall i {:trigger IsClean(strip[i].op)} :: 0 <= i < |strip| ==> IsClean(strip[i].op)
  }

  ghost predicate AllClean(branches: seq<Strip>) {
    forall k :: 0 <= k < |branches| ==> Clean(branches[k])
  }

  lemma CleanMore(strip: Strip, more: Strip)
    requires Clean(strip) && Clean(more)
    ensures Clean(strip + more)
  {
  }

  lemma CleanInserted(strip: Strip, op: Op, pos: nat)
    requires Clean(strip) && IsClean(op) && pos <= |strip|
    ensures Clean(Inserted(strip, op, pos))
  {
    var s := Inserted(strip, op, pos);
    forall i | 0 <= i < |s| ensures IsClean(s[i].op) {
      if i < pos { assert s[i] == strip[i]; } else if i > pos { assert s[i] == strip[i - 1]; }
    }
  }

  // ----- struct parse -----

  class Parse {
    var strip: Strip
    var error: nat

    constructor ()
      ensures strip == [] && error == 0
    {
      strip, error := [], 0;
    }

    /** EMIT. */
    method Emit(op: Op, opnd: nat)
      modifies this
      ensures error == old(error)
      ensures strip == if error == 0 then old(strip) + [Sop(op, opnd)] else old(strip)
      ensures Clean(old(strip)) && IsClean(op) ==> Clean(strip)
    {
      if error == 0 {
        strip := strip + [Sop(op, opnd)];
      }
    }

    /** INSERT: the operator is emitted and then moved to its place. */
    method Insert(op: Op, pos: nat)
      requires pos <= |strip|
      modifies this
      ensures error == old(error)
      ensures strip == if error == 0 then Inserted(old(strip), op, pos) else old(strip)
      ensures Clean(old(strip)) && IsClean(op) ==> Clean(strip)
    {
      if Clean(strip) && IsClean(op) { CleanInserted(strip, op, pos); }
      if error == 0 {
        var sn := |strip|;
        Emit(op, |strip| - pos + 1);
        var s := strip[sn];
        strip := strip[..pos] + [s] + strip[pos..sn];
      }
    }

    /** AHEAD: complete a forward reference. */
    method Ahead(pos: nat)
      requires pos < |strip|
      modifies this
      ensures error == old(error)
      ensures strip == if error == 0 then old(strip)[pos := Sop(old(strip[pos].op), |old(strip)| - pos)] else old(strip)
      ensures Clean(old(strip)) ==> Clean(strip)
    {
      if error == 0 {
        strip := strip[pos := Sop(strip[pos].op, |strip| - pos)];
      }
    }

    /** ASTERN. */
    method Astern(op: Op, pos: nat)
      requires pos <= |strip|
      modifies this
      ensures error == old(error)
      ensures strip == if error == 0 then old(strip) + [Sop(op, |old(strip)| - pos)] else old(strip)
      ensures Clean(old(strip)) && IsClean(op) ==> Clean(strip)
    {
      Emit(op, |strip| - pos);
    }

    /** A copy of the code in [start, finish) at the end. */
    method Dupl(start: nat, finish: nat) returns (ret: nat)
      requires start <= finish <= |strip|
      modifies this
      ensures error == old(error) && ret == |old(strip)| && strip == old(strip) + old(strip)[start..finish]
      ensures Clean(old(strip)) ==> Clean(strip)
    {
      ret := |strip|;
      strip := strip + strip[start..finish];
    }

    /** The rest of `(y|)` behind the code of y, whose OCH_ stands at `pos`. */
    method FinishOption(pos: nat)
      requires pos < |strip| && strip[pos].op == OCH_ && error == 0
      modifies this
      ensures error == 0
      ensures strip == old(strip)[pos := Sop(OCH_, |old(strip)| + 1 - pos)] + OptionEnd(|old(strip)| - pos - 1)
      ensures Clean(old(strip)) ==> Clean(strip)
    {
      Astern(OOR1, pos);
      Ahead(pos);
      Emit(OOR2, 0);
      Ahead(|strip| - 1);
      Astern(O_CH, |strip| - 2);
    }

    /** `+` behind the operand from `pos` on. */
    method Plus(pos: nat, ghost sets: Sets, ghost la: Lang)
      requires pos <= |strip| && error == 0 && Segment(strip, sets, pos, |strip|, la)
      modifies this
      ensures error == 0 && pos <= |strip| && strip[..pos] == old(strip[..pos])
      ensures Segment(strip, sets, pos, |strip|, Some(la))
      ensures Clean(old(strip)) ==> Clean(strip)
      ensures |strip| == |old(strip)| + 2
    {
      ghost var s := strip;
      Insert(OPLUS_, pos);
      Astern(O_PLUS, pos);
      PlusMade(s, sets, pos, la, strip);
    }

    /** `*`, as `+` with a quest around it. */
    method Star(pos: nat, ghost sets: Sets, ghost la: Lang)
      requires pos <= |strip| && error == 0 && Segment(strip, sets, pos, |strip|, la)
      modifies this
      ensures error == 0 && pos <= |strip| && strip[..pos] == old(strip[..pos])
      ensures Segment(strip, sets, pos, |strip|, iset{[]} + Some(la))
      ensures Clean(old(strip)) ==> Clean(strip)
      ensures |strip| == |old(strip)| + 4
    {
      Plus(pos, sets, la);
      ghost var s := strip;
      Insert(OQUEST_, pos);
      Astern(O_QUEST, pos);
      QuestMade(s, sets, pos, Some(la), strip);
    }

    /** `?`, as `(y|)`. */
    method Option(pos: nat, ghost sets: Sets, ghost la: Lang)
      requires pos <= |strip| && error == 0 && Segment(strip, sets, pos, |strip|, la)
      modifies this
      ensures error == 0 && pos <= |strip| && strip[..pos] == old(strip[..pos])
      ensures |strip| == |old(strip)| + 4 && strip[pos + 1..|old(strip)| + 1] == old(strip[pos..])
      ensures Segment(strip, sets, pos, |strip|, la + iset{[]})
      ensures Clean(old(strip)) ==> Clean(strip)
    {
      InsertedKeeps(strip, sets, OCH_, pos, la);
      Insert(OCH_, pos);
      ghost var s := strip;
      FinishOption(pos);
      OptionMade(s, sets, pos, la, strip);
    }

    /** `{from,to}` behind the operand from `start` on. */
    method Repeat(start: nat, from: nat, to: nat, ghost sets: Sets, ghost la: Lang)
      requires start <= |strip| && Segment(strip, sets, start, |strip|, la)
      requires from <= to <= INFINITY && from <= DUPMAX
      modifies this
      ensures error == old(error)
      ensures error != 0 ==> strip == old(strip)
      ensures error == 0 ==> start <= |strip| && strip[..start] == old(strip[..start])
      ensures error == 0 ==> Segment(strip, sets, start, |strip|, Counted(la, from, to))
      ensures Clean(old(strip)) ==> Clean(strip)
      ensures error == 0 ==> (|strip| == start <==> to == 0 || (|old(strip)| == start && from == to))
      decreases if from == 0 then 1 else 0, from + to
    {
      if error != 0 {
        return;
      }
      if from == 0 {
        if to == 0 {
          strip := strip[..start];
          CountedNone(la);
          EmptySegment(strip, sets, start);
        } else {
          RepeatFromZero(start, to, sets, la);
        }
      } else if from == 1 {
        if to == 1 {
          CountedOne(la);
        } else if to == INFINITY {
          CountedSome(la);
          Plus(start, sets, la);
        } else {
          RepeatFromOne(start, to, sets, la);
        }
      } else {
        RepeatMore(start, from, to, sets, la);
      }
    }

    /** As x{1,to}? */
    method RepeatFromZero(start: nat, to: nat, ghost sets: Sets, ghost la: Lang)
      requires start <= |strip| && Segment(strip, sets, start, |strip|, la) && error == 0
      requires 1 <= to <= INFINITY
      modifies this
      ensures error == 0 && start <= |strip| && strip[..start] == old(strip[..start])
      ensures Segment(strip, sets, start, |strip|, Counted(la, 0, to))
      ensures Clean(old(strip)) ==> Clean(strip)
      ensures |strip| > start
      decreases 1, to, 0
    {
      InsertedKeeps(strip, sets, OCH_, start, la);
      Insert(OCH_, start);
      ghost var head := strip[..start + 1];
      Repeat(start + 1, 1, to, sets, la);
      assert strip[start] == head[start] && strip[..start] == head[..start];
      ghost var s := strip;
      FinishOption(start);
      OptionMade(s, sets, start, Counted(la, 1, to), strip);
      CountedFromZero(la, to);
    }

    /** As x?x{1,to-1} */
    method RepeatFromOne(start: nat, to: nat, ghost sets: Sets, ghost la: Lang)
      requires start <= |strip| && Segment(strip, sets, start, |strip|, la) && error == 0
      requires 2 <= to < INFINITY
      modifies this
      ensures error == 0 && start <= |strip| && strip[..start] == old(strip[..start])
      ensures Segment(strip, sets, start, |strip|, Counted(la, 1, to))
      ensures Clean(old(strip)) ==> Clean(strip)
      ensures |strip| > start
      decreases 0, 1 + to, 0
    {
      var finish := |strip|;
      ghost var x := strip[start..];
      ghost var was := strip;
      Option(start, sets, la);
      ghost var s, lo := strip, la + iset{[]};
      var copy := Dupl(start + 1, finish + 1);
      assert s[start + 1..finish + 1] == x;
      assert Segment(strip, sets, copy, |strip|, la) by { Appended(was, sets, start, la, s, strip); }
      Repeat(copy, 1, to - 1, sets, la);
      Followed(s, sets, start, lo, strip, Counted(la, 1, to - 1));
      CountedOption(la, to);
    }

    /** As xx{from-1,to-1} */
    method RepeatMore(start: nat, from: nat, to: nat, ghost sets: Sets, ghost la: Lang)
      requires start <= |strip| && Segment(strip, sets, start, |strip|, la) && error == 0
      requires 2 <= from <= to <= INFINITY && from <= DUPMAX
      modifies this
      ensures error == 0 && start <= |strip| && strip[..start] == old(strip[..start])
      ensures Segment(strip, sets, start, |strip|, Counted(la, from, to))
      ensures Clean(old(strip)) ==> Clean(strip)
      ensures |strip| == start <==> |old(strip)| == start && from == to
      decreases 0, from + to, 0
    {
      ghost var s := strip;
      var copy := Dupl(start, |strip|);
      assert Segment(strip, sets, copy, |strip|, la) by { Appended(s, sets, start, la, s, strip); }
      Repeat(copy, from - 1, Less(to), sets, la);
      Followed(s, sets, start, la, strip, Counted(la, from - 1, Less(to)));
      CountedMore(la, from, to);
    }

    /** At the first `|`: the code of the first alternative stands from `conc` on. */
    method FirstBar(conc: nat, ghost b: Strip, ghost sets: Sets, ghost las: seq<Lang>)
      returns (prevfwd: nat, prevback: nat, ghost heads: seq<nat>)
      requires error == 0 && conc < |strip| && strip[conc..] == b
      requires |las| > 1 && Segment(b, sets, 0, |b|, las[0])
      modifies this
      ensures error == 0 && |strip| > conc && strip[..conc] == old(strip[..conc])
      ensures |heads| == 2 && heads[0] == conc && Pending(strip, sets, heads, las)
      ensures prevfwd == heads[1] == |strip| - 1 && prevback < |strip|
      ensures Clean(old(strip)) ==> Clean(strip)
    {
      ghost var base := strip[..conc];
      assert strip == base + b;
      Insert(OCH_, conc);
      Astern(OOR1, conc);
      ghost var s := strip;
      prevback := |strip| - 1;
      Ahead(conc);
      prevfwd := |strip|;
      Emit(OOR2, 0);
      FirstHead(base, sets, b, las, s[|s| - 1].opnd, s, strip);
      heads := [conc, |s|];
    }

    /** At a further `|`. */
    method NextBar(prevfwd: nat, prevback: nat, ghost s0: Strip, ghost b: Strip, ghost sets: Sets,
      ghost las: seq<Lang>, ghost heads: seq<nat>)
      returns (prevfwd': nat, prevback': nat, ghost heads': seq<nat>)
      requires error == 0 && strip == s0 + b && b != []
      requires 1 < |heads| < |las| && Segment(b, sets, 0, |b|, las[|heads| - 1]) && Pending(s0, sets, heads, las)
      requires prevfwd == heads[|heads| - 1] == |s0| - 1 && prevback < |s0|
      modifies this
      ensures error == 0 && |strip| > |s0| && strip[..heads[0]] == s0[..heads[0]]
      ensures |heads'| == |heads| + 1 && heads'[0] == heads[0] && Pending(strip, sets, heads', las)
      ensures prevfwd' == heads'[|heads|] == |strip| - 1 && prevback' < |strip|
      ensures Clean(old(strip)) ==> Clean(strip)
    {
      Astern(OOR1, prevback);
      ghost var s := strip;
      prevback' := |strip| - 1;
      Ahead(prevfwd);
      prevfwd' := |strip|;
      Emit(OOR2, 0);
      NextHead(s0, sets, heads, las, b, s[|s| - 1].opnd, s, strip);
      heads' := heads + [|s|];
    }

    /** Behind the last alternative of several. */
    method EndBars(prevfwd: nat, prevback: nat, ghost s0: Strip, ghost b: Strip, ghost sets: Sets,
      ghost las: seq<Lang>, ghost heads: seq<nat>)
      requires error == 0 && strip == s0 + b
      requires 1 < |heads| == |las| && Segment(b, sets, 0, |b|, las[|heads| - 1]) && Pending(s0, sets, heads, las)
      requires prevfwd == heads[|heads| - 1] == |s0| - 1 && prevback < |s0|
      modifies this
      ensures error == 0 && |strip| > |s0| && strip[..heads[0]] == s0[..heads[0]]
      ensures Segment(strip, sets, heads[0], |strip|, Union(las))
      ensures Clean(old(strip)) ==> Clean(strip)
    {
      Ahead(prevfwd);
      Astern(O_CH, prevback);
      LastHead(s0, sets, heads, las, b, strip[|strip| - 1].opnd, s0 + b, strip);
    }

    /** The loop of p_ere over the alternatives between `|`: each one's code is emitted by the
        parser of concatenations and stands for the texts `las[k]`. */
    method Alternatives(branches: seq<Strip>, ghost sets: Sets, ghost las: seq<Lang>)
      requires error == 0 && 0 < |branches| == |las|
      requires forall k :: 0 <= k < |branches| ==> Segment(branches[k], sets, 0, |branches[k]|, las[k])
      modifies this
      ensures error != 0 <==> exists k :: 0 <= k < |branches| && branches[k] == []
      ensures |old(strip)| <= |strip| && strip[..|old(strip)|] == old(strip)
      ensures error == 0 ==> Segment(strip, sets, |old(strip)|, |strip|, Union(las))
      ensures error == 0 ==> |strip| > |old(strip)|
      ensures Clean(old(strip)) && AllClean(branches) ==> Clean(strip)
    {
      ghost var base := strip;
      var prevback: nat, prevfwd: nat, k: nat := 0, 0, 0;
      ghost var heads: seq<nat> := [];
      while true
        invariant k < |branches| && error == 0 && |base| <= |strip| && strip[..|base|] == base
        invariant forall i :: 0 <= i < k ==> branches[i] != []
        invariant Clean(base) && AllClean(branches) ==> Clean(strip)
        invariant k == 0 ==> strip == base
        invariant k > 0 ==> |heads| == k + 1 && Pending(strip, sets, heads, las) && heads[0] == |base|
        invariant k > 0 ==> prevfwd == heads[k] == |strip| - 1 && prevback < |strip|
        decreases |branches| - k
      {
        var conc := |strip|;
        ghost var s0 := strip;
        if Clean(strip) && Clean(branches[k]) { CleanMore(strip, branches[k]); }
        strip := strip + branches[k];
        if |strip| == conc {
          error := REG_EMPTY;
          return;
        }
        if k + 1 == |branches| {
          if k == 0 {
            Appended(branches[0], sets, 0, las[0], base, strip);
          } else {
            EndBars(prevfwd, prevback, s0, branches[k], sets, las, heads);
          }
          return;
        }
        if k == 0 {
          prevfwd, prevback, heads := FirstBar(conc, branches[0], sets, las);
        } else {
          prevfwd, prevback, heads := NextBar(prevfwd, prevback, s0, branches[k], sets, las, heads);
        }
        k := k + 1;
      }
    }
  }
}
