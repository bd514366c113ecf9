/** Segments of the strip and the languages they accept. */
module RegexSegment {
  import opened RegexStrip
  import opened RegexLang
  import opened RegexTimes

  /** For each state the positions of the text at which it is on. */
  type Run = map<nat, Times>

  ghost function On(run: Run, p: nat): Times {
    if p in run then run[p] else {}
  }

  /** The run makes every move that state `p` allows. */
  ghost predicate FlowsAt(strip: Strip, sets: Sets, t: Text, run: Run, p: nat) {
    && p < |strip|
    && (forall q :: q in Eps(strip, p) ==> On(run, p) <= On(run, q))
    && Next(sets, t, strip[p], On(run, p)) <= On(run, p + 1)
  }

  ghost predicate Flows(strip: Strip, sets: Sets, lo: nat, hi: nat, t: Text, run: Run) {
    (forall p :: p in run ==> Within(t, run[p])) && FlowsIn(strip, sets, lo, hi, t, run)
  }

  ghost predicate FlowsIn(strip: Strip, sets: Sets, lo: nat, hi: nat, t: Text, run: Run) {
    forall p :: lo <= p < hi ==> FlowsAt(strip, sets, t, run, p)
  }

  /** Moves without input from the segment do not leave it. */
  ghost predicate Stays(strip: Strip, lo: nat, hi: nat) {
    lo <= hi <= |strip| && forall p, q :: lo <= p < hi && q in Eps(strip, p) ==> lo <= q <= hi
  }

  /** In every run the segment gets from its start to its end over every text of `la`. */
  ghost predicate Complete(strip: Strip, sets: Sets, lo: nat, hi: nat, la: Lang) {
    forall t, run :: Flows(strip, sets, lo, hi, t, run) ==> After(t, la, On(run, lo)) <= On(run, hi)
  }

  /** A run of the segment from `ts` that gets to the end only over texts of `la`. */
  ghost predicate Exact(strip: Strip, sets: Sets, lo: nat, hi: nat, la: Lang, t: Text, ts: Times, run: Run) {
    && (forall p :: p in run ==> lo <= p <= hi)
    && Flows(strip, sets, lo, hi, t, run) && ts <= On(run, lo) && On(run, hi) <= After(t, la, ts)
  }

  ghost predicate Sound(strip: Strip, sets: Sets, lo: nat, hi: nat, la: Lang) {
    forall t, ts {:trigger HasExact(strip, sets, lo, hi, la, t, ts)} ::
      Within(t, ts) ==> HasExact(strip, sets, lo, hi, la, t, ts)
  }

  ghost predicate HasExact(strip: Strip, sets: Sets, lo: nat, hi: nat, la: Lang, t: Text, ts: Times) {
    exists run :: Exact(strip, sets, lo, hi, la, t, ts, run)
  }

  /** The code in [lo, hi) accepts exactly the texts of `la`. */
  ghost predicate Denotes(strip: Strip, sets: Sets, lo: nat, hi: nat, la: Lang) {
    Stays(strip, lo, hi) && Complete(strip, sets, lo, hi, la) && Sound(strip, sets, lo, hi, la)
  }

  lemma Idle(strip: Strip, sets: Sets, lo: nat, hi: nat, t: Text, run: Run, p: nat, q: nat)
    requires Flows(strip, sets, lo, hi, t, run) && lo <= p < hi && p < |strip| && q in Eps(strip, p)
    ensures On(run, p) <= On(run, q)
  {
    assert FlowsAt(strip, sets, t, run, p);
  }

  lemma Part(strip: Strip, sets: Sets, lo: nat, hi: nat, t: Text, run: Run, l: nat, h: nat)
    requires Flows(strip, sets, lo, hi, t, run) && lo <= l && h <= hi
    ensures Flows(strip, sets, l, h, t, run)
  {
  }

  // ----- nothing, and one character -----

  lemma EmptyDenotes(strip: Strip, sets: Sets, off: nat)
    requires off <= |strip|
    ensures Denotes(strip, sets, off, off, iset{[]})
  {
    forall t, run | Flows(strip, sets, off, off, t, run) ensures After(t, iset{[]}, On(run, off)) <= On(run, off) {
      AfterNothing(t, On(run, off));
    }
    forall t, ts | Within(t, ts) ensures HasExact(strip, sets, off, off, iset{[]}, t, ts) {
      AfterNothing(t, ts);
      assert Exact(strip, sets, off, off, iset{[]}, t, ts, map[off := ts]);
    }
  }

  lemma SymbolDenotes(strip: Strip, sets: Sets, off: nat)
    requires off < |strip| && strip[off].op in {OCHAR, OANY, OANYOF}
    ensures Denotes(strip, sets, off, off + 1, Single(sets, strip[off]))
  {
    var la := Single(sets, strip[off]);
    forall t, run | Flows(strip, sets, off, off + 1, t, run) ensures After(t, la, On(run, off)) <= On(run, off + 1) {
      AfterSingle(sets, t, strip[off], On(run, off));
      assert FlowsAt(strip, sets, t, run, off);
    }
    forall t, ts | Within(t, ts) ensures HasExact(strip, sets, off, off + 1, la, t, ts) {
      AfterSingle(sets, t, strip[off], ts);
      assert Exact(strip, sets, off, off + 1, la, t, ts, map[off := ts, off + 1 := After(t, la, ts)]);
    }
  }

  // ----- one after the other -----

  /** A run that has in [lo, hi) what `r` has, and at `hi` no less, makes the same moves there. */
  ghost predicate Extends(r: Run, v: Run, lo: nat, hi: nat) {
    (forall p :: lo <= p < hi ==> On(v, p) == On(r, p)) && On(r, hi) <= On(v, hi)
  }

  lemma Inner(strip: Strip, sets: Sets, lo: nat, hi: nat, t: Text, r: Run, v: Run)
    requires Stays(strip, lo, hi) && Flows(strip, sets, lo, hi, t, r) && Extends(r, v, lo, hi)
    ensures FlowsIn(strip, sets, lo, hi, t, v)
  {
    forall p | lo <= p < hi ensures FlowsAt(strip, sets, t, v, p) {
      assert FlowsAt(strip, sets, t, r, p);
      assert On(r, p + 1) <= On(v, p + 1);
    }
  }

  lemma JoinRuns(strip: Strip, sets: Sets, lo: nat, m: nat, hi: nat, la: Lang, lb: Lang, t: Text, ts: Times, r: Run,
    s: Run)
    requires Stays(strip, lo, m) && Stays(strip, m, hi)
    requires Exact(strip, sets, lo, m, la, t, ts, r) && Exact(strip, sets, m, hi, lb, t, After(t, la, ts), s)
    ensures Exact(strip, sets, lo, hi, Join(la, lb), t, ts, r + s)
  {
    AfterJoin(t, la, lb, ts);
    Inner(strip, sets, lo, m, t, r, r + s);
    Inner(strip, sets, m, hi, t, s, r + s);
  }

  lemma CatDenotes(strip: Strip, sets: Sets, lo: nat, m: nat, hi: nat, la: Lang, lb: Lang)
    requires Denotes(strip, sets, lo, m, la) && Denotes(strip, sets, m, hi, lb)
    ensures Denotes(strip, sets, lo, hi, Join(la, lb))
  {
    forall t, run | Flows(strip, sets, lo, hi, t, run) ensures After(t, Join(la, lb), On(run, lo)) <= On(run, hi) {
      Part(strip, sets, lo, hi, t, run, lo, m);
      Part(strip, sets, lo, hi, t, run, m, hi);
      AfterJoin(t, la, lb, On(run, lo));
      Grows(t, lb, After(t, la, On(run, lo)), On(run, m));
    }
    forall t, ts | Within(t, ts) ensures HasExact(strip, sets, lo, hi, Join(la, lb), t, ts) {
      assert HasExact(strip, sets, lo, m, la, t, ts) && HasExact(strip, sets, m, hi, lb, t, After(t, la, ts));
      var r :| Exact(strip, sets, lo, m, la, t, ts, r);
      var s :| Exact(strip, sets, m, hi, lb, t, After(t, la, ts), s);
      JoinRuns(strip, sets, lo, m, hi, la, lb, t, ts, r, s);
    }
  }

  // ----- loops, options, groups -----

  /** Operators that read no character only have to pass their positions on. */
  lemma Passive(strip: Strip, sets: Sets, t: Text, run: Run, p: nat, a: nat, b: nat)
    requires p < |strip| && strip[p].op !in {OCHAR, OANY, OANYOF}
    requires Eps(strip, p) == {a, b} && On(run, p) <= On(run, a) && On(run, p) <= On(run, b)
    ensures FlowsAt(strip, sets, t, run, p)
  {
    assert forall j :: !Passes(sets, t, strip[p], On(run, p), j);
  }

  /** The moves of a piece of code between two operators. */
  lemma WrapFlows(strip: Strip, sets: Sets, lo: nat, e: nat, t: Text, r: Run, v: Run)
    requires Stays(strip, lo + 1, e) && Flows(strip, sets, lo + 1, e, t, r) && Extends(r, v, lo + 1, e)
    requires FlowsAt(strip, sets, t, v, lo) && FlowsAt(strip, sets, t, v, e)
    requires forall p :: p in v ==> Within(t, v[p])
    ensures Flows(strip, sets, lo, e + 1, t, v)
  {
    Inner(strip, sets, lo + 1, e, t, r, v);
  }

  ghost predicate IsPlus(strip: Strip, lo: nat, e: nat) {
    lo < e < |strip| && strip[lo] == Sop(OPLUS_, e - lo) && strip[e] == Sop(O_PLUS, e - lo)
  }

  lemma PlusRun(strip: Strip, sets: Sets, lo: nat, e: nat, la: Lang, t: Text, ts: Times, r: Run, s: Run)
    requires IsPlus(strip, lo, e) && Stays(strip, lo + 1, e) && Within(t, ts)
    requires Exact(strip, sets, lo + 1, e, la, t, Star(t, la, ts), r)
    requires s == r[lo := Star(t, la, ts)][e + 1 := On(r, e)]
    ensures Exact(strip, sets, lo, e + 1, Some(la), t, ts, s)
  {
    LoopInside(t, la, ts);
    Passive(strip, sets, t, s, lo, lo + 1, lo + 1);
    Passive(strip, sets, t, s, e, e + 1, lo);
    WrapFlows(strip, sets, lo, e, t, r, s);
  }

  lemma PlusComplete(strip: Strip, sets: Sets, lo: nat, e: nat, la: Lang, t: Text, run: Run)
    requires IsPlus(strip, lo, e) && Complete(strip, sets, lo + 1, e, la) && Flows(strip, sets, lo, e + 1, t, run)
    ensures After(t, Some(la), On(run, lo)) <= On(run, e + 1)
  {
    Part(strip, sets, lo, e + 1, t, run, lo + 1, e);
    Idle(strip, sets, lo, e + 1, t, run, lo, lo + 1);
    Idle(strip, sets, lo, e + 1, t, run, e, lo);
    Idle(strip, sets, lo, e + 1, t, run, e, e + 1);
    Grows(t, la, On(run, lo), On(run, lo + 1));
    LoopOutside(t, la, On(run, lo), On(run, e));
  }

  lemma PlusSound(strip: Strip, sets: Sets, lo: nat, e: nat, la: Lang, t: Text, ts: Times)
    requires IsPlus(strip, lo, e) && Stays(strip, lo + 1, e) && Sound(strip, sets, lo + 1, e, la) && Within(t, ts)
    ensures HasExact(strip, sets, lo, e + 1, Some(la), t, ts)
  {
    assert HasExact(strip, sets, lo + 1, e, la, t, Star(t, la, ts));
    var r :| Exact(strip, sets, lo + 1, e, la, t, Star(t, la, ts), r);
    PlusRun(strip, sets, lo, e, la, t, ts, r, r[lo := Star(t, la, ts)][e + 1 := On(r, e)]);
  }

  lemma PlusDenotes(strip: Strip, sets: Sets, lo: nat, e: nat, la: Lang)
    requires IsPlus(strip, lo, e) && Denotes(strip, sets, lo + 1, e, la)
    ensures Denotes(strip, sets, lo, e + 1, Some(la))
  {
    forall t, run | Flows(strip, sets, lo, e + 1, t, run) ensures After(t, Some(la), On(run, lo)) <= On(run, e + 1) {
      PlusComplete(strip, sets, lo, e, la, t, run);
    }
    forall t, ts | Within(t, ts) ensures HasExact(strip, sets, lo, e + 1, Some(la), t, ts) {
      PlusSound(strip, sets, lo, e, la, t, ts);
    }
  }

  ghost predicate IsQuest(strip: Strip, lo: nat, e: nat) {
    lo < e < |strip| && strip[lo] == Sop(OQUEST_, e - lo) && strip[e] == Sop(O_QUEST, e - lo)
  }

  lemma QuestFlows(strip: Strip, sets: Sets, lo: nat, e: nat, t: Text, ts: Times, r: Run, u: Times, s: Run)
    requires IsQuest(strip, lo, e) && Stays(strip, lo + 1, e) && Flows(strip, sets, lo + 1, e, t, r)
    requires ts <= On(r, lo + 1) && Within(t, ts) && u == On(r, e) + ts && s == r[lo := ts][e := u][e + 1 := u]
    ensures Flows(strip, sets, lo, e + 1, t, s)
  {
    assert On(s, lo) == ts && On(s, lo + 1) >= ts && On(s, e) == On(s, e + 1) == u;
    assert FlowsAt(strip, sets, t, s, lo) by { Passive(strip, sets, t, s, lo, lo + 1, e); }
    assert FlowsAt(strip, sets, t, s, e) by { Passive(strip, sets, t, s, e, e + 1, e + 1); }
    WrapFlows(strip, sets, lo, e, t, r, s);
  }

  lemma QuestRun(strip: Strip, sets: Sets, lo: nat, e: nat, la: Lang, t: Text, ts: Times, r: Run, u: Times, s: Run)
    requires IsQuest(strip, lo, e) && Stays(strip, lo + 1, e) && Within(t, ts)
    requires Exact(strip, sets, lo + 1, e, la, t, ts, r)
    requires u == On(r, e) + ts && s == r[lo := ts][e := u][e + 1 := u]
    ensures Exact(strip, sets, lo, e + 1, iset{[]} + la, t, ts, s)
  {
    QuestFlows(strip, sets, lo, e, t, ts, r, u, s);
    AfterEither(t, iset{[]}, la, ts);
    AfterNothing(t, ts);
  }

  lemma QuestComplete(strip: Strip, sets: Sets, lo: nat, e: nat, la: Lang, t: Text, run: Run)
    requires IsQuest(strip, lo, e) && Complete(strip, sets, lo + 1, e, la) && Flows(strip, sets, lo, e + 1, t, run)
    ensures After(t, iset{[]} + la, On(run, lo)) <= On(run, e + 1)
  {
    Part(strip, sets, lo, e + 1, t, run, lo + 1, e);
    Idle(strip, sets, lo, e + 1, t, run, lo, lo + 1);
    Idle(strip, sets, lo, e + 1, t, run, lo, e);
    Idle(strip, sets, lo, e + 1, t, run, e, e + 1);
    Grows(t, la, On(run, lo), On(run, lo + 1));
    AfterEither(t, iset{[]}, la, On(run, lo));
    AfterNothing(t, On(run, lo));
  }

  lemma QuestSound(strip: Strip, sets: Sets, lo: nat, e: nat, la: Lang, t: Text, ts: Times)
    requires IsQuest(strip, lo, e) && Stays(strip, lo + 1, e) && Sound(strip, sets, lo + 1, e, la) && Within(t, ts)
    ensures HasExact(strip, sets, lo, e + 1, iset{[]} + la, t, ts)
  {
    assert HasExact(strip, sets, lo + 1, e, la, t, ts);
    var r :| Exact(strip, sets, lo + 1, e, la, t, ts, r);
    var u := On(r, e) + ts;
    QuestRun(strip, sets, lo, e, la, t, ts, r, u, r[lo := ts][e := u][e + 1 := u]);
  }

  lemma QuestDenotes(strip: Strip, sets: Sets, lo: nat, e: nat, la: Lang)
    requires IsQuest(strip, lo, e) && Denotes(strip, sets, lo + 1, e, la)
    ensures Denotes(strip, sets, lo, e + 1, iset{[]} + la)
  {
    forall t, run | Flows(strip, sets, lo, e + 1, t, run)
      ensures After(t, iset{[]} + la, On(run, lo)) <= On(run, e + 1)
    {
      QuestComplete(strip, sets, lo, e, la, t, run);
    }
    forall t, ts | Within(t, ts) ensures HasExact(strip, sets, lo, e + 1, iset{[]} + la, t, ts) {
      QuestSound(strip, sets, lo, e, la, t, ts);
    }
  }

  ghost predicate IsGroup(strip: Strip, lo: nat, e: nat) {
    lo < e < |strip| && strip[lo].op == OLPAREN && strip[e].op == ORPAREN
  }

  lemma GroupRun(strip: Strip, sets: Sets, lo: nat, e: nat, la: Lang, t: Text, ts: Times, r: Run, s: Run)
    requires IsGroup(strip, lo, e) && Stays(strip, lo + 1, e) && Within(t, ts)
    requires Exact(strip, sets, lo + 1, e, la, t, ts, r)
    requires s == r[lo := ts][e + 1 := On(r, e)]
    ensures Exact(strip, sets, lo, e + 1, la, t, ts, s)
  {
    Passive(strip, sets, t, s, lo, lo + 1, lo + 1);
    Passive(strip, sets, t, s, e, e + 1, e + 1);
    WrapFlows(strip, sets, lo, e, t, r, s);
  }

  lemma GroupComplete(strip: Strip, sets: Sets, lo: nat, e: nat, la: Lang, t: Text, run: Run)
    requires IsGroup(strip, lo, e) && Complete(strip, sets, lo + 1, e, la) && Flows(strip, sets, lo, e + 1, t, run)
    ensures After(t, la, On(run, lo)) <= On(run, e + 1)
  {
    Part(strip, sets, lo, e + 1, t, run, lo + 1, e);
    Idle(strip, sets, lo, e + 1, t, run, lo, lo + 1);
    Idle(strip, sets, lo, e + 1, t, run, e, e + 1);
    Grows(t, la, On(run, lo), On(run, lo + 1));
  }

  lemma GroupSound(strip: Strip, sets: Sets, lo: nat, e: nat, la: Lang, t: Text, ts: Times)
    requires IsGroup(strip, lo, e) && Stays(strip, lo + 1, e) && Sound(strip, sets, lo + 1, e, la) && Within(t, ts)
    ensures HasExact(strip, sets, lo, e + 1, la, t, ts)
  {
    assert HasExact(strip, sets, lo + 1, e, la, t, ts);
    var r :| Exact(strip, sets, lo + 1, e, la, t, ts, r);
    GroupRun(strip, sets, lo, e, la, t, ts, r, r[lo := ts][e + 1 := On(r, e)]);
  }

  lemma GroupDenotes(strip: Strip, sets: Sets, lo: nat, e: nat, la: Lang)
    requires IsGroup(strip, lo, e) && Denotes(strip, sets, lo + 1, e, la)
    ensures Denotes(strip, sets, lo, e + 1, la)
  {
    forall t, run | Flows(strip, sets, lo, e + 1, t, run) ensures After(t, la, On(run, lo)) <= On(run, e + 1) {
      GroupComplete(strip, sets, lo, e, la, t, run);
    }
    forall t, ts | Within(t, ts) ensures HasExact(strip, sets, lo, e + 1, la, t, ts) {
      GroupSound(strip, sets, lo, e, la, t, ts);
    }
  }

  // ----- choices -----

  /** At `q` stands an OOR2 from which the O_CH before `end` is found. */
  ghost predicate IsTail(strip: Strip, q: nat, end: nat) {
    q + 2 <= end <= |strip| && strip[q].op == OOR2 && Look(strip, q) == end - 1 && strip[end - 1].op == O_CH
  }

  /** The rest of a choice from the OOR2 at `q` on accepts `lb` up to the O_CH before `end`. */
  ghost predicate TailDenotes(strip: Strip, sets: Sets, q: nat, end: nat, lb: Lang) {
    IsTail(strip, q, end) && Denotes(strip, sets, q, end - 1, lb)
  }

  /** Two ways on from `q`, the first up to the OOR1 before `n` and the second from `n` on. */
  ghost predicate IsFork(strip: Strip, q: nat, n: nat) {
    && q + 1 < n < |strip| && strip[q].op in {OCH_, OOR2} && Eps(strip, q) == {q + 1, n} && strip[n - 1].op == OOR1
  }

  /** Two runs side by side, both entered at `ts` from `lo` and led to `o`. */
  ghost function Forked(r: Run, s: Run, lo: nat, n: nat, o: nat, ts: Times): Run
    requires n >= 1
  {
    (r + s)[lo := ts][o := On(r, n - 1) + On(s, o)]
  }

  lemma ForkedOn(r: Run, s: Run, lo: nat, n: nat, o: nat, t: Text, ts: Times, v: Run)
    requires lo + 1 < n < o && v == Forked(r, s, lo, n, o, ts) && Within(t, ts)
    requires forall p :: p in r ==> lo < p < n && Within(t, r[p])
    requires forall p :: p in s ==> n <= p <= o && Within(t, s[p])
    ensures On(v, lo) == ts && On(v, n - 1) == On(r, n - 1) && On(v, o) == On(r, n - 1) + On(s, o)
    ensures Extends(r, v, lo + 1, n - 1) && Extends(s, v, n, o)
    ensures forall p :: p in v ==> lo <= p <= o && Within(t, v[p])
  {
  }

  lemma Branches(t: Text, la: Lang, lb: Lang, ts: Times, us: Times, vs: Times, ws: Times)
    requires ts <= us && ts <= vs && After(t, la, us) <= ws && After(t, lb, vs) <= ws
    ensures After(t, la + lb, ts) <= ws
  {
    Grows(t, la, ts, us);
    Grows(t, lb, ts, vs);
    AfterEither(t, la, lb, ts);
  }

  /** The last alternative: OOR2 at `q`, its code, and the O_CH at `e`. */
  ghost predicate IsLast(strip: Strip, q: nat, e: nat) {
    q < e < |strip| && strip[q] == Sop(OOR2, e - q) && strip[e].op == O_CH
  }

  lemma LastDenotes(strip: Strip, sets: Sets, q: nat, e: nat, la: Lang)
    requires IsLast(strip, q, e) && Denotes(strip, sets, q + 1, e, la)
    ensures TailDenotes(strip, sets, q, e + 1, la)
  {
    assert IsTail(strip, q, e + 1) by { assert Look(strip, e) == e; }
    forall t, run | Flows(strip, sets, q, e, t, run) ensures After(t, la, On(run, q)) <= On(run, e) {
      Part(strip, sets, q, e, t, run, q + 1, e);
      Idle(strip, sets, q, e, t, run, q, q + 1);
      Grows(t, la, On(run, q), On(run, q + 1));
    }
    forall t, ts | Within(t, ts) ensures HasExact(strip, sets, q, e, la, t, ts) {
      assert HasExact(strip, sets, q + 1, e, la, t, ts);
      var r :| Exact(strip, sets, q + 1, e, la, t, ts, r);
      LastRun(strip, sets, q, e, la, t, ts, r, r[q := ts]);
    }
  }

  lemma LastRun(strip: Strip, sets: Sets, q: nat, e: nat, la: Lang, t: Text, ts: Times, r: Run, s: Run)
    requires IsLast(strip, q, e) && Stays(strip, q + 1, e) && Within(t, ts)
    requires Exact(strip, sets, q + 1, e, la, t, ts, r) && s == r[q := ts]
    ensures Exact(strip, sets, q, e, la, t, ts, s)
  {
    assert FlowsAt(strip, sets, t, s, q) by { Passive(strip, sets, t, s, q, q + 1, q + 1); }
    assert FlowsIn(strip, sets, q + 1, e, t, s) by { Inner(strip, sets, q + 1, e, t, r, s); }
  }

  lemma ForkComplete(strip: Strip, sets: Sets, q: nat, n: nat, end: nat, la: Lang, lb: Lang, t: Text, run: Run)
    requires IsFork(strip, q, n) && IsTail(strip, n, end) && Flows(strip, sets, q, end - 1, t, run)
    requires Complete(strip, sets, q + 1, n - 1, la) && Complete(strip, sets, n, end - 1, lb)
    ensures After(t, la + lb, On(run, q)) <= On(run, end - 1)
  {
    Part(strip, sets, q, end - 1, t, run, q + 1, n - 1);
    Part(strip, sets, q, end - 1, t, run, n, end - 1);
    Idle(strip, sets, q, end - 1, t, run, q, q + 1);
    Idle(strip, sets, q, end - 1, t, run, q, n);
    Idle(strip, sets, q, end - 1, t, run, n - 1, end - 1);
    Branches(t, la, lb, On(run, q), On(run, q + 1), On(run, n), On(run, end - 1));
  }

  lemma ForkOps(strip: Strip, sets: Sets, q: nat, n: nat, end: nat, t: Text, v: Run)
    requires IsFork(strip, q, n) && IsTail(strip, n, end)
    requires On(v, q) <= On(v, q + 1) && On(v, q) <= On(v, n) && On(v, n - 1) <= On(v, end - 1)
    ensures FlowsAt(strip, sets, t, v, q) && FlowsAt(strip, sets, t, v, n - 1)
  {
    Passive(strip, sets, t, v, q, q + 1, n);
    Passive(strip, sets, t, v, n - 1, end - 1, end - 1);
  }

  lemma ForkFlows(strip: Strip, sets: Sets, q: nat, n: nat, end: nat, t: Text, r: Run, s: Run, v: Run)
    requires q + 1 < n < end && Stays(strip, q + 1, n - 1) && Stays(strip, n, end - 1)
    requires Flows(strip, sets, q + 1, n - 1, t, r) && Flows(strip, sets, n, end - 1, t, s)
    requires Extends(r, v, q + 1, n - 1) && Extends(s, v, n, end - 1)
    requires FlowsAt(strip, sets, t, v, q) && FlowsAt(strip, sets, t, v, n - 1)
    ensures FlowsIn(strip, sets, q, end - 1, t, v)
  {
    assert FlowsIn(strip, sets, q + 1, n - 1, t, v) by { Inner(strip, sets, q + 1, n - 1, t, r, v); }
    assert FlowsIn(strip, sets, n, end - 1, t, v) by { Inner(strip, sets, n, end - 1, t, s, v); }
    Glue(strip, sets, q, n, end - 1, t, v);
  }

  lemma Glue(strip: Strip, sets: Sets, q: nat, n: nat, o: nat, t: Text, v: Run)
    requires q + 1 < n <= o && FlowsIn(strip, sets, q + 1, n - 1, t, v) && FlowsIn(strip, sets, n, o, t, v)
    requires FlowsAt(strip, sets, t, v, q) && FlowsAt(strip, sets, t, v, n - 1)
    ensures FlowsIn(strip, sets, q, o, t, v)
  {
  }

  lemma ForkRun(strip: Strip, sets: Sets, q: nat, n: nat, end: nat, la: Lang, lb: Lang, t: Text, ts: Times, r: Run,
    s: Run, v: Run)
    requires IsFork(strip, q, n) && IsTail(strip, n, end) && Stays(strip, q + 1, n - 1) && Stays(strip, n, end - 1)
    requires Within(t, ts)
    requires Exact(strip, sets, q + 1, n - 1, la, t, ts, r) && Exact(strip, sets, n, end - 1, lb, t, ts, s)
    requires v == Forked(r, s, q, n, end - 1, ts)
    ensures Exact(strip, sets, q, end - 1, la + lb, t, ts, v)
  {
    assert On(v, q) == ts && On(v, end - 1) == On(r, n - 1) + On(s, end - 1)
      && (forall p :: p in v ==> q <= p < end && Within(t, v[p])) by {
      ForkedOn(r, s, q, n, end - 1, t, ts, v);
    }
    assert FlowsIn(strip, sets, q, end - 1, t, v) by {
      ForkedOn(r, s, q, n, end - 1, t, ts, v);
      ForkOps(strip, sets, q, n, end, t, v);
      ForkFlows(strip, sets, q, n, end, t, r, s, v);
    }
    AfterEither(t, la, lb, ts);
  }

  lemma ForkSound(strip: Strip, sets: Sets, q: nat, n: nat, end: nat, la: Lang, lb: Lang, t: Text, ts: Times)
    requires IsFork(strip, q, n) && Denotes(strip, sets, q + 1, n - 1, la) && TailDenotes(strip, sets, n, end, lb)
    requires Within(t, ts)
    ensures HasExact(strip, sets, q, end - 1, la + lb, t, ts)
  {
    assert HasExact(strip, sets, q + 1, n - 1, la, t, ts) && HasExact(strip, sets, n, end - 1, lb, t, ts);
    var r :| Exact(strip, sets, q + 1, n - 1, la, t, ts, r);
    var s :| Exact(strip, sets, n, end - 1, lb, t, ts, s);
    ForkRun(strip, sets, q, n, end, la, lb, t, ts, r, s, Forked(r, s, q, n, end - 1, ts));
  }

  lemma ForkDenotes(strip: Strip, sets: Sets, q: nat, n: nat, end: nat, la: Lang, lb: Lang)
    requires IsFork(strip, q, n) && Denotes(strip, sets, q + 1, n - 1, la) && TailDenotes(strip, sets, n, end, lb)
    ensures Denotes(strip, sets, q, end - 1, la + lb)
  {
    forall t, run | Flows(strip, sets, q, end - 1, t, run) ensures After(t, la + lb, On(run, q)) <= On(run, end - 1) {
      ForkComplete(strip, sets, q, n, end, la, lb, t, run);
    }
    forall t, ts | Within(t, ts) ensures HasExact(strip, sets, q, end - 1, la + lb, t, ts) {
      ForkSound(strip, sets, q, n, end, la, lb, t, ts);
    }
  }

  /** One more alternative in front. */
  lemma MoreDenotes(strip: Strip, sets: Sets, q: nat, n: nat, end: nat, la: Lang, lb: Lang)
    requires q + 1 < n < |strip| && strip[q] == Sop(OOR2, n - q) && strip[n - 1].op == OOR1
    requires Denotes(strip, sets, q + 1, n - 1, la) && TailDenotes(strip, sets, n, end, lb)
    ensures TailDenotes(strip, sets, q, end, la + lb)
  {
    assert IsTail(strip, q, end) by { assert Look(strip, q) == Look(strip, n); }
    ForkDenotes(strip, sets, q, n, end, la, lb);
  }

  /** An operator that only leads to the next one. */
  lemma StepDenotes(strip: Strip, sets: Sets, p: nat)
    requires p < |strip| && strip[p].op == O_CH
    ensures Denotes(strip, sets, p, p + 1, iset{[]})
  {
    forall t, run | Flows(strip, sets, p, p + 1, t, run) ensures After(t, iset{[]}, On(run, p)) <= On(run, p + 1) {
      AfterNothing(t, On(run, p));
      Idle(strip, sets, p, p + 1, t, run, p, p + 1);
    }
    forall t, ts | Within(t, ts) ensures HasExact(strip, sets, p, p + 1, iset{[]}, t, ts) {
      AfterNothing(t, ts);
      var run := map[p := ts, p + 1 := ts];
      Passive(strip, sets, t, run, p, p + 1, p + 1);
      assert Exact(strip, sets, p, p + 1, iset{[]}, t, ts, run);
    }
  }

  lemma PassedOn(strip: Strip, sets: Sets, lo: nat, p: nat, la: Lang)
    requires Denotes(strip, sets, lo, p, la) && p < |strip| && strip[p].op == O_CH
    ensures Denotes(strip, sets, lo, p + 1, la)
  {
    StepDenotes(strip, sets, p);
    JoinNothing(la);
    CatDenotes(strip, sets, lo, p, p + 1, la, iset{[]});
  }

  /** A whole choice: OCH_ at `lo`, the first alternative up to the OOR1 before `n`, the rest. */
  lemma ChoiceDenotes(strip: Strip, sets: Sets, lo: nat, n: nat, end: nat, la: Lang, lb: Lang)
    requires lo + 1 < n < |strip| && strip[lo] == Sop(OCH_, n - lo) && strip[n - 1].op == OOR1
    requires Denotes(strip, sets, lo + 1, n - 1, la) && TailDenotes(strip, sets, n, end, lb)
    ensures Denotes(strip, sets, lo, end, la + lb)
  {
    ForkDenotes(strip, sets, lo, n, end, la, lb);
    PassedOn(strip, sets, lo, end - 1, la + lb);
  }
}
