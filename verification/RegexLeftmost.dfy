/** Whether the match that `matcher` of libphoenix/regex/engine.c answers with is the leftmost one:
    for which code it always is. */
module RegexLeftmost {
  import opened RegexStrip
  import opened RegexLang
  import opened RegexTimes
  import opened RegexSegment
  import opened RegexCode
  import opened RegexChain
  import opened RegexEngine
  import opened RegexCold

  // ----- what becomes of the moves on one character -----

  /** The states that states of `prev` move to on `c`. */
  ghost function Taken(strip: Strip, sets: Sets, lo: nat, hi: nat, prev: set<nat>, c: nat): set<nat>
    requires hi <= |strip|
  {
    set p: nat | lo <= p < hi && p in prev && Accepts(sets, strip[p], Ch(c)) :: p + 1
  }

  /** Over `w` one gets from the states `us` to the end: in every run that has them on at the beginning
      of `w` the end is on behind it. */
  ghost predicate Leads(strip: Strip, sets: Sets, lo: nat, hi: nat, us: set<nat>, w: Text) {
    forall run :: Flows(strip, sets, lo, hi, w, run) && Begins(run, us) ==> |w| in On(run, hi)
  }

  ghost predicate Begins(run: Run, us: set<nat>) {
    forall p :: p in us ==> 0 in On(run, p)
  }

  // ----- a run before a character and a run behind it -----

  /** The sets of states for the text before, and a run of the rest. */
  ghost function Spliced(sts: seq<set<nat>>, run: Run, lo: nat, hi: nat, d: nat): Run {
    map p: nat | lo <= p <= hi && Between(p, lo, hi) ::
      (set k: nat | k < |sts| && IsOn(sts, p, k)) + (set k: nat | k in On(run, p) :: k + d)
  }

  lemma SplicedOn(sts: seq<set<nat>>, run: Run, lo: nat, hi: nat, d: nat, p: nat, k: nat)
    requires lo <= p <= hi && d == |sts|
    ensures k in On(Spliced(sts, run, lo, hi, d), p) <==> IsOn(sts, p, k) || (k >= d && k - d in On(run, p))
  {
    assert Between(p, lo, hi);
    if k >= d && k - d in On(run, p) { assert k == k - d + d; }
  }

  lemma SplicedWithin(sts: seq<set<nat>>, run: Run, lo: nat, hi: nat, d: nat, w: Text, t: Text)
    requires d == |sts| && |t| == d + |w| && forall p :: p in run ==> Within(w, run[p])
    ensures var r := Spliced(sts, run, lo, hi, d); forall p :: p in r ==> Within(t, r[p])
  {
    var r := Spliced(sts, run, lo, hi, d);
    forall p, k | p in r && k in r[p] ensures k <= |t| {
      SplicedOn(sts, run, lo, hi, d, p, k);
      assert k in On(r, p);
    }
  }

  lemma SplicedFlows(strip: Strip, sets: Sets, lo: nat, hi: nat, u: Text, sts: seq<set<nat>>, c: nat, w: Text, run: Run,
    t: Text, p: nat)
    requires WellFormed(strip, lo, hi) && Chain(strip, sets, lo, hi, u, All(|u|), sts) && t == u + [c] + w
    requires Flows(strip, sets, lo, hi, w, run) && Begins(run, Taken(strip, sets, lo, hi, sts[|u|], c))
    requires lo <= p < hi
    ensures FlowsAt(strip, sets, t, Spliced(sts, run, lo, hi, |u| + 1), p)
  {
    var d, r := |u| + 1, Spliced(sts, run, lo, hi, |u| + 1);
    assert FlowsAt(strip, sets, w, run, p);
    forall q, k | q in Eps(strip, p) && k in On(r, p) ensures k in On(r, q) {
      EpsInside(strip, lo, hi, p);
      SplicedOn(sts, run, lo, hi, d, p, k);
      SplicedOn(sts, run, lo, hi, d, q, k);
      if IsOn(sts, p, k) { ChainClosed(strip, sets, lo, hi, u, All(|u|), sts, k); }
    }
    forall j | j in Next(sets, t, strip[p], On(r, p)) ensures j in On(r, p + 1) {
      assert Passes(sets, t, strip[p], On(r, p), j);
      SplicedOn(sts, run, lo, hi, d, p, j - 1);
      SplicedOn(sts, run, lo, hi, d, p + 1, j);
      if IsOn(sts, p, j - 1) {
        ChainClosed(strip, sets, lo, hi, u, All(|u|), sts, j - 1);
        if j == d { assert p + 1 in Taken(strip, sets, lo, hi, sts[|u|], c); }
      } else {
        assert t[j - 1] == w[j - 1 - d];
        assert Passes(sets, w, strip[p], On(run, p), j - d);
      }
    }
  }

  /** A match that begins before the character and ends behind it goes over one of the moves. */
  lemma MatchLeads(strip: Strip, sets: Sets, lo: nat, hi: nat, la: Lang, u: Text, sts: seq<set<nat>>, c: nat, w: Text,
    t: Text)
    requires Segment(strip, sets, lo, hi, la) && Chain(strip, sets, lo, hi, u, All(|u|), sts) && t == u + [c] + w
    requires |t| in After(t, la, All(|u|))
    ensures Leads(strip, sets, lo, hi, Taken(strip, sets, lo, hi, sts[|u|], c), w)
  {
    var d := |u| + 1;
    forall run | Flows(strip, sets, lo, hi, w, run) && Begins(run, Taken(strip, sets, lo, hi, sts[|u|], c))
      ensures |w| in On(run, hi)
    {
      var r := Spliced(sts, run, lo, hi, d);
      forall p | lo <= p < hi ensures FlowsAt(strip, sets, t, r, p) {
        SplicedFlows(strip, sets, lo, hi, u, sts, c, w, run, t, p);
      }
      SplicedWithin(sts, run, lo, hi, d, w, t);
      assert Flows(strip, sets, lo, hi, t, r);
      forall k | k in All(|u|) ensures k in On(r, lo) {
        ChainClosed(strip, sets, lo, hi, u, All(|u|), sts, k);
        SplicedOn(sts, run, lo, hi, d, lo, k);
      }
      Grows(t, la, All(|u|), On(r, lo));
      SplicedOn(sts, run, lo, hi, d, hi, |t|);
    }
  }

  // ----- the parts of a run -----

  /** What a run does up to position `n`. */
  ghost function Cut(run: Run, n: nat): Run {
    map p | p in run :: (set k | k in run[p] && k <= n)
  }

  /** What it does from position `d` on. */
  ghost function Shifted(run: Run, d: nat): Run {
    map p | p in run :: (set k | k in run[p] && k >= d :: k - d)
  }

  lemma ShiftedOn(run: Run, d: nat, p: nat, k: nat)
    ensures k in On(Shifted(run, d), p) <==> k + d in On(run, p)
  {
    if p in run && k + d in run[p] { assert k == k + d - d; }
  }

  lemma CutFlows(strip: Strip, sets: Sets, lo: nat, hi: nat, u: Text, t: Text, run: Run)
    requires Flows(strip, sets, lo, hi, t, run) && |u| <= |t| && t[..|u|] == u
    ensures Flows(strip, sets, lo, hi, u, Cut(run, |u|))
  {
    var r := Cut(run, |u|);
    forall p | lo <= p < hi ensures FlowsAt(strip, sets, u, r, p) {
      assert FlowsAt(strip, sets, t, run, p);
      forall j | j in Next(sets, u, strip[p], On(r, p)) ensures j in On(r, p + 1) {
        assert Passes(sets, u, strip[p], On(r, p), j);
        assert u[j - 1] == t[j - 1];
        assert Passes(sets, t, strip[p], On(run, p), j);
      }
    }
  }

  lemma ShiftedFlows(strip: Strip, sets: Sets, lo: nat, hi: nat, t: Text, d: nat, w: Text, run: Run)
    requires Flows(strip, sets, lo, hi, t, run) && d <= |t| && t[d..] == w
    ensures Flows(strip, sets, lo, hi, w, Shifted(run, d))
  {
    var r := Shifted(run, d);
    forall p | lo <= p < hi ensures FlowsAt(strip, sets, w, r, p) {
      assert FlowsAt(strip, sets, t, run, p);
      forall q, k | q in Eps(strip, p) && k in On(r, p) ensures k in On(r, q) {
        ShiftedOn(run, d, p, k);
        ShiftedOn(run, d, q, k);
      }
      forall j | j in Next(sets, w, strip[p], On(r, p)) ensures j in On(r, p + 1) {
        assert Passes(sets, w, strip[p], On(r, p), j);
        ShiftedOn(run, d, p, j - 1);
        ShiftedOn(run, d, p + 1, j);
        assert w[j - 1] == t[j + d - 1];
        assert Passes(sets, t, strip[p], On(run, p), j + d);
      }
    }
  }

  /** In a run that has the start on before the character, the moves on it are made. */
  lemma TakenOn(strip: Strip, sets: Sets, lo: nat, hi: nat, u: Text, sts: seq<set<nat>>, c: nat, w: Text, t: Text,
    run: Run)
    requires WellFormed(strip, lo, hi) && Chain(strip, sets, lo, hi, u, All(|u|), sts) && t == u + [c] + w
    requires Flows(strip, sets, lo, hi, t, run) && All(|u|) <= On(run, lo)
    ensures Begins(Shifted(run, |u| + 1), Taken(strip, sets, lo, hi, sts[|u|], c))
  {
    assert t[..|u|] == u;
    CutFlows(strip, sets, lo, hi, u, t, run);
    ChainInside(strip, sets, lo, hi, u, All(|u|), sts, Cut(run, |u|), |u|);
    forall p | lo <= p < hi && p in sts[|u|] && Accepts(sets, strip[p], Ch(c))
      ensures 0 in On(Shifted(run, |u| + 1), p + 1)
    {
      assert p in StatesAt(Cut(run, |u|), lo, hi, |u|);
      assert FlowsAt(strip, sets, t, run, p);
      assert Passes(sets, t, strip[p], On(run, p), |u| + 1);
      ShiftedOn(run, |u| + 1, p + 1, 0);
    }
  }

  lemma LeadsOn(strip: Strip, sets: Sets, lo: nat, hi: nat, u: Text, sts: seq<set<nat>>, c: nat, w: Text, t: Text,
    run: Run)
    requires WellFormed(strip, lo, hi) && Chain(strip, sets, lo, hi, u, All(|u|), sts) && t == u + [c] + w
    requires Flows(strip, sets, lo, hi, t, run) && All(|u|) <= On(run, lo)
    requires Leads(strip, sets, lo, hi, Taken(strip, sets, lo, hi, sts[|u|], c), w)
    ensures |t| in On(run, hi)
  {
    TakenOn(strip, sets, lo, hi, u, sts, c, w, t, run);
    assert t[|u| + 1..] == w;
    ShiftedFlows(strip, sets, lo, hi, t, |u| + 1, w, run);
    ShiftedOn(run, |u| + 1, hi, |w|);
  }

  lemma LeadsMatch(strip: Strip, sets: Sets, lo: nat, hi: nat, la: Lang, u: Text, sts: seq<set<nat>>, c: nat, w: Text,
    t: Text)
    requires Segment(strip, sets, lo, hi, la) && Chain(strip, sets, lo, hi, u, All(|u|), sts) && t == u + [c] + w
    requires Leads(strip, sets, lo, hi, Taken(strip, sets, lo, hi, sts[|u|], c), w)
    ensures |t| in After(t, la, All(|u|))
  {
    assert HasExact(strip, sets, lo, hi, la, t, All(|u|));
    var run :| Exact(strip, sets, lo, hi, la, t, All(|u|), run);
    LeadsOn(strip, sets, lo, hi, u, sts, c, w, t, run);
  }

  /** The moves on a character lead to the end over `w` exactly if a match that is underway before the
      character ends behind `w`. */
  lemma Crosses(strip: Strip, sets: Sets, lo: nat, hi: nat, la: Lang, u: Text, sts: seq<set<nat>>, c: nat, w: Text)
    requires Segment(strip, sets, lo, hi, la) && Chain(strip, sets, lo, hi, u, All(|u|), sts)
    ensures Leads(strip, sets, lo, hi, Taken(strip, sets, lo, hi, sts[|u|], c), w)
      <==> exists i :: 0 <= i <= |u| && u[i..] + [c] + w in la
  {
    var t := u + [c] + w;
    assert forall i :: 0 <= i <= |u| ==> t[i..|t|] == u[i..] + [c] + w;
    if Leads(strip, sets, lo, hi, Taken(strip, sets, lo, hi, sts[|u|], c), w) {
      LeadsMatch(strip, sets, lo, hi, la, u, sts, c, w, t);
      assert Hit(t, la, All(|u|), |t|);
    }
    if exists i :: 0 <= i <= |u| && u[i..] + [c] + w in la {
      var i :| 0 <= i <= |u| && u[i..] + [c] + w in la;
      assert Between(i, 0, |u|) && i in All(|u|);
      Reach(t, la, All(|u|), i, |t|);
      MatchLeads(strip, sets, lo, hi, la, u, sts, c, w, t);
    }
  }

  // ----- the sets of states of a text -----

  /** The states that every set with the states demanded has. */
  ghost function Least(strip: Strip, sets: Sets, lo: nat, hi: nat, prev: set<nat>, c: nat, on: bool): set<nat>
    requires hi <= |strip|
  {
    set p: nat | p <= hi && InAll(strip, sets, lo, hi, prev, c, on, p)
  }

  ghost predicate InAll(strip: Strip, sets: Sets, lo: nat, hi: nat, prev: set<nat>, c: nat, on: bool, p: nat)
    requires hi <= |strip|
  {
    lo <= p && forall s :: Holds(strip, sets, lo, hi, prev, c, on, s) ==> p in s
  }

  lemma LeastLinks(strip: Strip, sets: Sets, lo: nat, hi: nat, prev: set<nat>, c: nat, on: bool)
    requires WellFormed(strip, lo, hi)
    ensures Link(strip, sets, lo, hi, prev, c, on, Least(strip, sets, lo, hi, prev, c, on))
  {
    var cur := Least(strip, sets, lo, hi, prev, c, on);
    forall p, q | lo <= p < hi && p in cur && q in Eps(strip, p) ensures q in cur {
      EpsInside(strip, lo, hi, p);
      assert InAll(strip, sets, lo, hi, prev, c, on, p);
      assert InAll(strip, sets, lo, hi, prev, c, on, q);
    }
    if on { assert InAll(strip, sets, lo, hi, prev, c, on, lo); }
    forall p | lo <= p < hi && p in prev && Accepts(sets, strip[p], Ch(c)) ensures p + 1 in cur {
      assert InAll(strip, sets, lo, hi, prev, c, on, p + 1);
    }
    forall s | Holds(strip, sets, lo, hi, prev, c, on, s) ensures cur <= s {
      forall p | p in cur ensures p in s { assert InAll(strip, sets, lo, hi, prev, c, on, p); }
    }
  }

  lemma {:induction false} ChainExists(strip: Strip, sets: Sets, lo: nat, hi: nat, t: Text) returns (sts: seq<set<nat>>)
    requires WellFormed(strip, lo, hi)
    ensures Chain(strip, sets, lo, hi, t, All(|t|), sts)
    decreases |t|
  {
    if t == [] {
      LeastLinks(strip, sets, lo, hi, {}, 0, true);
      sts := [Least(strip, sets, lo, hi, {}, 0, true)];
      assert Between(0, 0, 0);
    } else {
      var n := |t| - 1;
      sts := ChainExists(strip, sets, lo, hi, t[..n]);
      assert Between(n + 1, 0, n + 1) && t[..n] + [t[n]] == t;
      LeastLinks(strip, sets, lo, hi, sts[n], t[n], true);
      var st := Least(strip, sets, lo, hi, sts[n], t[n], true);
      Extend(strip, sets, lo, hi, t[..n], All(n), sts, t[n], All(n + 1), st);
      sts := sts + [st];
    }
  }

  lemma ChainPrefix(strip: Strip, sets: Sets, lo: nat, hi: nat, t: Text, sts: seq<set<nat>>, k: nat)
    requires hi <= |strip| && Chain(strip, sets, lo, hi, t, All(|t|), sts) && k <= |t|
    ensures Chain(strip, sets, lo, hi, t[..k], All(k), sts[..k + 1])
  {
    assert Between(0, 0, k) && Between(0, 0, |t|);
    var u, cts := t[..k], sts[..k + 1];
    forall j | 0 <= j < k ensures Link(strip, sets, lo, hi, cts[j], u[j], j + 1 in All(k), cts[j + 1]) {
      assert Link(strip, sets, lo, hi, sts[j], t[j], j + 1 in All(|t|), sts[j + 1]);
      assert Between(j + 1, 0, k) && Between(j + 1, 0, |t|);
    }
  }

  /** The end is on in the sets exactly where a text ends. */
  lemma EndOn(strip: Strip, sets: Sets, lo: nat, hi: nat, la: Lang, text: Text, start: nat, p: nat, sts: seq<set<nat>>,
    k: nat)
    requires Segment(strip, sets, lo, hi, la) && start <= p <= |text| && start + k <= p
    requires Chain(strip, sets, lo, hi, text[start..p], All(p - start), sts)
    ensures hi in sts[k] <==> EndsAt(la, text, start, start + k)
  {
    ChainPrefix(strip, sets, lo, hi, text[start..p], sts, k);
    assert text[start..p][..k] == text[start..start + k];
    FastAccepts(strip, sets, lo, hi, la, text, start, start + k, sts[k], sts[..k + 1]);
  }

  // ----- matches that are lost -----

  ghost predicate EndOff(sts: seq<set<nat>>, hi: nat) {
    forall k :: 0 <= k < |sts| ==> hi !in sts[k]
  }

  /** Nothing has ended over `u`; then all moves on `c` lead to first states, so that the matcher goes
      cold, though they lead to the end over `w`. */
  ghost predicate LostIn(strip: Strip, sets: Sets, lo: nat, hi: nat, u: Text, c: nat, w: Text, sts: seq<set<nat>>,
    first: set<nat>)
    requires hi <= |strip|
  {
    && Chain(strip, sets, lo, hi, u, All(|u|), sts) && EndOff(sts, hi)
    && Link(strip, sets, lo, hi, {}, 0, true, first) && Moves(strip, sets, lo, hi, sts[|u|], Ch(c), first)
    && Leads(strip, sets, lo, hi, Taken(strip, sets, lo, hi, sts[|u|], c), w)
  }

  ghost predicate Lost(strip: Strip, sets: Sets, lo: nat, hi: nat, u: Text, c: nat, w: Text)
    requires hi <= |strip|
  {
    exists sts, first :: LostIn(strip, sets, lo, hi, u, c, w, sts, first)
  }

  ghost predicate NeverLost(strip: Strip, sets: Sets, lo: nat, hi: nat)
    requires hi <= |strip|
  {
    forall u, c, w :: !Lost(strip, sets, lo, hi, u, c, w)
  }

  /** No text of the language lies between `start` and `stop`. */
  ghost predicate NoMatch(la: Lang, text: Text, start: nat, stop: nat)
    requires stop <= |text|
  {
    forall i, j :: start <= i <= j <= stop ==> text[i..j] !in la
  }

  /** Of the texts of the language, one that begins first, and the longest of those. */
  ghost predicate LeftmostLongest(la: Lang, text: Text, start: nat, stop: nat, b: nat, e: nat)
    requires stop <= |text|
  {
    && start <= b <= e <= stop && text[b..e] in la
    && (forall j :: e < j <= stop ==> text[b..j] !in la)
    && (forall i, j :: start <= i < b && i <= j <= stop ==> text[i..j] !in la)
  }

  /** The answer of the matcher: the leftmost and longest match from the last cold place before the
      first end of a match. */
  ghost predicate AnswerFrom(strip: Strip, sets: Sets, lo: nat, hi: nat, la: Lang, text: Text, start: nat, stop: nat,
    b: nat, e: nat, cold: nat, end: nat)
    requires hi <= |strip|
  {
    && start <= cold && end <= stop <= |text| && NoneEnds(la, text, start, end) && EndsAt(la, text, start, end)
    && ColdAt(strip, sets, lo, hi, text, start, end, cold) && LeftmostLongest(la, text, cold, stop, b, e)
  }

  ghost predicate Answer(strip: Strip, sets: Sets, lo: nat, hi: nat, la: Lang, text: Text, start: nat, stop: nat,
    b: nat, e: nat)
    requires hi <= |strip|
  {
    exists cold: nat, end: nat :: AnswerFrom(strip, sets, lo, hi, la, text, start, stop, b, e, cold, end)
  }

  /** A match that begins before the cold place is lost there. */
  lemma EarlyIsLost(strip: Strip, sets: Sets, lo: nat, hi: nat, la: Lang, text: Text, start: nat, end: nat, cold: nat,
    i: nat, j: nat)
    requires Segment(strip, sets, lo, hi, la) && NoneEnds(la, text, start, end)
    requires ColdAt(strip, sets, lo, hi, text, start, end, cold)
    requires start <= i < cold && i <= j <= |text| && text[i..j] in la
    ensures cold <= j && Lost(strip, sets, lo, hi, text[start..cold - 1], text[cold - 1], text[cold..j])
  {
    var n := end + 1;
    var st, first :| FastAt(strip, sets, lo, hi, text, start, cold, n, end, st, first);
    var sts :| Stands(strip, sets, lo, hi, text, start, cold, n, end, st, first, sts);
    assert EndsAt(la, text, start, j);
    var t, d := text[start..end], cold - start;
    var u, c, w := text[start..cold - 1], text[cold - 1], text[cold..j];
    var before := sts[..d];
    ChainPrefix(strip, sets, lo, hi, t, sts, d - 1);
    assert t[..d - 1] == u && d - 1 + 1 == d;
    forall k | 0 <= k < |before| ensures hi !in before[k] {
      EndOn(strip, sets, lo, hi, la, text, start, end, sts, k);
    }
    assert Link(strip, sets, lo, hi, sts[d - 1], t[d - 1], d - 1 + 1 in All(|t|), sts[d - 1 + 1]);
    assert Between(d, 0, |t|) && t[d - 1] == c;
    GoesCold(strip, sets, lo, hi, sts[d - 1], c, first, sts[d]);
    assert u[i - start..] + [c] + w == text[i..j];
    Crosses(strip, sets, lo, hi, la, u, before, c, w);
    assert LostIn(strip, sets, lo, hi, u, c, w, before, first);
  }

  // ----- and the other way around -----

  lemma FirstEndOf(la: Lang, text: Text, e: nat) returns (end: nat)
    requires EndsAt(la, text, 0, e)
    ensures end <= e && NoneEnds(la, text, 0, end) && EndsAt(la, text, 0, end)
  {
    end := 0;
    while !EndsAt(la, text, 0, end)
      invariant end <= e && NoneEnds(la, text, 0, end)
      decreases e - end
    {
      end := end + 1;
    }
  }

  lemma LastColdOf(sts: seq<set<nat>>, first: set<nat>, d: nat) returns (cold: nat)
    requires d < |sts| && sts[d] == first
    ensures d <= cold < |sts| && LastCold(sts, first, 0, cold, |sts|)
  {
    cold := |sts| - 1;
    while sts[cold] != first
      invariant d <= cold < |sts| && forall j :: cold < j < |sts| ==> sts[j] != first
      decreases cold
    {
      cold := cold - 1;
    }
  }

  lemma LeftmostExists(la: Lang, text: Text, start: nat, stop: nat) returns (b: nat, e: nat)
    requires stop <= |text| && !NoMatch(la, text, start, stop)
    ensures LeftmostLongest(la, text, start, stop, b, e)
  {
    var i, j :| start <= i <= j <= stop && text[i..j] in la;
    b := start;
    while forall k :: b <= k <= stop ==> text[b..k] !in la
      invariant start <= b <= i
      invariant forall m, k :: start <= m < b && m <= k <= stop ==> text[m..k] !in la
      decreases i - b
    {
      b := b + 1;
    }
    e := stop;
    while text[b..e] !in la
      invariant b <= e <= stop && forall k :: e < k <= stop ==> text[b..k] !in la
      decreases e
    {
      e := e - 1;
    }
  }

  /** The matcher goes cold behind `u` and the character. */
  lemma LostGoesCold(strip: Strip, sets: Sets, lo: nat, hi: nat, u: Text, c: nat, w: Text, sts: seq<set<nat>>,
    first: set<nat>, t: Text, full: seq<set<nat>>)
    requires WellFormed(strip, lo, hi) && LostIn(strip, sets, lo, hi, u, c, w, sts, first) && t == u + [c] + w
    requires Chain(strip, sets, lo, hi, t, All(|t|), full)
    ensures full[|u| + 1] == first && forall k :: 0 <= k <= |u| ==> hi !in full[k]
  {
    var n := |u|;
    ChainPrefix(strip, sets, lo, hi, t, full, n);
    assert t[..n] == u;
    forall k | 0 <= k <= n ensures full[k] == sts[k] {
      ChainUnique(strip, sets, lo, hi, u, All(n), full[..n + 1], sts, k);
    }
    assert Link(strip, sets, lo, hi, full[n], t[n], n + 1 in All(|t|), full[n + 1]);
    assert Between(n + 1, 0, |t|) && t[n] == c;
    GoesCold(strip, sets, lo, hi, full[n], c, first, full[n + 1]);
  }

  lemma ColdExists(strip: Strip, sets: Sets, lo: nat, hi: nat, la: Lang, t: Text, full: seq<set<nat>>, first: set<nat>,
    d: nat, end: nat)
    returns (cold: nat)
    requires Segment(strip, sets, lo, hi, la) && Chain(strip, sets, lo, hi, t, All(|t|), full) && d <= end <= |t|
    requires Link(strip, sets, lo, hi, {}, 0, true, first) && full[d] == first && EndsAt(la, t, 0, end)
    ensures d <= cold && ColdAt(strip, sets, lo, hi, t, 0, end, cold) && EndsAt(la, t, cold, end)
  {
    var sts, st, n := full[..end + 1], full[end], end + 1;
    ChainPrefix(strip, sets, lo, hi, t, full, end);
    assert t[0..end] == t[..end];
    cold := LastColdOf(sts, first, d);
    assert Stands(strip, sets, lo, hi, t, 0, cold, n, end, st, first, sts);
    assert FastAt(strip, sets, lo, hi, t, 0, cold, n, end, st, first);
    FastAccepts(strip, sets, lo, hi, la, t, 0, end, st, sts);
    UnderwayFrom(strip, sets, lo, hi, t, 0, cold, end, st, sts);
    FastAccepts(strip, sets, lo, hi, la, t, cold, end, st, sts[cold..]);
  }

  /** For a match that is lost there is a text whose leftmost match the matcher misses. */
  lemma LostIsMissed(strip: Strip, sets: Sets, lo: nat, hi: nat, la: Lang, u: Text, c: nat, w: Text)
    returns (b: nat, e: nat)
    requires Segment(strip, sets, lo, hi, la) && Lost(strip, sets, lo, hi, u, c, w)
    ensures var t := u + [c] + w;
      Answer(strip, sets, lo, hi, la, t, 0, |t|, b, e) && !LeftmostLongest(la, t, 0, |t|, b, e)
  {
    var t := u + [c] + w;
    var sts, first :| LostIn(strip, sets, lo, hi, u, c, w, sts, first);
    var full := ChainExists(strip, sets, lo, hi, t);
    LostGoesCold(strip, sets, lo, hi, u, c, w, sts, first, t, full);
    Crosses(strip, sets, lo, hi, la, u, sts, c, w);
    var i :| 0 <= i <= |u| && u[i..] + [c] + w in la;
    assert t[i..|t|] == u[i..] + [c] + w;
    assert EndsAt(la, t, 0, |t|);
    var end := FirstEndOf(la, t, |t|);
    assert t[0..|t|] == t;
    if end <= |u| { EndOn(strip, sets, lo, hi, la, t, 0, |t|, full, end); }
    var cold := ColdExists(strip, sets, lo, hi, la, t, full, first, |u| + 1, end);
    var m :| cold <= m <= end && t[m..end] in la;
    b, e := LeftmostExists(la, t, cold, |t|);
    assert AnswerFrom(strip, sets, lo, hi, la, t, 0, |t|, b, e, cold, end);
  }

  /** The answer of the matcher is the leftmost match in every text exactly if no match is ever lost,
      which depends on the code alone. */
  lemma LeftmostExactly(strip: Strip, sets: Sets, lo: nat, hi: nat, la: Lang)
    requires Segment(strip, sets, lo, hi, la)
    ensures NeverLost(strip, sets, lo, hi) <==>
      forall text, start: nat, stop: nat, b: nat, e: nat | Answer(strip, sets, lo, hi, la, text, start, stop, b, e) ::
        stop <= |text| && LeftmostLongest(la, text, start, stop, b, e)
  {
    if NeverLost(strip, sets, lo, hi) {
      forall text, start: nat, stop: nat, b: nat, e: nat | Answer(strip, sets, lo, hi, la, text, start, stop, b, e)
        ensures stop <= |text| && LeftmostLongest(la, text, start, stop, b, e)
      {
        NothingLost(strip, sets, lo, hi, la, text, start, stop, b, e);
      }
    } else {
      var u, c, w :| Lost(strip, sets, lo, hi, u, c, w);
      var b, e := LostIsMissed(strip, sets, lo, hi, la, u, c, w);
    }
  }

  lemma NothingLost(strip: Strip, sets: Sets, lo: nat, hi: nat, la: Lang, text: Text, start: nat, stop: nat, b: nat,
    e: nat)
    requires Segment(strip, sets, lo, hi, la) && NeverLost(strip, sets, lo, hi)
    requires Answer(strip, sets, lo, hi, la, text, start, stop, b, e)
    ensures stop <= |text| && LeftmostLongest(la, text, start, stop, b, e)
  {
    var cold: nat, end: nat :| AnswerFrom(strip, sets, lo, hi, la, text, start, stop, b, e, cold, end);
    forall i, j | start <= i < cold && i <= j <= stop ensures text[i..j] !in la {
      if text[i..j] in la { EarlyIsLost(strip, sets, lo, hi, la, text, start, end, cold, i, j); }
    }
  }

  /** There is one answer for a text. */
  lemma AnswerUnique(strip: Strip, sets: Sets, lo: nat, hi: nat, la: Lang, text: Text, start: nat, stop: nat,
    b: nat, e: nat, b': nat, e': nat)
    requires hi <= |strip| && Answer(strip, sets, lo, hi, la, text, start, stop, b, e)
    requires Answer(strip, sets, lo, hi, la, text, start, stop, b', e')
    ensures b == b' && e == e'
  {
    var cold: nat, end: nat :| AnswerFrom(strip, sets, lo, hi, la, text, start, stop, b, e, cold, end);
    var cold': nat, end': nat :| AnswerFrom(strip, sets, lo, hi, la, text, start, stop, b', e', cold', end');
    assert end == end';
    ColdUnique(strip, sets, lo, hi, text, start, end, cold, cold');
  }

  // ----- code in which no match is ever lost -----

  /** The end is a first state; or each character that leads from some state to a first state leads
      from a first state to another one as well. */
  ghost predicate Tame(strip: Strip, sets: Sets, lo: nat, hi: nat, first: set<nat>)
    requires hi <= |strip|
  {
    hi in first || forall p, c :: lo <= p < hi && Accepts(sets, strip[p], Ch(c)) && p + 1 in first ==>
      exists q :: lo <= q < hi && q in first && Accepts(sets, strip[q], Ch(c)) && q + 1 !in first
  }

  /** What can be seen from the first states alone. */
  lemma TameNeverLost(strip: Strip, sets: Sets, lo: nat, hi: nat, first: set<nat>)
    requires hi <= |strip| && Link(strip, sets, lo, hi, {}, 0, true, first) && Tame(strip, sets, lo, hi, first)
    ensures NeverLost(strip, sets, lo, hi)
  {
    forall u, c, w ensures !Lost(strip, sets, lo, hi, u, c, w) {
      if Lost(strip, sets, lo, hi, u, c, w) {
        var sts, f :| LostIn(strip, sets, lo, hi, u, c, w, sts, f);
        TameNotLost(strip, sets, lo, hi, first, u, c, w, sts, f);
      }
    }
  }

  lemma TameNotLost(strip: Strip, sets: Sets, lo: nat, hi: nat, first: set<nat>, u: Text, c: nat, w: Text,
    sts: seq<set<nat>>, f: set<nat>)
    requires hi <= |strip| && Link(strip, sets, lo, hi, {}, 0, true, first) && Tame(strip, sets, lo, hi, first)
    ensures !LostIn(strip, sets, lo, hi, u, c, w, sts, f)
  {
    if LostIn(strip, sets, lo, hi, u, c, w, sts, f) {
      assert f == first;
      assert Between(|u|, 0, |u|) && Between(0, 0, |u|);
      ChainClosed(strip, sets, lo, hi, u, All(|u|), sts, |u|);
      assert Holds(strip, sets, lo, hi, {}, 0, true, sts[|u|]);
      assert Flows(strip, sets, lo, hi, w, map[]);
    }
  }

  /** The code of `(a*|bb)c`, and the end mark behind it. */
  const TWICE: Strip := [
    Sop(OLPAREN, 1), Sop(OCH_, 7), Sop(OQUEST_, 4), Sop(OPLUS_, 2), Sop(OCHAR, A), Sop(O_PLUS, 2), Sop(O_QUEST, 4),
    Sop(OOR1, 6), Sop(OOR2, 3), Sop(OCHAR, B), Sop(OCHAR, B), Sop(O_CH, 3), Sop(ORPAREN, 1), Sop(OCHAR, C),
    Sop(OEND, 0)]

  /** All states but the end of the loop, the one between the two characters and the end. */
  const TWICE_FIRST: set<nat> := {0, 1, 2, 3, 4, 6, 7, 8, 9, 11, 12, 13}

  lemma TwiceEps()
    ensures Eps(TWICE, 0) == {1} && Eps(TWICE, 1) == {2, 8} && Eps(TWICE, 2) == {3, 6} && Eps(TWICE, 3) == {4}
    ensures Eps(TWICE, 4) == {} && Eps(TWICE, 6) == {7} && Eps(TWICE, 7) == {11} && Eps(TWICE, 8) == {9}
    ensures Eps(TWICE, 9) == {} && Eps(TWICE, 11) == {12} && Eps(TWICE, 12) == {13} && Eps(TWICE, 13) == {}
  {
    assert Look(TWICE, 11) == 11;
    assert Look(TWICE, 8) == 11;
  }

  ghost const PAIR: Lang := Join(Single([], Sop(OCHAR, B)), Single([], Sop(OCHAR, B)))

  ghost const TWICE_LANG: Lang :=
    Join((iset{[]} + Some(Single([], Sop(OCHAR, A)))) + PAIR, Single([], Sop(OCHAR, C)))

  lemma TwiceDenotes()
    ensures Segment(TWICE, [], 0, 14, TWICE_LANG)
  {
    SymbolSegment(TWICE, [], 4);
    PlusSegment(TWICE, [], 3, 5, Single([], Sop(OCHAR, A)));
    QuestSegment(TWICE, [], 2, 6, Some(Single([], Sop(OCHAR, A))));
    SymbolSegment(TWICE, [], 9);
    SymbolSegment(TWICE, [], 10);
    CatSegment(TWICE, [], 9, 10, 11, Single([], Sop(OCHAR, B)), Single([], Sop(OCHAR, B)));
    LastTail(TWICE, [], 8, 11, PAIR);
    ChoiceSegment(TWICE, [], 1, 8, 12, iset{[]} + Some(Single([], Sop(OCHAR, A))), PAIR);
    GroupSegment(TWICE, [], 0, 12, (iset{[]} + Some(Single([], Sop(OCHAR, A)))) + PAIR);
    SymbolSegment(TWICE, [], 13);
    CatSegment(TWICE, [], 0, 13, 14, (iset{[]} + Some(Single([], Sop(OCHAR, A)))) + PAIR, Single([], Sop(OCHAR, C)));
  }

  lemma TwiceLink()
    ensures Link(TWICE, [], 0, 14, {}, 0, true, TWICE_FIRST)
  {
    TwiceEps();
  }

  lemma TwiceBack(p: nat, c: nat)
    requires p < 14 && Accepts([], TWICE[p], Ch(c)) && p + 1 in TWICE_FIRST
    ensures p == 10 && c == B
  {
  }

  /** It leads back to its first states, and still loses no match. */
  lemma TwiceNeverLost()
    ensures Segment(TWICE, [], 0, 14, TWICE_LANG) && NeverLost(TWICE, [], 0, 14)
    ensures Accepts([], TWICE[10], Ch(B)) && 11 in TWICE_FIRST
  {
    TwiceDenotes();
    TwiceLink();
    forall p, c | 0 <= p < 14 && Accepts([], TWICE[p], Ch(c)) && p + 1 in TWICE_FIRST
      ensures exists q :: 0 <= q < 14 && q in TWICE_FIRST && Accepts([], TWICE[q], Ch(c)) && q + 1 !in TWICE_FIRST
    {
      TwiceBack(p, c);
      assert 9 in TWICE_FIRST && Accepts([], TWICE[9], Ch(c)) && 9 + 1 !in TWICE_FIRST;
    }
    TameNeverLost(TWICE, [], 0, 14, TWICE_FIRST);
  }

  /** The code of `(a*|b)c` loses the match "bc". */
  lemma LostThere()
    ensures Lost(STRIP, [], 0, 13, [], B, [C])
  {
    ColdIsLate();
    assert NoneEnds(LANG, TEXT, 0, 2) by { NoneSooner(); }
    EarlyIsLost(STRIP, [], 0, 13, LANG, TEXT, 0, 2, 1, 0, 2);
    assert TEXT[0..0] == [] && TEXT[1..2] == [C];
  }

  /** Every text of the expression ends with "c". */
  lemma NoneSooner()
    ensures NoneEnds(LANG, TEXT, 0, 2)
  {
    forall e | 0 <= e < 2 ensures !EndsAt(LANG, TEXT, 0, e) {
      if EndsAt(LANG, TEXT, 0, e) {
        var i :| 0 <= i <= e && TEXT[i..e] in LANG;
        LastIsC(TEXT[i..e]);
      }
    }
  }

  lemma LastIsC(w: Text)
    requires w in LANG
    ensures |w| > 0 && w[|w| - 1] == C
  {
  }
}
