/** The sets of states that the matcher steps through, and what being in the last state means. */
module RegexChain {
  import opened RegexStrip
  import opened RegexLang
  import opened RegexTimes
  import opened RegexSegment
  import opened RegexCode

  /** What the set `cur` must hold after `prev` and the character `c`, the start being switched
      on as well if `on` is set. */
  ghost predicate Holds(strip: Strip, sets: Sets, lo: nat, hi: nat, prev: set<nat>, c: nat, on: bool, cur: set<nat>)
    requires hi <= |strip|
  {
    Closed(strip, lo, hi, cur) && (on ==> lo in cur) && Moves(strip, sets, lo, hi, prev, Ch(c), cur)
  }

  ghost predicate Link(strip: Strip, sets: Sets, lo: nat, hi: nat, prev: set<nat>, c: nat, on: bool, cur: set<nat>)
    requires hi <= |strip|
  {
    && Holds(strip, sets, lo, hi, prev, c, on, cur)
    && forall s :: Holds(strip, sets, lo, hi, prev, c, on, s) ==> cur <= s
  }

  /** The sets for the positions of `t`, with the start switched on at the positions `ts`. */
  ghost predicate Chain(strip: Strip, sets: Sets, lo: nat, hi: nat, t: Text, ts: Times, sts: seq<set<nat>>)
    requires hi <= |strip|
  {
    && |sts| == |t| + 1 && Link(strip, sets, lo, hi, {}, 0, 0 in ts, sts[0])
    && forall j :: 0 <= j < |t| ==> Link(strip, sets, lo, hi, sts[j], t[j], j + 1 in ts, sts[j + 1])
  }

  // ----- the states that are on hold every text -----

  ghost predicate IsOn(sts: seq<set<nat>>, p: nat, k: nat) {
    k < |sts| && p in sts[k]
  }

  ghost function OnTimes(sts: seq<set<nat>>, p: nat): Times {
    set k: nat | k < |sts| && IsOn(sts, p, k)
  }

  ghost function RunOf(sts: seq<set<nat>>, lo: nat, hi: nat): Run {
    map p: nat | lo <= p <= hi && Between(p, lo, hi) :: OnTimes(sts, p)
  }

  lemma RunOfOn(sts: seq<set<nat>>, lo: nat, hi: nat, p: nat)
    requires lo <= p <= hi
    ensures On(RunOf(sts, lo, hi), p) == OnTimes(sts, p)
  {
    assert Between(p, lo, hi);
  }

  lemma ChainClosed(strip: Strip, sets: Sets, lo: nat, hi: nat, t: Text, ts: Times, sts: seq<set<nat>>, k: nat)
    requires hi <= |strip| && Chain(strip, sets, lo, hi, t, ts, sts) && k <= |t|
    ensures Closed(strip, lo, hi, sts[k]) && (k in ts ==> lo in sts[k])
    ensures k < |t| ==> Moves(strip, sets, lo, hi, sts[k], Ch(t[k]), sts[k + 1])
  {
    if k > 0 { assert Link(strip, sets, lo, hi, sts[k - 1], t[k - 1], k - 1 + 1 in ts, sts[k - 1 + 1]); }
  }

  lemma ChainFlowsAt(strip: Strip, sets: Sets, lo: nat, hi: nat, t: Text, ts: Times, sts: seq<set<nat>>, p: nat)
    requires WellFormed(strip, lo, hi) && Chain(strip, sets, lo, hi, t, ts, sts) && lo <= p < hi
    ensures FlowsAt(strip, sets, t, RunOf(sts, lo, hi), p)
  {
    var run := RunOf(sts, lo, hi);
    RunOfOn(sts, lo, hi, p);
    RunOfOn(sts, lo, hi, p + 1);
    forall q | q in Eps(strip, p) ensures On(run, p) <= On(run, q) {
      EpsInside(strip, lo, hi, p);
      RunOfOn(sts, lo, hi, q);
      forall k | k in OnTimes(sts, p) ensures k in OnTimes(sts, q) {
        ChainClosed(strip, sets, lo, hi, t, ts, sts, k);
        assert IsOn(sts, q, k);
      }
    }
    forall j | j in Next(sets, t, strip[p], On(run, p)) ensures j in On(run, p + 1) {
      assert Passes(sets, t, strip[p], On(run, p), j);
      ChainClosed(strip, sets, lo, hi, t, ts, sts, j - 1);
      assert IsOn(sts, p + 1, j);
    }
  }

  lemma ChainFlows(strip: Strip, sets: Sets, lo: nat, hi: nat, t: Text, ts: Times, sts: seq<set<nat>>)
    requires WellFormed(strip, lo, hi) && Chain(strip, sets, lo, hi, t, ts, sts)
    ensures Flows(strip, sets, lo, hi, t, RunOf(sts, lo, hi))
  {
    forall p | lo <= p < hi ensures FlowsAt(strip, sets, t, RunOf(sts, lo, hi), p) {
      ChainFlowsAt(strip, sets, lo, hi, t, ts, sts, p);
    }
  }

  lemma ChainFinds(strip: Strip, sets: Sets, lo: nat, hi: nat, la: Lang, t: Text, ts: Times, sts: seq<set<nat>>, k: nat)
    requires Segment(strip, sets, lo, hi, la) && Within(t, ts) && Chain(strip, sets, lo, hi, t, ts, sts)
    requires k in After(t, la, ts)
    ensures k < |sts| && hi in sts[k]
  {
    ChainFlows(strip, sets, lo, hi, t, ts, sts);
    RunOfOn(sts, lo, hi, lo);
    RunOfOn(sts, lo, hi, hi);
    forall i | i in ts ensures i in OnTimes(sts, lo) {
      ChainClosed(strip, sets, lo, hi, t, ts, sts, i);
      assert IsOn(sts, lo, i);
    }
    Grows(t, la, ts, OnTimes(sts, lo));
    assert IsOn(sts, hi, k);
  }

  // ----- and nothing else -----

  ghost function StatesAt(run: Run, lo: nat, hi: nat, k: nat): set<nat> {
    set p: nat | lo <= p <= hi && k in On(run, p)
  }

  lemma StatesHold(strip: Strip, sets: Sets, lo: nat, hi: nat, t: Text, run: Run, prev: set<nat>, k: nat)
    requires WellFormed(strip, lo, hi) && Flows(strip, sets, lo, hi, t, run) && k <= |t|
    requires k > 0 ==> forall p :: p in prev && lo <= p < hi ==> k - 1 in On(run, p)
    requires k == 0 ==> prev == {}
    ensures Holds(strip, sets, lo, hi, prev, if k == 0 then 0 else t[k - 1], k in On(run, lo), StatesAt(run, lo, hi, k))
  {
    var s := StatesAt(run, lo, hi, k);
    forall p | lo <= p < hi && p in s ensures Eps(strip, p) <= s {
      EpsInside(strip, lo, hi, p);
      assert FlowsAt(strip, sets, t, run, p);
    }
    if k > 0 {
      forall p | lo <= p < hi && p in prev && Accepts(sets, strip[p], Ch(t[k - 1])) ensures p + 1 in s {
        assert FlowsAt(strip, sets, t, run, p);
        assert Passes(sets, t, strip[p], On(run, p), k);
      }
    }
  }

  lemma {:induction false} ChainInside(strip: Strip, sets: Sets, lo: nat, hi: nat, t: Text, ts: Times,
    sts: seq<set<nat>>, run: Run, k: nat)
    requires WellFormed(strip, lo, hi) && Chain(strip, sets, lo, hi, t, ts, sts) && k <= |t|
    requires Flows(strip, sets, lo, hi, t, run) && ts <= On(run, lo)
    ensures sts[k] <= StatesAt(run, lo, hi, k)
    decreases k
  {
    var prev := {};
    if k > 0 {
      ChainInside(strip, sets, lo, hi, t, ts, sts, run, k - 1);
      prev := sts[k - 1];
      assert Link(strip, sets, lo, hi, sts[k - 1], t[k - 1], k - 1 + 1 in ts, sts[k - 1 + 1]);
    }
    StatesHold(strip, sets, lo, hi, t, run, prev, k);
    assert Holds(strip, sets, lo, hi, prev, if k == 0 then 0 else t[k - 1], k in ts, StatesAt(run, lo, hi, k));
  }

  lemma ChainKeeps(strip: Strip, sets: Sets, lo: nat, hi: nat, la: Lang, t: Text, ts: Times, sts: seq<set<nat>>, k: nat)
    requires Segment(strip, sets, lo, hi, la) && Within(t, ts) && Chain(strip, sets, lo, hi, t, ts, sts)
    requires k <= |t| && hi in sts[k]
    ensures k in After(t, la, ts)
  {
    assert HasExact(strip, sets, lo, hi, la, t, ts);
    var run :| Exact(strip, sets, lo, hi, la, t, ts, run);
    ChainInside(strip, sets, lo, hi, t, ts, sts, run, k);
  }

  /** The last state is on exactly behind the texts of the language. */
  lemma ChainAccepts(strip: Strip, sets: Sets, lo: nat, hi: nat, la: Lang, t: Text, ts: Times, sts: seq<set<nat>>,
    k: nat)
    requires Segment(strip, sets, lo, hi, la) && Within(t, ts) && Chain(strip, sets, lo, hi, t, ts, sts) && k <= |t|
    ensures hi in sts[k] <==> k in After(t, la, ts)
  {
    if hi in sts[k] { ChainKeeps(strip, sets, lo, hi, la, t, ts, sts, k); }
    if k in After(t, la, ts) { ChainFinds(strip, sets, lo, hi, la, t, ts, sts, k); }
  }
}
