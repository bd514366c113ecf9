/** `slow` and `fast` of libphoenix/regex/engine.c, in the version for small expressions, whose
    sets of states are words, and in the version for large ones, whose sets are arrays. */
module RegexEngine {
  import opened Powers
  import opened BitWord
  import opened RegexStrip
  import opened RegexStep
  import opened RegexLang
  import opened RegexTimes
  import opened RegexCode
  import opened RegexChain

  /** No character: the end of the text, or what is before its beginning. */
  const OUT := -1

  /** What the matcher knows of the expression and the text besides the strip. */
  datatype Setting = Setting(words: set<nat>, newline: bool, notBol: bool, notEol: bool, nbol: nat, neol: nat) {
    function IsWord(c: int): bool {
      c >= 0 && c as nat in words
    }
  }

  /** Nothing in the segment waits for an anchor or a word boundary. */
  ghost predicate NoMarks(strip: Strip, lo: nat, hi: nat)
    requires hi <= |strip|
  {
    forall p :: lo <= p < hi ==> strip[p].op !in {OBOL, OEOL, OBOW, OEOW}
  }

  const NEWLINE := 10

  /** The code for an anchor between two characters and how often to step on it. */
  method AnchorCode(g: Setting, lastc: int, c: int) returns (flagch: In, i: nat)
    ensures !flagch.Ch?
  {
    flagch, i := Nothing, 0;
    if (lastc == NEWLINE && g.newline) || (lastc == OUT && !g.notBol) {
      flagch, i := Bol, g.nbol;
    }
    if (c == NEWLINE && g.newline) || (c == OUT && !g.notEol) {
      flagch := if flagch == Bol then BolEol else Eol;
      i := i + g.neol;
    }
  }

  /** The code for a word boundary there, if it is one. */
  method WordCode(g: Setting, lastc: int, c: int, anchor: In) returns (flagch: In)
    requires !anchor.Ch?
    ensures !flagch.Ch?
  {
    flagch := anchor;
    if (flagch == Bol || (lastc != OUT && !g.IsWord(lastc))) && c != OUT && g.IsWord(c) {
      flagch := Bow;
    }
    if lastc != OUT && g.IsWord(lastc) && (flagch == Eol || (c != OUT && !g.IsWord(c))) {
      flagch := Eow;
    }
  }

  // ----- the sets of states, whatever holds them -----

  lemma Deaf(strip: Strip, sets: Sets, lo: nat, hi: nat, ch: In)
    requires hi <= |strip| && NoMarks(strip, lo, hi) && !ch.Ch?
    ensures forall p :: lo <= p < hi ==> !Accepts(sets, strip[p], ch)
  {
  }

  /** Stepping on a code leaves a closed set as it is. */
  lemma StepOnCode(strip: Strip, sets: Sets, lo: nat, hi: nat, st: set<nat>, ch: In, r: set<nat>)
    requires hi <= |strip| && NoMarks(strip, lo, hi) && !ch.Ch? && Closed(strip, lo, hi, st)
    requires IsStep(strip, sets, lo, hi, st, ch, st, r)
    ensures r == st
  {
    Deaf(strip, sets, lo, hi, ch);
    IdleStep(strip, sets, lo, hi, st, ch);
    StepUnique(strip, sets, lo, hi, st, ch, st, r, st);
  }

  lemma StartLink(strip: Strip, sets: Sets, lo: nat, hi: nat, r: set<nat>)
    requires hi <= |strip| && IsStep(strip, sets, lo, hi, {lo}, Nothing, {lo}, r)
    ensures Link(strip, sets, lo, hi, {}, 0, true, r)
  {
    forall s | Holds(strip, sets, lo, hi, {}, 0, true, s) ensures r <= s {
      assert Moves(strip, sets, lo, hi, {lo}, Nothing, s);
    }
  }

  lemma NextLink(strip: Strip, sets: Sets, lo: nat, hi: nat, prev: set<nat>, c: nat, r: set<nat>)
    requires hi <= |strip| && IsStep(strip, sets, lo, hi, prev, Ch(c), {}, r)
    ensures Link(strip, sets, lo, hi, prev, c, false, r)
  {
  }

  lemma FreshLink(strip: Strip, sets: Sets, lo: nat, hi: nat, prev: set<nat>, c: nat, first: set<nat>, r: set<nat>)
    requires hi <= |strip| && Link(strip, sets, lo, hi, {}, 0, true, first)
    requires IsStep(strip, sets, lo, hi, prev, Ch(c), first, r)
    ensures Link(strip, sets, lo, hi, prev, c, true, r)
  {
    forall s | Holds(strip, sets, lo, hi, prev, c, true, s) ensures r <= s {
      assert Holds(strip, sets, lo, hi, {}, 0, true, s);
    }
  }

  lemma Extend(strip: Strip, sets: Sets, lo: nat, hi: nat, t: Text, ts: Times, sts: seq<set<nat>>, c: nat, ts': Times,
    st: set<nat>)
    requires hi <= |strip| && Chain(strip, sets, lo, hi, t, ts, sts)
    requires forall j :: j in ts' <==> j in ts || (j == |t| + 1 && j in ts')
    requires Link(strip, sets, lo, hi, sts[|t|], c, |t| + 1 in ts', st)
    ensures |t| + 1 !in ts ==> Chain(strip, sets, lo, hi, t + [c], ts', sts + [st])
  {
    var t', sts' := t + [c], sts + [st];
    if |t| + 1 !in ts {
      forall j | 0 <= j < |t'| ensures Link(strip, sets, lo, hi, sts'[j], t'[j], j + 1 in ts', sts'[j + 1]) {
        if j < |t| { assert Link(strip, sets, lo, hi, sts[j], t[j], j + 1 in ts, sts[j + 1]); }
      }
    }
  }

  // ----- slow -----

  /** What `slow` keeps: the sets so far, for matches that begin at the beginning. */
  ghost predicate Slows(strip: Strip, sets: Sets, lo: nat, hi: nat, t: Text, st: set<nat>, sts: seq<set<nat>>)
    requires hi <= |strip|
  {
    Chain(strip, sets, lo, hi, t, {0}, sts) && sts[|t|] == st
  }

  /** `st` is what is on behind `t`, for matches that begin at its beginning. */
  ghost predicate SlowAt(strip: Strip, sets: Sets, lo: nat, hi: nat, t: Text, st: set<nat>)
    requires hi <= |strip|
  {
    exists sts :: Slows(strip, sets, lo, hi, t, st, sts)
  }

  lemma SlowStart(strip: Strip, sets: Sets, lo: nat, hi: nat, st: set<nat>)
    requires hi <= |strip| && IsStep(strip, sets, lo, hi, {lo}, Nothing, {lo}, st)
    ensures SlowAt(strip, sets, lo, hi, [], st)
  {
    StartLink(strip, sets, lo, hi, st);
    assert Slows(strip, sets, lo, hi, [], st, [st]);
  }

  lemma SlowOn(strip: Strip, sets: Sets, lo: nat, hi: nat, text: Text, start: nat, p: nat, st: set<nat>, st': set<nat>)
    requires hi <= |strip| && start <= p < |text| && SlowAt(strip, sets, lo, hi, text[start..p], st)
    requires IsStep(strip, sets, lo, hi, st, Ch(text[p]), {}, st')
    ensures SlowAt(strip, sets, lo, hi, text[start..p + 1], st')
  {
    var sts :| Slows(strip, sets, lo, hi, text[start..p], st, sts);
    SlowNext(strip, sets, lo, hi, text[start..p], st, sts, text[p], st');
    assert text[start..p] + [text[p]] == text[start..p + 1];
  }

  lemma SlowNext(strip: Strip, sets: Sets, lo: nat, hi: nat, t: Text, st: set<nat>, sts: seq<set<nat>>, c: nat,
    st': set<nat>)
    requires hi <= |strip| && Slows(strip, sets, lo, hi, t, st, sts) && IsStep(strip, sets, lo, hi, st, Ch(c), {}, st')
    ensures Slows(strip, sets, lo, hi, t + [c], st', sts + [st'])
  {
    NextLink(strip, sets, lo, hi, st, c, st');
    Extend(strip, sets, lo, hi, t, {0}, sts, c, {0}, st');
  }

  lemma SlowAccepts(strip: Strip, sets: Sets, lo: nat, hi: nat, la: Lang, t: Text, st: set<nat>)
    requires Segment(strip, sets, lo, hi, la) && SlowAt(strip, sets, lo, hi, t, st)
    ensures Closed(strip, lo, hi, st)
    ensures hi in st <==> t in la
  {
    var sts :| Slows(strip, sets, lo, hi, t, st, sts);
    ChainClosed(strip, sets, lo, hi, t, {0}, sts, |t|);
    ChainAccepts(strip, sets, lo, hi, la, t, {0}, sts, |t|);
    assert t[0..|t|] == t;
    if t in la { Reach(t, la, {0}, 0, |t|); }
    if |t| in After(t, la, {0}) { assert Hit(t, la, {0}, |t|); }
  }

  /** With no state on, no longer text can be accepted. */
  lemma {:induction false} SlowDead(strip: Strip, sets: Sets, lo: nat, hi: nat, la: Lang, t: Text, sts: seq<set<nat>>,
    u: Text)
    requires Segment(strip, sets, lo, hi, la) && Slows(strip, sets, lo, hi, t, {}, sts)
    ensures t + u !in la
    decreases |u|
  {
    if u == [] {
      assert t + u == t;
      SlowAccepts(strip, sets, lo, hi, la, t, {});
    } else {
      SlowNext(strip, sets, lo, hi, t, {}, sts, u[0], {});
      SlowDead(strip, sets, lo, hi, la, t + [u[0]], sts + [{}], u[1..]);
      assert t + u == t + [u[0]] + u[1..];
    }
  }

  /** `matchp` is the last end before `p` of a text that begins at `start`; -1 if there is none. */
  ghost predicate LastEnd(la: Lang, text: Text, start: nat, p: nat, matchp: int)
    requires start <= p <= |text| + 1
  {
    && (matchp == -1 || (start <= matchp < p && text[start..matchp] in la))
    && forall e :: start <= e < p && e > matchp ==> text[start..e] !in la
  }

  lemma LastEndNext(la: Lang, text: Text, start: nat, p: nat, matchp: int)
    requires start <= p <= |text| && LastEnd(la, text, start, p, matchp)
    ensures LastEnd(la, text, start, p + 1, if text[start..p] in la then p else matchp)
  {
  }

  lemma LastEndDead(strip: Strip, sets: Sets, lo: nat, hi: nat, la: Lang, text: Text, start: nat, p: nat, stop: nat,
    matchp: int)
    requires start <= p <= stop <= |text| && LastEnd(la, text, start, p + 1, matchp)
    requires Segment(strip, sets, lo, hi, la) && SlowAt(strip, sets, lo, hi, text[start..p], {})
    ensures LastEnd(la, text, start, stop + 1, matchp)
  {
    var sts :| Slows(strip, sets, lo, hi, text[start..p], {}, sts);
    forall e | p < e <= stop ensures text[start..e] !in la {
      SlowDead(strip, sets, lo, hi, la, text[start..p], sts, text[p..e]);
      assert text[start..p] + text[p..e] == text[start..e];
    }
  }

  method BoundarySmall(g: Setting, strip: Strip, sets: Sets, lo: nat, hi: nat, st: Word, lastc: int, c: int)
    returns (r: Word)
    requires WellFormed(strip, lo, hi) && hi < WORD_BITS && NoMarks(strip, lo, hi) && Closed(strip, lo, hi, Bits(st))
    ensures Bits(r) == Bits(st)
  {
    r := st;
    var flagch, i := AnchorCode(g, lastc, c);
    while i > 0
      invariant Bits(r) == Bits(st)
    {
      var n := StepSmall(strip, sets, lo, hi, r, flagch, r);
      StepOnCode(strip, sets, lo, hi, Bits(r), flagch, Bits(n));
      r, i := n, i - 1;
    }
    flagch := WordCode(g, lastc, c, flagch);
    if flagch == Bow || flagch == Eow {
      var n := StepSmall(strip, sets, lo, hi, r, flagch, r);
      StepOnCode(strip, sets, lo, hi, Bits(r), flagch, Bits(n));
      r := n;
    }
  }

  /** SET1 on a cleared set, and ISSET. */
  lemma BitsOfOne(n: nat)
    requires n < WORD_BITS
    ensures Shl(1, n) == Pow(2, n) && Bits(Or(0, Shl(1, n))) == {n}
  {
    assert Pow(2, 0) == 1;
    ShlPow(0, n);
    OrBits(0, Pow(2, n), n);
    PowPositive(2, n);
    assert forall i :: i !in Bits(0) by {
      forall i ensures i !in Bits(0) { if 0 <= i { BitZero(i); } }
    }
  }

  lemma BitIsSet(v: Word, n: nat)
    requires n < WORD_BITS
    ensures And(v, Shl(1, n)) != 0 <==> n in Bits(v)
  {
    BitsOfOne(n);
    AndPow(v, n);
    PowPositive(2, n);
  }

  method FirstSmall(strip: Strip, sets: Sets, lo: nat, hi: nat) returns (st: Word)
    requires WellFormed(strip, lo, hi) && hi < WORD_BITS
    ensures IsStep(strip, sets, lo, hi, {lo}, Nothing, {lo}, Bits(st))
  {
    BitsOfOne(lo);
    WordOr(0, Shl(1, lo));
    var one: Word := Or(0, Shl(1, lo));
    st := StepSmall(strip, sets, lo, hi, one, Nothing, one);
  }

  lemma BitsOfZero()
    ensures Bits(0) == {}
  {
    forall i | 0 <= i ensures !Bit(0, i) { BitZero(i); }
  }

  method SlowSmall(g: Setting, strip: Strip, sets: Sets, text: Text, start: nat, stop: nat, startst: nat, stopst: nat,
    ghost la: Lang)
    returns (matchp: int)
    requires Segment(strip, sets, startst, stopst, la) && stopst < WORD_BITS && NoMarks(strip, startst, stopst)
    requires start <= stop <= |text|
    ensures LastEnd(la, text, start, stop + 1, matchp)
  {
    var p: nat := start;
    var c := if start == 0 then OUT else text[start - 1];
    var st := FirstSmall(strip, sets, startst, stopst);
    matchp := -1;
    BitsOfZero();
    assert text[start..p] == [];
    SlowStart(strip, sets, startst, stopst, Bits(st));
    while true
      invariant start <= p <= stop
      invariant SlowAt(strip, sets, startst, stopst, text[start..p], Bits(st))
      invariant LastEnd(la, text, start, p, matchp)
      decreases stop - p
    {
      var lastc := c;
      c := if p == |text| then OUT else text[p];
      SlowAccepts(strip, sets, startst, stopst, la, text[start..p], Bits(st));
      st := BoundarySmall(g, strip, sets, startst, stopst, st, lastc, c);
      BitIsSet(st, stopst);
      LastEndNext(la, text, start, p, matchp);
      if And(st, Shl(1, stopst)) != 0 {
        matchp := p;
      }
      if st == 0 {
        LastEndDead(strip, sets, startst, stopst, la, text, start, p, stop, matchp);
        break;
      }
      if p == stop {
        break;
      }
      var tmp := st;
      st := StepSmall(strip, sets, startst, stopst, tmp, Ch(c), 0);
      SlowOn(strip, sets, startst, stopst, text, start, p, Bits(tmp), Bits(st));
      p := p + 1;
    }
  }

  // ----- fast -----

  ghost function All(k: nat): Times {
    set i: nat | i <= k && Between(i, 0, k)
  }

  /** What `fast` keeps: the sets so far, for matches that begin anywhere. */
  ghost predicate Fasts(strip: Strip, sets: Sets, lo: nat, hi: nat, t: Text, st: set<nat>, sts: seq<set<nat>>)
    requires hi <= |strip|
  {
    Chain(strip, sets, lo, hi, t, All(|t|), sts) && sts[|t|] == st
  }

  lemma FastStart(strip: Strip, sets: Sets, lo: nat, hi: nat, st: set<nat>)
    requires hi <= |strip| && Link(strip, sets, lo, hi, {}, 0, true, st)
    ensures Fasts(strip, sets, lo, hi, [], st, [st])
  {
  }

  lemma FastNext(strip: Strip, sets: Sets, lo: nat, hi: nat, t: Text, st: set<nat>, sts: seq<set<nat>>, c: nat,
    first: set<nat>, st': set<nat>)
    requires hi <= |strip| && Fasts(strip, sets, lo, hi, t, st, sts) && Link(strip, sets, lo, hi, {}, 0, true, first)
    requires IsStep(strip, sets, lo, hi, st, Ch(c), first, st')
    ensures Fasts(strip, sets, lo, hi, t + [c], st', sts + [st'])
  {
    FreshLink(strip, sets, lo, hi, st, c, first, st');
    Extend(strip, sets, lo, hi, t, All(|t|), sts, c, All(|t| + 1), st');
  }

  /** A text of the language begins at or behind `start` and ends at `e`. */
  ghost predicate EndsAt(la: Lang, text: Text, start: nat, e: nat) {
    e <= |text| && exists i :: start <= i <= e && text[i..e] in la
  }

  /** The same for the part of a text from `start` to `p`. */
  ghost predicate Underway(strip: Strip, sets: Sets, lo: nat, hi: nat, text: Text, start: nat, p: nat, st: set<nat>,
    sts: seq<set<nat>>)
    requires hi <= |strip|
  {
    start <= p <= |text| && Fasts(strip, sets, lo, hi, text[start..p], st, sts)
  }

  lemma UnderwayNext(strip: Strip, sets: Sets, lo: nat, hi: nat, text: Text, start: nat, p: nat, st: set<nat>,
    sts: seq<set<nat>>, first: set<nat>, st': set<nat>)
    requires hi <= |strip| && p < |text| && Underway(strip, sets, lo, hi, text, start, p, st, sts)
    requires Link(strip, sets, lo, hi, {}, 0, true, first) && IsStep(strip, sets, lo, hi, st, Ch(text[p]), first, st')
    ensures Underway(strip, sets, lo, hi, text, start, p + 1, st', sts + [st'])
  {
    FastNext(strip, sets, lo, hi, text[start..p], st, sts, text[p], first, st');
    assert text[start..p] + [text[p]] == text[start..p + 1];
  }

  /** From a position where only the first states are on, the sets are those for a text that
      begins there. */
  lemma UnderwayFrom(strip: Strip, sets: Sets, lo: nat, hi: nat, text: Text, start: nat, coldp: nat, p: nat,
    st: set<nat>, sts: seq<set<nat>>)
    requires hi <= |strip| && start <= coldp <= p && Underway(strip, sets, lo, hi, text, start, p, st, sts)
    requires Link(strip, sets, lo, hi, {}, 0, true, sts[coldp - start])
    ensures Underway(strip, sets, lo, hi, text, coldp, p, st, sts[coldp - start..])
  {
    var d, t, t', cts := coldp - start, text[start..p], text[coldp..p], sts[coldp - start..];
    forall j | 0 <= j < |t'| ensures Link(strip, sets, lo, hi, cts[j], t'[j], j + 1 in All(|t'|), cts[j + 1]) {
      assert Link(strip, sets, lo, hi, sts[j + d], t[j + d], j + d + 1 in All(|t|), sts[j + d + 1]);
      assert Between(j + 1, 0, |t'|) && Between(j + d + 1, 0, |t|);
    }
  }

  lemma FastAccepts(strip: Strip, sets: Sets, lo: nat, hi: nat, la: Lang, text: Text, start: nat, p: nat,
    st: set<nat>, sts: seq<set<nat>>)
    requires Segment(strip, sets, lo, hi, la) && Underway(strip, sets, lo, hi, text, start, p, st, sts)
    ensures Closed(strip, lo, hi, st)
    ensures hi in st <==> EndsAt(la, text, start, p)
  {
    var t := text[start..p];
    ChainClosed(strip, sets, lo, hi, t, All(|t|), sts, |t|);
    ChainAccepts(strip, sets, lo, hi, la, t, All(|t|), sts, |t|);
    if |t| in After(t, la, All(|t|)) {
      assert Hit(t, la, All(|t|), |t|);
      var i :| i in All(|t|) && i <= |t| && t[i..|t|] in la;
      assert t[i..|t|] == text[start + i..p];
    }
    if EndsAt(la, text, start, p) {
      var i :| start <= i <= p && text[i..p] in la;
      assert t[i - start..|t|] == text[i..p];
      assert Between(i - start, 0, |t|);
      Reach(t, la, All(|t|), i - start, |t|);
    }
  }

  ghost predicate NoneEnds(la: Lang, text: Text, start: nat, p: nat) {
    forall e :: start <= e < p ==> !EndsAt(la, text, start, e)
  }

  lemma NoneNext(la: Lang, text: Text, start: nat, p: nat)
    requires NoneEnds(la, text, start, p) && !EndsAt(la, text, start, p)
    ensures NoneEnds(la, text, start, p + 1)
  {
  }

  /** Where the first text ends that begins at `start` or behind: the result of `fast` is the
      position behind that end, or -1, and some such text begins at `coldp` or behind. */
  ghost predicate FirstEnd(la: Lang, text: Text, start: nat, stop: nat, r: int, coldp: nat) {
    if r == -1 then
      NoneEnds(la, text, start, stop + 1)
    else
      start <= coldp <= r - 1 <= stop && EndsAt(la, text, coldp, r - 1) && NoneEnds(la, text, start, r - 1)
  }

  /** Of the positions from `start` to before `n`, `coldp` is the last at which only the states of
      `first` are on. */
  ghost predicate LastCold(sts: seq<set<nat>>, first: set<nat>, start: nat, coldp: nat, n: nat) {
    && start <= coldp && coldp - start < |sts| && sts[coldp - start] == first
    && forall j :: coldp - start < j < n - start && j < |sts| ==> sts[j] != first
  }

  /** How `fast` stands at `p`, having looked for a cold start at the positions before `n`. */
  ghost predicate Stands(strip: Strip, sets: Sets, lo: nat, hi: nat, text: Text, start: nat, coldp: nat, n: nat,
    p: nat, st: set<nat>, first: set<nat>, sts: seq<set<nat>>)
    requires hi <= |strip|
  {
    && Underway(strip, sets, lo, hi, text, start, p, st, sts) && Link(strip, sets, lo, hi, {}, 0, true, first)
    && coldp <= p && LastCold(sts, first, start, coldp, n)
  }

  ghost predicate FastAt(strip: Strip, sets: Sets, lo: nat, hi: nat, text: Text, start: nat, coldp: nat, n: nat,
    p: nat, st: set<nat>, first: set<nat>)
    requires hi <= |strip|
  {
    exists sts :: Stands(strip, sets, lo, hi, text, start, coldp, n, p, st, first, sts)
  }

  /** `coldp` is the last position up to `end` at which the states that are on are the first ones. */
  ghost predicate ColdAt(strip: Strip, sets: Sets, lo: nat, hi: nat, text: Text, start: nat, end: nat, coldp: nat)
    requires hi <= |strip|
  {
    var n := end + 1;
    exists st, first :: FastAt(strip, sets, lo, hi, text, start, coldp, n, end, st, first)
  }

  lemma FastBegins(strip: Strip, sets: Sets, lo: nat, hi: nat, text: Text, start: nat, first: set<nat>)
    requires hi <= |strip| && start <= |text| && IsStep(strip, sets, lo, hi, {lo}, Nothing, {lo}, first)
    ensures FastAt(strip, sets, lo, hi, text, start, start, start, start, first, first)
  {
    StartLink(strip, sets, lo, hi, first);
    FastStart(strip, sets, lo, hi, first);
    assert text[start..start] == [];
    assert Stands(strip, sets, lo, hi, text, start, start, start, start, first, first, [first]);
  }

  lemma FastCold(strip: Strip, sets: Sets, lo: nat, hi: nat, text: Text, start: nat, coldp: nat, p: nat,
    st: set<nat>, first: set<nat>)
    requires hi <= |strip| && FastAt(strip, sets, lo, hi, text, start, coldp, p, p, st, first)
    ensures FastAt(strip, sets, lo, hi, text, start, if st == first then p else coldp, p + 1, p, st, first)
  {
    var sts :| Stands(strip, sets, lo, hi, text, start, coldp, p, p, st, first, sts);
    assert sts[p - start] == st;
    assert Stands(strip, sets, lo, hi, text, start, if st == first then p else coldp, p + 1, p, st, first, sts);
  }

  lemma FastOn(strip: Strip, sets: Sets, lo: nat, hi: nat, text: Text, start: nat, coldp: nat, p: nat,
    st: set<nat>, first: set<nat>, st': set<nat>)
    requires hi <= |strip| && p < |text| && FastAt(strip, sets, lo, hi, text, start, coldp, p + 1, p, st, first)
    requires IsStep(strip, sets, lo, hi, st, Ch(text[p]), first, st')
    ensures FastAt(strip, sets, lo, hi, text, start, coldp, p + 1, p + 1, st', first)
  {
    var sts :| Stands(strip, sets, lo, hi, text, start, coldp, p + 1, p, st, first, sts);
    UnderwayNext(strip, sets, lo, hi, text, start, p, st, sts, first, st');
    assert Stands(strip, sets, lo, hi, text, start, coldp, p + 1, p + 1, st', first, sts + [st']);
  }

  lemma FastEnds(strip: Strip, sets: Sets, lo: nat, hi: nat, la: Lang, text: Text, start: nat, coldp: nat, n: nat,
    p: nat, st: set<nat>, first: set<nat>)
    requires Segment(strip, sets, lo, hi, la) && FastAt(strip, sets, lo, hi, text, start, coldp, n, p, st, first)
    ensures Closed(strip, lo, hi, st) && (hi in st <==> EndsAt(la, text, start, p))
  {
    var sts :| Stands(strip, sets, lo, hi, text, start, coldp, n, p, st, first, sts);
    FastAccepts(strip, sets, lo, hi, la, text, start, p, st, sts);
  }

  /** Where `fast` ends. */
  function EndOf(stop: nat, r: int): nat { if r <= 0 then stop else r - 1 }

  lemma FastDone(strip: Strip, sets: Sets, lo: nat, hi: nat, la: Lang, text: Text, start: nat, stop: nat, coldp: nat,
    p: nat, st: set<nat>, first: set<nat>)
    requires p <= stop && Segment(strip, sets, lo, hi, la)
    requires FastAt(strip, sets, lo, hi, text, start, coldp, p + 1, p, st, first)
    requires NoneEnds(la, text, start, p)
    requires hi in st || p == stop
    ensures var r := if hi in st then p + 1 else -1;
      FirstEnd(la, text, start, stop, r, coldp) && ColdAt(strip, sets, lo, hi, text, start, EndOf(stop, r), coldp)
  {
    var sts :| Stands(strip, sets, lo, hi, text, start, coldp, p + 1, p, st, first, sts);
    FastAccepts(strip, sets, lo, hi, la, text, start, p, st, sts);
    UnderwayFrom(strip, sets, lo, hi, text, start, coldp, p, st, sts);
    FastAccepts(strip, sets, lo, hi, la, text, coldp, p, st, sts[coldp - start..]);
    var end := EndOf(stop, if hi in st then p + 1 else -1);
    var n := end + 1;
    assert end == p && FastAt(strip, sets, lo, hi, text, start, coldp, n, end, st, first);
  }

  method FastSmall(g: Setting, strip: Strip, sets: Sets, text: Text, start: nat, stop: nat, startst: nat, stopst: nat,
    ghost la: Lang)
    returns (r: int, coldp: nat)
    requires Segment(strip, sets, startst, stopst, la) && stopst < WORD_BITS && NoMarks(strip, startst, stopst)
    requires start <= stop <= |text|
    ensures FirstEnd(la, text, start, stop, r, coldp)
    ensures ColdAt(strip, sets, startst, stopst, text, start, EndOf(stop, r), coldp)
  {
    var p: nat := start;
    var c := if start == 0 then OUT else text[start - 1];
    var first := FirstSmall(strip, sets, startst, stopst);
    var st := first;
    coldp := start;
    FastBegins(strip, sets, startst, stopst, text, start, Bits(first));
    while true
      invariant p <= stop && FastAt(strip, sets, startst, stopst, text, start, coldp, p, p, Bits(st), Bits(first))
      invariant NoneEnds(la, text, start, p)
      decreases stop - p
    {
      var lastc := c;
      c := if p == |text| then OUT else text[p];
      FastCold(strip, sets, startst, stopst, text, start, coldp, p, Bits(st), Bits(first));
      WordsDecide(st, first);
      if st == first {
        coldp := p;
      }
      FastEnds(strip, sets, startst, stopst, la, text, start, coldp, p + 1, p, Bits(st), Bits(first));
      st := BoundarySmall(g, strip, sets, startst, stopst, st, lastc, c);
      BitIsSet(st, stopst);
      if And(st, Shl(1, stopst)) != 0 || p == stop {
        r := if And(st, Shl(1, stopst)) != 0 then p + 1 else -1;
        FastDone(strip, sets, startst, stopst, la, text, start, stop, coldp, p, Bits(st), Bits(first));
        return;
      }
      NoneNext(la, text, start, p);
      var tmp := st;
      st := StepSmall(strip, sets, startst, stopst, tmp, Ch(c), first);
      FastOn(strip, sets, startst, stopst, text, start, coldp, p, Bits(tmp), Bits(first), Bits(st));
      p := p + 1;
    }
  }

  /** EQ of words is that of the sets they stand for. */
  lemma WordsDecide(a: Word, b: Word)
    ensures Bits(a) == Bits(b) <==> a == b
  {
    if Bits(a) == Bits(b) {
      forall i | 0 <= i ensures Bit(a, i) <==> Bit(b, i) {
        if i < WORD_BITS {
          assert Bit(a, i) <==> i in Bits(a);
          assert Bit(b, i) <==> i in Bits(b);
        } else {
          NoHighBit(a, i);
          NoHighBit(b, i);
        }
      }
      BitsDecide(a, b);
    }
  }

  // ----- the version for large expressions -----

  /** ASSIGN. */
  method Assign(dst: array<bool>, src: array<bool>)
    requires dst.Length == src.Length
    modifies dst
    ensures Marked(dst) == old(Marked(src))
  {
    forall i | 0 <= i < dst.Length {
      dst[i] := src[i];
    }
  }

  /** EQ. */
  method Equal(a: array<bool>, b: array<bool>) returns (eq: bool)
    requires a.Length == b.Length
    ensures eq <==> Marked(a) == Marked(b)
  {
    var i := 0;
    while i < a.Length && a[i] == b[i]
      invariant 0 <= i <= a.Length
      invariant forall k :: 0 <= k < i ==> a[k] == b[k]
    {
      i := i + 1;
    }
    eq := i == a.Length;
    if !eq { assert i in Marked(a) <==> i !in Marked(b); }
  }

  /** The sets of states of struct match. */
  class Match {
    const st: array<bool>
    const first: array<bool>
    const tmp: array<bool>
    const empty: array<bool>
    var coldp: nat

    ghost predicate Valid(n: nat)
      reads empty
    {
      && st != first && st != tmp && st != empty && first != tmp && first != empty && tmp != empty
      && n < st.Length == first.Length == tmp.Length == empty.Length && Marked(empty) == {}
    }

    constructor (n: nat)
      ensures Valid(n) && fresh(st) && fresh(first) && fresh(tmp) && fresh(empty)
    {
      st, first, tmp, empty := new bool[n + 1], new bool[n + 1], new bool[n + 1], new bool[n + 1](_ => false);
      coldp := 0;
    }

    method Boundary(g: Setting, strip: Strip, sets: Sets, lo: nat, hi: nat, lastc: int, c: int)
      requires WellFormed(strip, lo, hi) && hi < st.Length && NoMarks(strip, lo, hi)
      requires Closed(strip, lo, hi, Marked(st))
      modifies st
      ensures Marked(st) == old(Marked(st))
    {
      ghost var a := Marked(st);
      var flagch, i := AnchorCode(g, lastc, c);
      while i > 0
        invariant Marked(st) == a
      {
        Deaf(strip, sets, lo, hi, flagch);
        StepLarge(strip, sets, lo, hi, st, flagch, st);
        StepOnCode(strip, sets, lo, hi, a, flagch, Marked(st));
        i := i - 1;
      }
      flagch := WordCode(g, lastc, c, flagch);
      if flagch == Bow || flagch == Eow {
        Deaf(strip, sets, lo, hi, flagch);
        StepLarge(strip, sets, lo, hi, st, flagch, st);
        StepOnCode(strip, sets, lo, hi, a, flagch, Marked(st));
      }
    }

    /** The states that are on before any character. */
    method First(strip: Strip, sets: Sets, lo: nat, hi: nat)
      requires WellFormed(strip, lo, hi) && hi < st.Length
      modifies st
      ensures IsStep(strip, sets, lo, hi, {lo}, Nothing, {lo}, Marked(st))
    {
      forall i | 0 <= i < st.Length {
        st[i] := false;
      }
      st[lo] := true;
      assert Marked(st) == {lo};
      StepLarge(strip, sets, lo, hi, st, Nothing, st);
    }

    /** One character on, to the states of `aft` and those that `st` moves to. */
    method Next(strip: Strip, sets: Sets, lo: nat, hi: nat, c: nat, aft: array<bool>)
      requires WellFormed(strip, lo, hi) && Valid(hi) && aft in {first, empty}
      modifies st, tmp
      ensures IsStep(strip, sets, lo, hi, old(Marked(st)), Ch(c), Marked(aft), Marked(st))
    {
      Assign(tmp, st);
      Assign(st, aft);
      StepLarge(strip, sets, lo, hi, tmp, Ch(c), st);
    }

    method Slow(g: Setting, strip: Strip, sets: Sets, text: Text, start: nat, stop: nat, startst: nat, stopst: nat,
      ghost la: Lang)
      returns (matchp: int)
      requires Segment(strip, sets, startst, stopst, la) && Valid(stopst) && NoMarks(strip, startst, stopst)
      requires start <= stop <= |text|
      modifies st, tmp
      ensures LastEnd(la, text, start, stop + 1, matchp)
    {
      var p: nat := start;
      var c := if start == 0 then OUT else text[start - 1];
      First(strip, sets, startst, stopst);
      matchp := -1;
      assert text[start..p] == [];
      SlowStart(strip, sets, startst, stopst, Marked(st));
      while true
        invariant start <= p <= stop
        invariant SlowAt(strip, sets, startst, stopst, text[start..p], Marked(st))
        invariant LastEnd(la, text, start, p, matchp)
        decreases stop - p
      {
        var lastc := c;
        c := if p == |text| then OUT else text[p];
        SlowAccepts(strip, sets, startst, stopst, la, text[start..p], Marked(st));
        Boundary(g, strip, sets, startst, stopst, lastc, c);
        assert st[stopst] <==> stopst in Marked(st);
        LastEndNext(la, text, start, p, matchp);
        if st[stopst] {
          matchp := p;
        }
        var none := Equal(st, empty);
        if none {
          LastEndDead(strip, sets, startst, stopst, la, text, start, p, stop, matchp);
          return;
        }
        if p == stop {
          return;
        }
        ghost var a := Marked(st);
        Next(strip, sets, startst, stopst, c, empty);
        SlowOn(strip, sets, startst, stopst, text, start, p, a, Marked(st));
        p := p + 1;
      }
    }

    /** What `fast` does between two characters: note a cold start, look at the boundary. */
    method Settle(g: Setting, strip: Strip, sets: Sets, text: Text, ghost start: nat, p: nat, lo: nat, hi: nat,
      ghost la: Lang,
                  cold: nat, lastc: int, c: int, ghost f: set<nat>) returns (cold': nat, hit: bool)
      requires Segment(strip, sets, lo, hi, la) && Valid(hi) && NoMarks(strip, lo, hi)
      requires Marked(first) == f && FastAt(strip, sets, lo, hi, text, start, cold, p, p, Marked(st), f)
      modifies st
      ensures Marked(st) == old(Marked(st)) && FastAt(strip, sets, lo, hi, text, start, cold', p + 1, p, Marked(st), f)
      ensures hit <==> hi in Marked(st)
      ensures hit <==> EndsAt(la, text, start, p)
    {
      cold' := cold;
      FastCold(strip, sets, lo, hi, text, start, cold, p, Marked(st), f);
      var same := Equal(st, first);
      if same {
        cold' := p;
      }
      FastEnds(strip, sets, lo, hi, la, text, start, cold', p + 1, p, Marked(st), f);
      Boundary(g, strip, sets, lo, hi, lastc, c);
      hit := st[hi];
      assert hit <==> hi in Marked(st);
    }

    method Fast(g: Setting, strip: Strip, sets: Sets, text: Text, start: nat, stop: nat, startst: nat, stopst: nat,
      ghost la: Lang)
      returns (r: int)
      requires Segment(strip, sets, startst, stopst, la) && Valid(stopst) && NoMarks(strip, startst, stopst)
      requires start <= stop <= |text|
      modifies this, st, first, tmp
      ensures FirstEnd(la, text, start, stop, r, coldp)
      ensures ColdAt(strip, sets, startst, stopst, text, start, EndOf(stop, r), coldp)
    {
      var p: nat := start;
      var c := if start == 0 then OUT else text[start - 1];
      First(strip, sets, startst, stopst);
      Assign(first, st);
      ghost var f := Marked(first);
      var cold: nat := start;
      FastBegins(strip, sets, startst, stopst, text, start, f);
      while true
        invariant p <= stop && Marked(first) == f
        invariant FastAt(strip, sets, startst, stopst, text, start, cold, p, p, Marked(st), f)
        invariant NoneEnds(la, text, start, p)
        decreases stop - p
      {
        var lastc := c;
        c := if p == |text| then OUT else text[p];
        var hit;
        cold, hit := Settle(g, strip, sets, text, start, p, startst, stopst, la, cold, lastc, c, f);
        if hit || p == stop {
          FastDone(strip, sets, startst, stopst, la, text, start, stop, cold, p, Marked(st), f);
          r, coldp := if hit then p + 1 else -1, cold;
          return;
        }
        NoneNext(la, text, start, p);
        ghost var a := Marked(st);
        Next(strip, sets, startst, stopst, c, first);
        FastOn(strip, sets, startst, stopst, text, start, cold, p, a, f, Marked(st));
        p := p + 1;
      }
    }
  }
}
