/** The strip of libphoenix/regex/regex2.h: operators with relative offsets, the moves they
    allow between states, and what it means for a set of states to be closed under them. */
module RegexStrip {
  datatype Op =
    | OEND | OCHAR | OBOL | OEOL | OANY | OANYOF | OBACK_ | O_BACK | OPLUS_ | O_PLUS
    | OQUEST_ | O_QUEST | OLPAREN | ORPAREN | OCH_ | OOR1 | OOR2 | O_CH | OBOW | OEOW

  /** One strip operator with its operand. */
  datatype Sop = Sop(op: Op, opnd: nat)

  type Strip = seq<Sop>

  /** Character sets, by the number an OANYOF operand refers to. */
  type Sets = seq<set<nat>>

  /** What `step` is given: a character, or one of the codes above CHAR_MAX. */
  datatype In = Ch(c: nat) | Nothing | Bol | Eol | BolEol | Bow | Eow

  /** Whether an operator lets the input through to the next state. */
  predicate Accepts(sets: Sets, s: Sop, ch: In) {
    match s.op
    case OCHAR => ch == Ch(s.opnd)
    case OBOL => ch == Bol || ch == BolEol
    case OEOL => ch == Eol || ch == BolEol
    case OBOW => ch == Bow
    case OEOW => ch == Eow
    case OANY => ch.Ch?
    case OANYOF => ch.Ch? && s.opnd < |sets| && ch.c in sets[s.opnd]
    case _ => false
  }

  /** Following OOR2 operands from `q` to the O_CH that ends the choice. */
  function Look(strip: Strip, q: nat): nat
    decreases if q < |strip| then |strip| - q else 0
  {
    if q >= |strip| || strip[q].op == O_CH || strip[q].opnd == 0 then q
    else Look(strip, q + strip[q].opnd)
  }

  lemma {:induction false} LookAhead(strip: Strip, q: nat)
    ensures q <= Look(strip, q)
    decreases if q < |strip| then |strip| - q else 0
  {
    if q >= |strip| || strip[q].op == O_CH || strip[q].opnd == 0 {
    } else {
      LookAhead(strip, q + strip[q].opnd);
    }
  }

  /** The states reached from state `p` without input. */
  function Eps(strip: Strip, p: nat): set<nat>
    requires p < |strip|
  {
    var s := strip[p];
    match s.op
    case OBACK_ | O_BACK | OPLUS_ | O_QUEST | OLPAREN | ORPAREN | O_CH => {p + 1}
    case O_PLUS => if s.opnd <= p then {p + 1, p - s.opnd} else {p + 1}
    case OQUEST_ | OCH_ => {p + 1, p + s.opnd}
    case OOR1 => {Look(strip, p + 1)}
    case OOR2 =>
      if p + s.opnd < |strip| && strip[p + s.opnd].op != O_CH then {p + 1, p + s.opnd} else {p + 1}
    case _ => {}
  }

  /** Moves from the states in [start, stop) stay in [start, stop], loop ends point back to
      at least `start`, and every OOR1 is followed by the O_CH of its choice. */
  ghost predicate WellFormed(strip: Strip, start: nat, stop: nat) {
    && start <= stop <= |strip|
    && forall p :: start <= p < stop ==> OpOk(strip, start, stop, p)
  }

  ghost predicate OpOk(strip: Strip, start: nat, stop: nat, p: nat)
    requires p < |strip| && stop <= |strip|
  {
    var s := strip[p];
    && (s.op == O_PLUS ==> s.opnd <= p - start)
    && (s.op == OQUEST_ || s.op == OCH_ ==> 0 < s.opnd && p + s.opnd <= stop)
    && (s.op == OOR1 ==> ChoiceOk(strip, stop, p + 1))
    && (s.op == OOR2 ==> 0 < s.opnd && p + s.opnd < stop)
  }

  /** The chain of OOR2 operands from `q` ends at an O_CH before `stop`. */
  ghost predicate ChoiceOk(strip: Strip, stop: nat, q: nat)
    requires stop <= |strip|
    decreases if q < stop then stop - q else 0
  {
    && q < stop
    && (strip[q].op == O_CH || (strip[q].op == OOR2 && strip[q].opnd > 0 && ChoiceOk(strip, stop, q + strip[q].opnd)))
  }

  lemma {:induction false} LookInside(strip: Strip, stop: nat, q: nat)
    requires stop <= |strip| && ChoiceOk(strip, stop, q)
    ensures Look(strip, q) < stop && strip[Look(strip, q)].op == O_CH
    decreases if q < stop then stop - q else 0
  {
    if strip[q].op != O_CH { LookInside(strip, stop, q + strip[q].opnd); }
  }

  lemma EpsInside(strip: Strip, start: nat, stop: nat, p: nat)
    requires WellFormed(strip, start, stop) && start <= p < stop
    ensures forall q :: q in Eps(strip, p) ==> start <= q <= stop
  {
    assert OpOk(strip, start, stop, p);
    if strip[p].op == OOR1 {
      LookInside(strip, stop, p + 1);
      LookAhead(strip, p + 1);
    }
  }

  // ----- sets of states -----

  /** With a state of the segment in `a`, so are all its moves without input. */
  ghost predicate Closed(strip: Strip, start: nat, stop: nat, a: set<nat>)
    requires stop <= |strip|
  {
    forall p :: start <= p < stop && p in a ==> Eps(strip, p) <= a
  }

  /** `a` contains the states that states of `b` in the segment move to on `ch`. */
  ghost predicate Moves(strip: Strip, sets: Sets, start: nat, stop: nat, b: set<nat>, ch: In, a: set<nat>)
    requires stop <= |strip|
  {
    forall p :: start <= p < stop && p in b && Accepts(sets, strip[p], ch) ==> p + 1 in a
  }

  /** `r` is what `step` must return: the least closed set with the states of `aft` and the
      moves of `bef` on `ch`. */
  ghost predicate IsStep(strip: Strip, sets: Sets, start: nat, stop: nat, bef: set<nat>, ch: In, aft: set<nat>,
    r: set<nat>)
    requires stop <= |strip|
  {
    && aft <= r && Moves(strip, sets, start, stop, bef, ch, r) && Closed(strip, start, stop, r)
    && forall s :: aft <= s && Moves(strip, sets, start, stop, bef, ch, s) && Closed(strip, start, stop, s)
         ==> r <= s
  }

  lemma StepUnique(strip: Strip, sets: Sets, start: nat, stop: nat, bef: set<nat>, ch: In, aft: set<nat>, r: set<nat>,
    r': set<nat>)
    requires stop <= |strip|
    requires IsStep(strip, sets, start, stop, bef, ch, aft, r) && IsStep(strip, sets, start, stop, bef, ch, aft, r')
    ensures r == r'
  {
  }

  /** A step on a code that no operator of the segment accepts leaves a closed set as it is;
      so it is for every code but a character when there are no anchors or word marks. */
  lemma IdleStep(strip: Strip, sets: Sets, start: nat, stop: nat, st: set<nat>, ch: In)
    requires stop <= |strip| && Closed(strip, start, stop, st)
    requires forall p :: start <= p < stop ==> !Accepts(sets, strip[p], ch)
    ensures IsStep(strip, sets, start, stop, st, ch, st, st)
  {
  }
}
