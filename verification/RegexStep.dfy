/** `step` of libphoenix/regex/engine.c, in both of its instantiations: one forward scan of
    the strip that restarts at a loop body whenever a loop end marks it anew. */
module RegexStep {
  import opened RegexStrip
  import opened BitWord
  import opened Powers

  // ----- why one scan with restarts reaches the closure -----

  /** What visiting state `p` adds. */
  ghost function Fire(strip: Strip, sets: Sets, p: nat, bef: set<nat>, ch: In, a: set<nat>): set<nat>
    requires p < |strip|
  {
    a + (if p in bef && Accepts(sets, strip[p], ch) then {p + 1} else {})
      + (if p in a then Eps(strip, p) else {})
  }

  /** Up to `pc` everything is done; nothing beyond the closure has been added. */
  ghost predicate Scan(strip: Strip, sets: Sets, start: nat, stop: nat, bef: set<nat>, ch: In, aft: set<nat>,
    a: set<nat>, pc: nat)
    requires stop <= |strip|
  {
    && start <= pc <= stop && aft <= a
    && Closed(strip, start, pc, a) && Moves(strip, sets, start, pc, bef, ch, a)
    && forall s :: aft <= s && Moves(strip, sets, start, stop, bef, ch, s) && Closed(strip, start, stop, s)
         ==> a <= s
  }

  /** The state a loop end leads back to. */
  function BackTo(strip: Strip, p: nat): nat
    requires p < |strip|
  {
    if strip[p].op == O_PLUS && strip[p].opnd <= p then p - strip[p].opnd else p
  }

  /** A visit adds states ahead of it, and at most the loop body behind it. */
  lemma FireAhead(strip: Strip, sets: Sets, start: nat, stop: nat, p: nat, bef: set<nat>, ch: In, a: set<nat>)
    requires WellFormed(strip, start, stop) && start <= p < stop
    ensures start <= BackTo(strip, p) <= p
    ensures forall q :: q in Fire(strip, sets, p, bef, ch, a) && q !in a ==> q > p || q == BackTo(strip, p)
  {
    assert OpOk(strip, start, stop, p);
    LookAhead(strip, p + 1);
  }

  /** A visit adds nothing beyond any closed set that has the moves. */
  lemma FireLeast(strip: Strip, sets: Sets, start: nat, stop: nat, p: nat, bef: set<nat>, ch: In, a: set<nat>,
    s: set<nat>)
    requires stop <= |strip| && start <= p < stop && a <= s
    requires Moves(strip, sets, start, stop, bef, ch, s) && Closed(strip, start, stop, s)
    ensures Fire(strip, sets, p, bef, ch, a) <= s
  {
  }

  lemma ClosedFire(strip: Strip, sets: Sets, start: nat, stop: nat, bef: set<nat>, ch: In, a: set<nat>, p: nat,
    upto: nat)
    requires WellFormed(strip, start, stop) && start <= p < stop && upto <= p + 1
    requires Closed(strip, start, p, a) && Moves(strip, sets, start, p, bef, ch, a)
    requires upto <= BackTo(strip, p) || BackTo(strip, p) in a || BackTo(strip, p) !in Fire(strip, sets, p, bef, ch, a)
    ensures Closed(strip, start, upto, Fire(strip, sets, p, bef, ch, a))
    ensures Moves(strip, sets, start, upto, bef, ch, Fire(strip, sets, p, bef, ch, a))
  {
    FireAhead(strip, sets, start, stop, p, bef, ch, a);
  }

  /** Visiting `pc` and going on, at the loop body if that was marked just now. */
  lemma ScanNext(strip: Strip, sets: Sets, start: nat, stop: nat, bef: set<nat>, ch: In, aft: set<nat>, a: set<nat>,
    pc: nat)
    requires WellFormed(strip, start, stop) && pc < stop
    requires Scan(strip, sets, start, stop, bef, ch, aft, a, pc)
    ensures var a' := Fire(strip, sets, pc, bef, ch, a);
      var back := BackTo(strip, pc);
      Scan(strip, sets, start, stop, bef, ch, aft, a', if back in a' && back !in a then back else pc + 1)
  {
    var a' := Fire(strip, sets, pc, bef, ch, a);
    var back := BackTo(strip, pc);
    FireAhead(strip, sets, start, stop, pc, bef, ch, a);
    ClosedFire(strip, sets, start, stop, bef, ch, a, pc, if back in a' && back !in a then back else pc + 1);
    forall s | aft <= s && Moves(strip, sets, start, stop, bef, ch, s) && Closed(strip, start, stop, s)
      ensures a' <= s
    {
      FireLeast(strip, sets, start, stop, pc, bef, ch, a, s);
    }
  }

  lemma ScanDone(strip: Strip, sets: Sets, start: nat, stop: nat, bef: set<nat>, ch: In, aft: set<nat>, a: set<nat>)
    requires stop <= |strip| && Scan(strip, sets, start, stop, bef, ch, aft, a, stop)
    ensures IsStep(strip, sets, start, stop, bef, ch, aft, a)
  {
  }

  /** The states of the segment not yet in `a`. */
  ghost function Missing(start: nat, stop: nat, a: set<nat>): set<nat> {
    set x | start <= x <= stop && x !in a
  }

  lemma MissingShrinks(start: nat, stop: nat, a: set<nat>, a': set<nat>, x: nat)
    requires a <= a' && start <= x <= stop && x !in a && x in a'
    ensures |Missing(start, stop, a')| < |Missing(start, stop, a)|
  {
    SubsetSize(Missing(start, stop, a') + {x}, Missing(start, stop, a));
  }

  lemma MissingKeeps(start: nat, stop: nat, a: set<nat>, a': set<nat>)
    requires a <= a'
    ensures |Missing(start, stop, a')| <= |Missing(start, stop, a)|
  {
    SubsetSize(Missing(start, stop, a'), Missing(start, stop, a));
  }

  lemma {:induction false} SubsetSize(a: set<nat>, b: set<nat>)
    requires a <= b
    ensures |a| <= |b|
  {
    if a != {} {
      var x :| x in a;
      SubsetSize(a - {x}, b - {x});
    }
  }

  /** The loop of OOR1: from the operator after it to the end of the choice. */
  method FindEnd(strip: Strip, stop: nat, pc: nat) returns (look: nat)
    requires stop <= |strip| && ChoiceOk(strip, stop, pc + 1)
    ensures pc + look == Look(strip, pc + 1) && pc + look < stop
  {
    look := 1;
    while strip[pc + look].op != O_CH
      invariant ChoiceOk(strip, stop, pc + look)
      invariant Look(strip, pc + look) == Look(strip, pc + 1)
      decreases stop - look
    {
      look := look + strip[pc + look].opnd;
    }
  }

  // ----- the large version: a byte per state -----

  ghost function Marked(v: array<bool>): set<nat>
    reads v
  {
    set i | 0 <= i < v.Length && v[i]
  }

  /** FWD and BACK: if `here` is marked in `src`, mark `there` in `dst`. */
  method Mark(dst: array<bool>, src: array<bool>, here: nat, there: nat)
    requires here < src.Length && there < dst.Length
    modifies dst
    ensures Marked(dst) == old(Marked(dst)) + (if old(src[here]) then {there} else {})
  {
    dst[there] := dst[there] || src[here];
  }

  /** The cases of the switch in `step` that move on the input. */
  method VisitSymbol(strip: Strip, sets: Sets, bef: array<bool>, ch: In, aft: array<bool>, pc: nat)
    requires pc < |strip| && pc + 1 < aft.Length == bef.Length && Eps(strip, pc) == {}
    modifies aft
    ensures Marked(aft) == Fire(strip, sets, pc, old(Marked(bef)), ch, old(Marked(aft)))
  {
    assert bef[pc] <==> pc in Marked(bef);
    var s := strip[pc];
    match s.op
    case OCHAR =>
      if ch == Ch(s.opnd) { Mark(aft, bef, pc, pc + 1); }
    case OBOL =>
      if ch == Bol || ch == BolEol { Mark(aft, bef, pc, pc + 1); }
    case OEOL =>
      if ch == Eol || ch == BolEol { Mark(aft, bef, pc, pc + 1); }
    case OBOW =>
      if ch == Bow { Mark(aft, bef, pc, pc + 1); }
    case OEOW =>
      if ch == Eow { Mark(aft, bef, pc, pc + 1); }
    case OANY =>
      if ch.Ch? { Mark(aft, bef, pc, pc + 1); }
    case OANYOF =>
      if ch.Ch? && s.opnd < |sets| && ch.c in sets[s.opnd] { Mark(aft, bef, pc, pc + 1); }
    case _ =>
  }

  /** The cases that move without input, to one or two states ahead. */
  method VisitForward(strip: Strip, stop: nat, aft: array<bool>, pc: nat)
    requires stop <= |strip| && pc < stop < aft.Length && OpOk(strip, 0, stop, pc)
    requires strip[pc].op != O_PLUS
    modifies aft
    ensures Marked(aft) == old(Marked(aft)) + (if pc in old(Marked(aft)) then Eps(strip, pc) else {})
  {
    ghost var a := Marked(aft);
    assert aft[pc] <==> pc in a;
    var s := strip[pc];
    match s.op
    case OBACK_ | O_BACK | OPLUS_ | O_QUEST | OLPAREN | ORPAREN | O_CH =>
      Mark(aft, aft, pc, pc + 1);
    case OQUEST_ | OCH_ =>
      Mark(aft, aft, pc, pc + 1);
      assert aft[pc] <==> pc in Marked(aft);
      Mark(aft, aft, pc, pc + s.opnd);
    case OOR1 =>
      if aft[pc] {
        var look := FindEnd(strip, stop, pc);
        Mark(aft, aft, pc, pc + look);
      }
    case OOR2 =>
      Mark(aft, aft, pc, pc + 1);
      assert aft[pc] <==> pc in Marked(aft);
      if strip[pc + s.opnd].op != O_CH {
        Mark(aft, aft, pc, pc + s.opnd);
      }
    case _ =>
  }

  /** A loop end: forward and back, and whether the loop body must be visited again. */
  method VisitLoopEnd(strip: Strip, aft: array<bool>, pc: nat) returns (again: bool)
    requires pc < |strip| && pc + 1 < aft.Length && strip[pc].op == O_PLUS && strip[pc].opnd <= pc
    modifies aft
    ensures Marked(aft) == old(Marked(aft)) + (if pc in old(Marked(aft)) then Eps(strip, pc) else {})
    ensures again <==> BackTo(strip, pc) in Marked(aft) && BackTo(strip, pc) !in old(Marked(aft))
  {
    var back := pc - strip[pc].opnd;
    assert aft[pc] <==> pc in Marked(aft);
    Mark(aft, aft, pc, pc + 1);
    assert aft[pc] <==> pc in Marked(aft);
    var i := aft[back];
    assert i <==> back in Marked(aft);
    Mark(aft, aft, pc, back);
    assert aft[back] <==> back in Marked(aft);
    again := !i && aft[back];
  }

  /** The switch of `step` at one state. */
  method VisitLarge(strip: Strip, sets: Sets, start: nat, stop: nat, bef: array<bool>, ch: In, aft: array<bool>,
    pc: nat)
    returns (again: bool)
    requires WellFormed(strip, start, stop) && start <= pc < stop < aft.Length == bef.Length
    modifies aft
    ensures Marked(aft) == Fire(strip, sets, pc, old(Marked(bef)), ch, old(Marked(aft)))
    ensures again <==> BackTo(strip, pc) in Marked(aft) && BackTo(strip, pc) !in old(Marked(aft))
  {
    again := false;
    assert OpOk(strip, start, stop, pc);
    FireAhead(strip, sets, start, stop, pc, Marked(bef), ch, Marked(aft));
    match strip[pc].op
    case OEND | OCHAR | OBOL | OEOL | OBOW | OEOW | OANY | OANYOF =>
      VisitSymbol(strip, sets, bef, ch, aft, pc);
    case O_PLUS =>
      again := VisitLoopEnd(strip, aft, pc);
    case _ =>
      VisitForward(strip, stop, aft, pc);
  }

  method StepLarge(strip: Strip, sets: Sets, start: nat, stop: nat, bef: array<bool>, ch: In, aft: array<bool>)
    requires WellFormed(strip, start, stop) && stop < aft.Length == bef.Length
    requires bef != aft || forall p :: start <= p < stop ==> !Accepts(sets, strip[p], ch)
    modifies aft
    ensures IsStep(strip, sets, start, stop, old(Marked(bef)), ch, old(Marked(aft)), Marked(aft))
  {
    ghost var b, a0 := Marked(bef), Marked(aft);
    var pc: nat := start;
    while pc != stop
      invariant bef != aft ==> Marked(bef) == b
      invariant Scan(strip, sets, start, stop, b, ch, a0, Marked(aft), pc)
      decreases |Missing(start, stop, Marked(aft))|, stop - pc
    {
      ghost var a := Marked(aft);
      ScanNext(strip, sets, start, stop, b, ch, a0, a, pc);
      var again := VisitLarge(strip, sets, start, stop, bef, ch, aft, pc);
      assert Marked(aft) == Fire(strip, sets, pc, b, ch, a);
      if again {
        MissingShrinks(start, stop, a, Marked(aft), BackTo(strip, pc));
        pc := pc - strip[pc].opnd;
      } else {
        MissingKeeps(start, stop, a, Marked(aft));
        pc := pc + 1;
      }
    }
    ScanDone(strip, sets, start, stop, b, ch, a0, Marked(aft));
  }

  // ----- the small version: a bit per state -----

  ghost function Bits(v: nat): set<nat> { set i | 0 <= i < WORD_BITS && Bit(v, i) }

  /** FWD: if the state of `here` is in `src`, the state `n` further on is in the result. */
  function Fwd(dst: Word, src: Word, here: Word, n: nat): (r: Word) {
    WordOr(dst, Shl(And(src, here), n));
    Or(dst, Shl(And(src, here), n))
  }

  function Back(dst: Word, src: Word, here: Word, n: nat): (r: Word) {
    WordShr(And(src, here), n);
    WordAnd(src, here);
    WordOr(dst, Shr(And(src, here), n));
    Or(dst, Shr(And(src, here), n))
  }

  predicate IsSetBack(v: Word, here: Word, n: nat) { And(v, Shr(here, n)) != 0 }

  lemma WordOr(a: Word, b: Word)
    ensures Or(a, b) < 0x1_0000_0000
  {
    PowWord();
    OrFits(a, b, WORD_BITS);
  }

  lemma {:induction false} WordAnd(a: nat, b: nat)
    ensures And(a, b) <= a
  {
    if a > 0 { WordAnd(a / 2, b / 2); }
  }

  lemma {:induction false} WordShr(v: nat, n: nat)
    ensures Shr(v, n) <= v
  {
    if n > 0 { WordShr(v / 2, n - 1); }
  }

  lemma ShlPow(p: nat, n: nat)
    requires p + n < WORD_BITS
    ensures Shl(Pow(2, p), n) == Pow(2, p + n) && Shl(0, n) == 0
  {
    PowAdd(2, p, n);
    PowFits(p + n);
  }

  lemma FwdBits(dst: Word, src: Word, here: Word, p: nat, n: nat)
    requires p + n < WORD_BITS && here == Pow(2, p)
    ensures Bits(Fwd(dst, src, here, n)) == Bits(dst) + (if p in Bits(src) then {p + n} else {})
  {
    AndPow(src, p);
    ShlPow(p, n);
    PowPositive(2, p + n);
    OrBits(dst, Shl(And(src, here), n), p + n);
  }

  lemma BackBits(dst: Word, src: Word, here: Word, p: nat, n: nat)
    requires n <= p < WORD_BITS && here == Pow(2, p)
    ensures Bits(Back(dst, src, here, n)) == Bits(dst) + (if p in Bits(src) then {p - n} else {})
  {
    AndPow(src, p);
    ShrPow(p, n);
    ShrZero(n);
    PowPositive(2, p - n);
    OrBits(dst, Shr(And(src, here), n), p - n);
  }

  lemma {:induction false} ShrZero(n: nat)
    ensures Shr(0, n) == 0
  {
    if n > 0 { ShrZero(n - 1); }
  }

  /** Or-ing in a single bit, or nothing. */
  lemma OrBits(v: Word, w: nat, q: nat)
    requires q < WORD_BITS && (w == 0 || w == Pow(2, q))
    ensures Bits(Or(v, w)) == Bits(v) + (if w == 0 then {} else {q})
  {
    PowPositive(2, q);
    forall i | 0 <= i < WORD_BITS
      ensures i in Bits(Or(v, w)) <==> i in Bits(v) + (if w == 0 then {} else {q})
    {
      BitOr(v, w, i);
      BitZero(i);
      BitPow(q, i);
    }
  }

  lemma SetBackBits(v: Word, here: Word, p: nat, n: nat)
    requires n <= p < WORD_BITS && here == Pow(2, p)
    ensures IsSetBack(v, here, n) <==> p - n in Bits(v)
  {
    ShrPow(p, n);
    AndPow(v, p - n);
    PowPositive(2, p - n);
  }

  /** Moving on by `n` states from the state of `here`. */
  method MoveSmall(v: Word, src: Word, here: Word, pc: nat, n: nat) returns (r: Word)
    requires pc + n < WORD_BITS && here == Pow(2, pc)
    ensures Bits(r) == Bits(v) + (if pc in Bits(src) then {pc + n} else {})
  {
    FwdBits(v, src, here, pc, n);
    r := Fwd(v, src, here, n);
  }

  /** Moving on to the next state and by `n` states. */
  method ForkSmall(v: Word, here: Word, pc: nat, n: nat) returns (r: Word)
    requires 0 < n && pc + n < WORD_BITS && here == Pow(2, pc)
    ensures Bits(r) == Bits(v) + (if pc in Bits(v) then {pc + 1, pc + n} else {})
  {
    r := MoveSmall(v, v, here, pc, 1);
    r := MoveSmall(r, r, here, pc, n);
  }

  /** The end of an alternative: on to the end of the choice. */
  method AltEndSmall(strip: Strip, stop: nat, v: Word, here: Word, pc: nat) returns (r: Word)
    requires stop <= |strip| && pc < stop < WORD_BITS && ChoiceOk(strip, stop, pc + 1) && here == Pow(2, pc)
    ensures Bits(r) == Bits(v) + (if pc in Bits(v) then {Look(strip, pc + 1)} else {})
  {
    r := v;
    AndPow(v, pc);
    PowPositive(2, pc);
    if And(v, here) != 0 {
      var look := FindEnd(strip, stop, pc);
      r := MoveSmall(v, v, here, pc, look);
    }
  }

  method SymbolSmall(strip: Strip, sets: Sets, bef: Word, ch: In, aft: Word, here: Word, pc: nat) returns (r: Word)
    requires pc < |strip| && pc + 1 < WORD_BITS && here == Pow(2, pc) && Eps(strip, pc) == {}
    ensures Bits(r) == Fire(strip, sets, pc, Bits(bef), ch, Bits(aft))
  {
    r := aft;
    var s := strip[pc];
    match s.op
    case OCHAR =>
      if ch == Ch(s.opnd) { r := MoveSmall(aft, bef, here, pc, 1); }
    case OBOL =>
      if ch == Bol || ch == BolEol { r := MoveSmall(aft, bef, here, pc, 1); }
    case OEOL =>
      if ch == Eol || ch == BolEol { r := MoveSmall(aft, bef, here, pc, 1); }
    case OBOW =>
      if ch == Bow { r := MoveSmall(aft, bef, here, pc, 1); }
    case OEOW =>
      if ch == Eow { r := MoveSmall(aft, bef, here, pc, 1); }
    case OANY =>
      if ch.Ch? { r := MoveSmall(aft, bef, here, pc, 1); }
    case OANYOF =>
      if ch.Ch? && s.opnd < |sets| && ch.c in sets[s.opnd] { r := MoveSmall(aft, bef, here, pc, 1); }
    case _ =>
  }

  /** The cases of the switch in `step` that move without input, to states ahead. */
  method ForwardSmall(strip: Strip, stop: nat, aft: Word, here: Word, pc: nat) returns (r: Word)
    requires stop <= |strip| && pc < stop < WORD_BITS && OpOk(strip, 0, stop, pc) && here == Pow(2, pc)
    requires strip[pc].op != O_PLUS
    ensures Bits(r) == Bits(aft) + (if pc in Bits(aft) then Eps(strip, pc) else {})
  {
    var s := strip[pc];
    r := aft;
    match s.op
    case OBACK_ | O_BACK | OPLUS_ | O_QUEST | OLPAREN | ORPAREN | O_CH =>
      r := MoveSmall(r, r, here, pc, 1);
    case OQUEST_ | OCH_ =>
      r := ForkSmall(r, here, pc, s.opnd);
    case OOR1 =>
      r := AltEndSmall(strip, stop, r, here, pc);
    case OOR2 =>
      if strip[pc + s.opnd].op != O_CH {
        r := ForkSmall(r, here, pc, s.opnd);
      } else {
        r := MoveSmall(r, r, here, pc, 1);
      }
    case _ =>
  }

  /** A loop end: forward and back, and whether the loop body must be visited again. */
  method LoopEndSmall(strip: Strip, aft: Word, here: Word, pc: nat) returns (r: Word, again: bool)
    requires pc < |strip| && pc + 1 < WORD_BITS && strip[pc].op == O_PLUS && strip[pc].opnd <= pc && here == Pow(2, pc)
    ensures Bits(r) == Bits(aft) + (if pc in Bits(aft) then Eps(strip, pc) else {})
    ensures again <==> BackTo(strip, pc) in Bits(r) && BackTo(strip, pc) !in Bits(aft)
  {
    var n := strip[pc].opnd;
    FwdBits(aft, aft, here, pc, 1);
    r := Fwd(aft, aft, here, 1);
    SetBackBits(r, here, pc, n);
    var i := IsSetBack(r, here, n);
    BackBits(r, r, here, pc, n);
    r := Back(r, r, here, n);
    SetBackBits(r, here, pc, n);
    again := !i && IsSetBack(r, here, n);
  }

  /** The switch of `step` at one state. */
  method VisitSmall(strip: Strip, sets: Sets, start: nat, stop: nat, bef: Word, ch: In, aft: Word, here: Word, pc: nat)
    returns (r: Word, again: bool)
    requires WellFormed(strip, start, stop) && start <= pc < stop < WORD_BITS && here == Pow(2, pc)
    ensures Bits(r) == Fire(strip, sets, pc, Bits(bef), ch, Bits(aft))
    ensures again <==> BackTo(strip, pc) in Bits(r) && BackTo(strip, pc) !in Bits(aft)
  {
    r, again := aft, false;
    assert OpOk(strip, start, stop, pc);
    FireAhead(strip, sets, start, stop, pc, Bits(bef), ch, Bits(aft));
    match strip[pc].op
    case OEND | OCHAR | OBOL | OEOL | OBOW | OEOW | OANY | OANYOF =>
      r := SymbolSmall(strip, sets, bef, ch, aft, here, pc);
    case O_PLUS =>
      r, again := LoopEndSmall(strip, aft, here, pc);
    case _ =>
      r := ForwardSmall(strip, stop, aft, here, pc);
  }

  method StepSmall(strip: Strip, sets: Sets, start: nat, stop: nat, bef: Word, ch: In, aft: Word) returns (r: Word)
    requires WellFormed(strip, start, stop) && stop < WORD_BITS
    ensures IsStep(strip, sets, start, stop, Bits(bef), ch, Bits(aft), Bits(r))
  {
    r := aft;
    var pc: nat := start;
    PowFits(pc);
    var here: Word := Pow(2, pc);
    while pc != stop
      invariant here == Pow(2, pc)
      invariant Scan(strip, sets, start, stop, Bits(bef), ch, Bits(aft), Bits(r), pc)
      decreases |Missing(start, stop, Bits(r))|, stop - pc
    {
      ghost var a := Bits(r);
      ScanNext(strip, sets, start, stop, Bits(bef), ch, Bits(aft), a, pc);
      var again;
      r, again := VisitSmall(strip, sets, start, stop, bef, ch, r, here, pc);
      if again {
        MissingShrinks(start, stop, a, Bits(r), BackTo(strip, pc));
        pc := pc - strip[pc].opnd;
        PowFits(pc);
        here := Pow(2, pc);
      } else {
        MissingKeeps(start, stop, a, Bits(r));
        ShlPow(pc, 1);
        here := Shl(here, 1);
        pc := pc + 1;
      }
    }
    ScanDone(strip, sets, start, stop, Bits(bef), ch, Bits(aft), Bits(r));
  }

  /** Where the strip fits a word, both versions leave the same states. */
  method StepBoth(strip: Strip, sets: Sets, start: nat, stop: nat, bef: array<bool>, ch: In, aft: array<bool>,
    b: Word, a: Word)
    returns (r: Word)
    requires WellFormed(strip, start, stop) && stop < aft.Length == bef.Length && stop < WORD_BITS
    requires bef != aft && Marked(bef) == Bits(b) && Marked(aft) == Bits(a)
    modifies aft
    ensures Marked(aft) == Bits(r)
  {
    r := StepSmall(strip, sets, start, stop, b, ch, a);
    StepLarge(strip, sets, start, stop, bef, ch, aft);
    StepUnique(strip, sets, start, stop, Bits(b), ch, Bits(a), Marked(aft), Bits(r));
  }
}
