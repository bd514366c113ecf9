/** Whole expressions: the code that regcomp.c of libphoenix/regex emits for an expression, and what
    engine.c then matches with it. */
module RegexWhole {
  import opened RegexStrip
  import opened RegexLang
  import opened RegexCode
  import opened RegexCompile
  import opened RegexEngine
  import opened BitWord
  import opened RegexChain
  import opened RegexCold
  import opened RegexLeftmost

  /** An expression: nothing; a character, any character or a set, as the operator for it; parentheses
      with their number; one expression behind another; repetition; and alternatives. */
  datatype Re =
    | Empty
    | Symbol(s: Sop)
    | Group(no: nat, a: Re)
    | Cat(a: Re, b: Re)
    | Star(a: Re)
    | Plus(a: Re)
    | Option(a: Re)
    | Bounded(a: Re, from: nat, to: nat)
    | Choice(alts: seq<Re>)

  /** Operators and bounds are those the parser lets through. */
  predicate Proper(re: Re) {
    match re
    case Empty => true
    case Symbol(s) => s.op in {OCHAR, OANY, OANYOF}
    case Group(_, a) => Proper(a)
    case Cat(a, b) => Proper(a) && Proper(b)
    case Star(a) => Proper(a)
    case Plus(a) => Proper(a)
    case Option(a) => Proper(a)
    case Bounded(a, from, to) => Proper(a) && from <= to <= INFINITY && from <= DUPMAX
    case Choice(alts) => alts != [] && forall i :: 0 <= i < |alts| ==> Proper(alts[i])
  }

  /** The texts of an expression. */
  ghost function Meaning(sets: Sets, re: Re): Lang
    requires Proper(re)
  {
    match re
    case Empty => iset{[]}
    case Symbol(s) => Single(sets, s)
    case Group(_, a) => Meaning(sets, a)
    case Cat(a, b) => Join(Meaning(sets, a), Meaning(sets, b))
    case Star(a) => iset{[]} + Some(Meaning(sets, a))
    case Plus(a) => Some(Meaning(sets, a))
    case Option(a) => Meaning(sets, a) + iset{[]}
    case Bounded(a, from, to) => Counted(Meaning(sets, a), from, to)
    case Choice(alts) => Union(seq(|alts|, i requires 0 <= i < |alts| => Meaning(sets, alts[i])))
  }

  /** The expression has code: all do but nothing and what is repeated zero times. */
  predicate HasCode(re: Re) {
    match re
    case Empty => false
    case Cat(a, b) => HasCode(a) || HasCode(b)
    case Bounded(a, from, to) => to > 0 && (HasCode(a) || from < to)
    case _ => true
  }

  /** What a repetition may not stand behind: nothing, or another repetition. */
  predicate Unrepeatable(re: Re) {
    re.Empty? || re.Star? || re.Plus? || re.Option? || re.Bounded?
  }

  /** The error that is found first, from left to right; 0 if there is none. */
  function Fault(re: Re): int
    decreases re, 0
  {
    match re
    case Empty => 0
    case Symbol(_) => 0
    case Group(_, a) => if a.Empty? then 0 else Whole(a)
    case Cat(a, b) => if Fault(a) != 0 then Fault(a) else Fault(b)
    case Star(a) => Repeated(a)
    case Plus(a) => Repeated(a)
    case Option(a) => Repeated(a)
    case Bounded(a, _, _) => Repeated(a)
    case Choice(alts) => Faults(alts)
  }

  function Repeated(a: Re): int
    decreases a, 1
  {
    if Fault(a) != 0 then Fault(a) else if Unrepeatable(a) then REG_BADRPT else 0
  }

  /** The same where a whole expression or a whole alternative stands: it must have code. */
  function Whole(re: Re): int
    decreases re, 1
  {
    if Fault(re) != 0 then Fault(re) else if HasCode(re) then 0 else REG_EMPTY
  }

  function Faults(alts: seq<Re>): int
    decreases alts, 0
  {
    if alts == [] then 0 else if Whole(alts[0]) != 0 then Whole(alts[0]) else Faults(alts[1..])
  }

  /** The first alternative with a fault decides. */
  lemma {:induction false} FaultsAt(alts: seq<Re>, k: nat)
    requires k < |alts| && Whole(alts[k]) != 0 && forall i :: 0 <= i < k ==> Whole(alts[i]) == 0
    ensures Faults(alts) == Whole(alts[k])
    decreases k
  {
    if k > 0 { FaultsAt(alts[1..], k - 1); }
  }

  lemma {:induction false} NoFaults(alts: seq<Re>)
    requires forall i :: 0 <= i < |alts| ==> Whole(alts[i]) == 0
    ensures Faults(alts) == 0
    decreases |alts|
  {
    if alts != [] { NoFaults(alts[1..]); }
  }

  /** The code of an expression was put behind what was there. */
  ghost predicate Emitted(s: Strip, strip: Strip, sets: Sets, re: Re)
    requires Proper(re)
  {
    && |s| <= |strip| && strip[..|s|] == s
    && Segment(strip, sets, |s|, |strip|, Meaning(sets, re))
    && (|strip| > |s| <==> HasCode(re))
    && (Clean(s) ==> Clean(strip))
  }

  method Compile(p: Parse, re: Re, ghost sets: Sets)
    requires p.error == 0 && Proper(re)
    modifies p
    ensures p.error == Fault(re)
    ensures p.error == 0 ==> Emitted(old(p.strip), p.strip, sets, re)
    decreases re, 0
  {
    ghost var s := p.strip;
    var pos := |p.strip|;
    match re
    case Empty =>
      EmptySegment(p.strip, sets, pos);
    case Symbol(op) =>
      p.Emit(op.op, op.opnd);
      SymbolSegment(p.strip, sets, pos);
    case Group(no, a) =>
      p.Emit(OLPAREN, no);
      if a.Empty? { Compile(p, a, sets); } else { CompileWhole(p, a, sets); }
      ghost var inner := p.strip;
      p.Emit(ORPAREN, no);
      if p.error == 0 { Grouped(s, inner, p.strip, sets, no, Meaning(sets, a)); }
    case Cat(a, b) =>
      Compile(p, a, sets);
      if p.error == 0 {
        ghost var first := p.strip;
        Compile(p, b, sets);
        if p.error == 0 { Followed(first, sets, pos, Meaning(sets, a), p.strip, Meaning(sets, b)); }
      }
    case Star(a) =>
      CompileRepeated(p, a, sets);
      if p.error == 0 { p.Star(pos, sets, Meaning(sets, a)); }
    case Plus(a) =>
      CompileRepeated(p, a, sets);
      if p.error == 0 { p.Plus(pos, sets, Meaning(sets, a)); }
    case Option(a) =>
      CompileRepeated(p, a, sets);
      if p.error == 0 { p.Option(pos, sets, Meaning(sets, a)); }
    case Bounded(a, from, to) =>
      CompileRepeated(p, a, sets);
      if p.error == 0 { p.Repeat(pos, from, to, sets, Meaning(sets, a)); }
    case Choice(alts) =>
      CompileChoice(p, alts, sets);
  }

  /** What a repetition stands behind. */
  method CompileRepeated(p: Parse, a: Re, ghost sets: Sets)
    requires p.error == 0 && Proper(a)
    modifies p
    ensures p.error == Repeated(a)
    ensures p.error == 0 ==> Emitted(old(p.strip), p.strip, sets, a)
    decreases a, 1
  {
    Compile(p, a, sets);
    if p.error == 0 && Unrepeatable(a) { p.error := REG_BADRPT; }
  }

  /** `p_ere` of an expression: it must have code. */
  method CompileWhole(p: Parse, re: Re, ghost sets: Sets)
    requires p.error == 0 && Proper(re)
    modifies p
    ensures p.error == Whole(re)
    ensures p.error == 0 ==> Emitted(old(p.strip), p.strip, sets, re)
    decreases re, 1
  {
    var conc := |p.strip|;
    Compile(p, re, sets);
    if p.error == 0 && |p.strip| == conc { p.error := REG_EMPTY; }
  }

  lemma Grouped(s: Strip, inner: Strip, strip: Strip, sets: Sets, no: nat, la: Lang)
    requires |s| + 1 <= |inner| && inner[..|s| + 1] == s + [Sop(OLPAREN, no)] && strip == inner + [Sop(ORPAREN, no)]
    requires Segment(inner, sets, |s| + 1, |inner|, la)
    ensures Segment(strip, sets, |s|, |strip|, la)
  {
    Kept(inner, sets, strip, |s| + 1, |inner|, la);
    assert strip[|s|] == inner[..|s| + 1][|s|];
    GroupSegment(strip, sets, |s|, |inner|, la);
  }

  method CompileChoice(p: Parse, alts: seq<Re>, ghost sets: Sets)
    requires p.error == 0 && Proper(Choice(alts))
    modifies p
    ensures p.error == Faults(alts)
    ensures p.error == 0 ==> Emitted(old(p.strip), p.strip, sets, Choice(alts))
    decreases alts, 0
  {
    ghost var las := seq(|alts|, i requires 0 <= i < |alts| => Meaning(sets, alts[i]));
    var branches: seq<Strip> := [];
    for i := 0 to |alts|
      invariant |branches| == i && p.error == 0 && p.strip == old(p.strip)
      invariant forall k :: 0 <= k < i ==> Segment(branches[k], sets, 0, |branches[k]|, las[k])
      invariant forall k :: 0 <= k < i ==> Clean(branches[k]) && Whole(alts[k]) == 0 && branches[k] != []
    {
      var q := new Parse();
      CompileWhole(q, alts[i], sets);
      if q.error != 0 {
        p.error := q.error;
        FaultsAt(alts, i);
        return;
      }
      branches := branches + [q.strip];
    }
    NoFaults(alts);
    p.Alternatives(branches, sets, las);
  }

  // ----- compiling and matching -----

  /** `regcomp`: the code of the expression between two end marks, the first state and the last. */
  method Regcomp(re: Re, ghost sets: Sets) returns (err: int, strip: Strip, first: nat, last: nat)
    requires Proper(re)
    ensures err == Whole(re)
    ensures err == 0 ==>
      last + 1 == |strip| && Segment(strip, sets, first, last, Meaning(sets, re)) && NoMarks(strip, first, last)
  {
    var p := new Parse();
    p.Emit(OEND, 0);
    first := |p.strip|;
    CompileWhole(p, re, sets);
    err, strip, last := p.error, p.strip, |p.strip|;
    if err == 0 {
      p.Emit(OEND, 0);
      Kept(strip, sets, p.strip, first, last, Meaning(sets, re));
      assert Clean(p.strip);
      strip := p.strip;
      assert forall i :: first <= i < last ==> IsClean(strip[i].op);
    }
  }

  /** `slow` in the version for the size of the strip. */
  method Slow(g: Setting, strip: Strip, sets: Sets, text: Text, start: nat, stop: nat, first: nat, last: nat,
    ghost la: Lang)
    returns (matchp: int)
    requires Segment(strip, sets, first, last, la) && last + 1 == |strip| && NoMarks(strip, first, last)
    requires start <= stop <= |text|
    ensures LastEnd(la, text, start, stop + 1, matchp)
  {
    if |strip| <= WORD_BITS {
      matchp := SlowSmall(g, strip, sets, text, start, stop, first, last, la);
    } else {
      var m := new Match(last);
      matchp := m.Slow(g, strip, sets, text, start, stop, first, last, la);
    }
  }

  /** `fast` in the version for the size of the strip. */
  method Fast(g: Setting, strip: Strip, sets: Sets, text: Text, start: nat, stop: nat, first: nat, last: nat,
    ghost la: Lang)
    returns (r: int, coldp: nat)
    requires Segment(strip, sets, first, last, la) && last + 1 == |strip| && NoMarks(strip, first, last)
    requires start <= stop <= |text|
    ensures FirstEnd(la, text, start, stop, r, coldp)
    ensures ColdAt(strip, sets, first, last, text, start, EndOf(stop, r), coldp)
  {
    if |strip| <= WORD_BITS {
      r, coldp := FastSmall(g, strip, sets, text, start, stop, first, last, la);
    } else {
      var m := new Match(last);
      r := m.Fast(g, strip, sets, text, start, stop, first, last, la);
      coldp := m.coldp;
    }
  }

  lemma SomeEnd(la: Lang, text: Text, start: nat, stop: nat, r: int, coldp: nat)
    requires start <= stop <= |text| && FirstEnd(la, text, start, stop, r, coldp)
    ensures if r == -1 then NoMatch(la, text, start, stop) else !NoMatch(la, text, coldp, stop)
  {
    if r == -1 {
      forall i, j | start <= i <= j <= stop ensures text[i..j] !in la {
        assert !EndsAt(la, text, start, j);
      }
    } else {
      var i :| coldp <= i <= r - 1 && text[i..r - 1] in la;
    }
  }

  /** `matcher` without back references: `fast` finds that there is a match, and `slow` looks for it
      from the cold place on. What it finds begins first of those from there on and is the longest;
      it is the leftmost of all, in every text, exactly for code that never loses a match. */
  method Matcher(g: Setting, strip: Strip, sets: Sets, text: Text, start: nat, stop: nat, first: nat, last: nat,
    ghost la: Lang)
    returns (found: bool, b: nat, e: nat)
    requires Segment(strip, sets, first, last, la) && last + 1 == |strip| && NoMarks(strip, first, last)
    requires start <= stop <= |text|
    ensures !found <==> NoMatch(la, text, start, stop)
    ensures found ==> Answer(strip, sets, first, last, la, text, start, stop, b, e)
    ensures found && NeverLost(strip, sets, first, last) ==> LeftmostLongest(la, text, start, stop, b, e)
  {
    var r, coldp := Fast(g, strip, sets, text, start, stop, first, last, la);
    ghost var cold, end := coldp, EndOf(stop, r);
    SomeEnd(la, text, start, stop, r, coldp);
    if r == -1 { return false, 0, 0; }
    found := true;
    while true
      invariant cold <= coldp <= stop && !NoMatch(la, text, coldp, stop)
      invariant forall i, j :: cold <= i < coldp && i <= j <= stop ==> text[i..j] !in la
      decreases stop - coldp
    {
      var matchp := Slow(g, strip, sets, text, coldp, stop, first, last, la);
      if matchp != -1 {
        b, e := coldp, matchp;
        assert AnswerFrom(strip, sets, first, last, la, text, start, stop, b, e, cold, end);
        if NeverLost(strip, sets, first, last) {
          NothingLost(strip, sets, first, last, la, text, start, stop, b, e);
        }
        return;
      }
      coldp := coldp + 1;
    }
  }

  /** An expression compiled and looked for: the error of the expression, no match exactly if there is
      none, and otherwise the answer of the matcher for its code, the longest match where it begins. */
  method Regexec(g: Setting, re: Re, sets: Sets, text: Text)
    returns (err: int, found: bool, b: nat, e: nat, ghost strip: Strip, ghost first: nat, ghost last: nat)
    requires Proper(re)
    ensures err == Whole(re)
    ensures err == 0 ==> Segment(strip, sets, first, last, Meaning(sets, re))
    ensures err == 0 ==> (found <==> !NoMatch(Meaning(sets, re), text, 0, |text|))
    ensures err == 0 && found ==> Answer(strip, sets, first, last, Meaning(sets, re), text, 0, |text|, b, e)
    ensures err == 0 && found ==> b <= e <= |text| && text[b..e] in Meaning(sets, re)
    ensures err == 0 && found ==> forall j :: e < j <= |text| ==> text[b..j] !in Meaning(sets, re)
    ensures err == 0 && found && NeverLost(strip, sets, first, last) ==>
      LeftmostLongest(Meaning(sets, re), text, 0, |text|, b, e)
  {
    var code, startst, stopst;
    err, code, startst, stopst := Regcomp(re, sets);
    strip, first, last := code, startst, stopst;
    found, b, e := false, 0, 0;
    if err == 0 {
      found, b, e := Matcher(g, code, sets, text, 0, |text|, startst, stopst, Meaning(sets, re));
    }
  }

  /** A symbol looked for in a text of one character: a character finds itself, `.` finds all, and a
      set finds its characters. */
  method FindSymbol(g: Setting, s: Sop, sets: Sets, c: nat) returns (found: bool)
    requires s.op in {OCHAR, OANY, OANYOF}
    ensures s.op == OCHAR ==> (found <==> c == s.opnd)
    ensures s.op == OANY ==> found
    ensures s.op == OANYOF ==> (found <==> s.opnd < |sets| && c in sets[s.opnd])
  {
    var err, b, e;
    ghost var strip, first, last;
    err, found, b, e, strip, first, last := Regexec(g, Symbol(s), sets, [c]);
    OneSymbol(sets, s, c);
  }

  /** A symbol has texts of one character only. */
  lemma OneSymbol(sets: Sets, s: Sop, c: nat)
    requires s.op in {OCHAR, OANY, OANYOF}
    ensures NoMatch(Single(sets, s), [c], 0, 1) <==> [c] !in Single(sets, s)
  {
    var t := [c];
    assert t[0..1] == t;
    forall i, j | 0 <= i <= j <= 1 && !(i == 0 && j == 1) ensures t[i..j] !in Single(sets, s) {
      SingleAccepts(sets, s, t[i..j]);
    }
  }

  /** `(a*|b)c` is found in "bc" at its second character, though the whole of it is a match. */
  method NotLeftmost(g: Setting) returns (found: bool, b: nat, e: nat)
    ensures found && b == 1 && TEXT[0..2] in LANG
  {
    var strip, text := STRIP, TEXT;
    ColdIsLate();
    Given(strip, text);
    found, b, e := Matcher(g, strip, [], text, 0, 2, 0, 13, LANG);
    Concluded(strip, text, found, b, e);
  }

  lemma Given(strip: Strip, text: Text)
    requires strip == STRIP && text == TEXT
    ensures |text| == 2 && |strip| == 14 && NoMarks(strip, 0, 13)
    ensures text[0..2] in LANG ==> !NoMatch(LANG, text, 0, 2)
  {
  }

  lemma Concluded(strip: Strip, text: Text, found: bool, b: nat, e: nat)
    requires strip == STRIP && text == TEXT && found && Answer(strip, [], 0, 13, LANG, text, 0, 2, b, e)
    ensures b == 1
  {
    ColdIsLate();
    var cold: nat, end: nat :| AnswerFrom(STRIP, [], 0, 13, LANG, TEXT, 0, 2, b, e, cold, end);
    assert EndsAt(LANG, TEXT, 0, 2);
    NoneSooner();
    ColdUnique(STRIP, [], 0, 13, TEXT, 0, 2, cold, 1);
  }

  /** A symbol or a group may be repeated, and what is repeated may not be repeated again; `a{0}` is no
      expression, alone, in parentheses or as an alternative, and neither is nothing, but `()` is. */
  lemma FaultLaw(a: Re, no: nat, m: nat, n: nat, s: Sop)
    ensures Fault(a) == 0 && (a.Symbol? || a.Group?) ==>
      Fault(Star(a)) == Fault(Plus(a)) == Fault(Option(a)) == Fault(Bounded(a, m, n)) == 0
    ensures Fault(a) == 0 && (a.Star? || a.Plus? || a.Option? || a.Bounded? || a.Empty?) ==>
      Fault(Star(a)) == Fault(Plus(a)) == Fault(Option(a)) == Fault(Bounded(a, m, n)) == REG_BADRPT
    ensures Whole(Bounded(Symbol(s), 0, 0)) == Fault(Group(no, Bounded(Symbol(s), 0, 0))) == REG_EMPTY
    ensures Fault(a) == 0 && HasCode(a) ==> Fault(Choice([a, Bounded(Symbol(s), 0, 0)])) == REG_EMPTY
    ensures Whole(Empty) == REG_EMPTY && Fault(Group(no, Empty)) == 0
  {
    var none := Bounded(Symbol(s), 0, 0);
    assert Fault(Symbol(s)) == 0 && Repeated(Symbol(s)) == 0 && Fault(none) == 0 && !HasCode(none);
    assert Whole(none) == REG_EMPTY;
    if Fault(a) == 0 && HasCode(a) {
      var alts := [a, none];
      assert Whole(alts[0]) == 0;
      FaultsAt(alts, 1);
    }
  }
}
