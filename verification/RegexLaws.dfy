/** What expressions find: laws that do not speak of how the texts of an expression are defined. */
module RegexLaws {
  import opened RegexStrip
  import opened RegexLang
  import opened RegexCode
  import opened RegexCompile
  import opened RegexEngine
  import opened RegexLeftmost
  import opened RegexWhole

  // ----- words -----

  /** A word as an expression, character by character. */
  function Word(w: Text): Re
    requires w != []
  {
    var c := Symbol(Sop(OCHAR, w[0]));
    if |w| == 1 then c else Cat(c, Word(w[1..]))
  }

  /** It has one text, the word. */
  lemma {:induction false} WordIsItself(sets: Sets, w: Text)
    requires w != []
    ensures Proper(Word(w)) && Whole(Word(w)) == 0 && HasCode(Word(w)) && Fault(Word(w)) == 0
    ensures Meaning(sets, Word(w)) == iset{w}
    decreases |w|
  {
    if |w| == 1 {
      assert w == [w[0]];
    } else {
      WordIsItself(sets, w[1..]);
      var c := Symbol(Sop(OCHAR, w[0]));
      assert Fault(c) == 0 && HasCode(c) && Word(w) == Cat(c, Word(w[1..]));
      JoinOfTwo([w[0]], w[1..]);
      assert [w[0]] + w[1..] == w;
    }
  }

  lemma JoinOfTwo(v: Text, w: Text)
    ensures Join(iset{v}, iset{w}) == iset{v + w}
  {
    InJoin(iset{v}, iset{w}, v, w);
    forall x | x in Join(iset{v}, iset{w}) ensures x == v + w {
      var i := InJoinAt(iset{v}, iset{w}, x);
      assert x == x[..i] + x[i..];
    }
  }

  ghost predicate Occurs(w: Text, text: Text, i: nat) {
    i + |w| <= |text| && text[i..i + |w|] == w
  }

  /** A word is found exactly in the texts it occurs in, and where it occurs. */
  method FindWord(g: Setting, w: Text, text: Text) returns (found: bool, b: nat)
    requires w != []
    ensures found <==> exists i: nat :: Occurs(w, text, i)
    ensures found ==> Occurs(w, text, b)
  {
    WordIsItself([], w);
    var err, e;
    ghost var strip, first, last;
    err, found, b, e, strip, first, last := Regexec(g, Word(w), [], text);
    OccursOrNot(w, text);
    if found { assert text[b..e] == w && e == b + |w|; }
  }

  lemma OccursOrNot(w: Text, text: Text)
    ensures NoMatch(iset{w}, text, 0, |text|) <==> !exists i: nat :: Occurs(w, text, i)
  {
    if i: nat :| Occurs(w, text, i) {
      assert text[i..i + |w|] in iset{w};
    }
    forall i, j | 0 <= i <= j <= |text| && text[i..j] in iset{w} ensures Occurs(w, text, i) {
      assert j == i + |w|;
    }
  }

  // ----- repetition -----

  /** `+` is the expression and then `*`; `*` is nothing or `+`; `?` is the expression or nothing. */
  lemma StarLaw(sets: Sets, a: Re)
    requires Proper(a)
    ensures Meaning(sets, Plus(a)) == Meaning(sets, Cat(a, Star(a)))
    ensures Meaning(sets, Star(a)) == Meaning(sets, Option(Plus(a)))
    ensures Meaning(sets, Option(a)) == Meaning(sets, a) + iset{[]}
  {
    SomeUnrolls(Meaning(sets, a));
  }

  lemma SomeUnrolls(la: Lang)
    ensures Some(la) == Join(la, iset{[]} + Some(la))
  {
    var lb := iset{[]} + Some(la);
    forall w | w in Some(la) ensures w in Join(la, lb) {
      var n: nat :| n >= 1 && w in Power(la, n);
      var i := InJoinAt(la, Power(la, n - 1), w);
      if n > 1 { assert RegexLang.Repeated(la, w[i..]); }
      assert Splits(la, lb, w, i);
    }
    forall w | w in Join(la, lb) ensures w in Some(la) {
      var i := InJoinAt(la, lb, w);
      var n := PowerOf(la, w[i..]);
      assert Splits(la, Power(la, n), w, i);
      assert w in Power(la, n + 1);
    }
  }

  lemma PowerOf(la: Lang, w: Text) returns (n: nat)
    requires w in iset{[]} + Some(la)
    ensures w in Power(la, n)
  {
    if w == [] {
      n := 0;
    } else {
      n :| n >= 1 && w in Power(la, n);
    }
  }

  lemma BoundedIs(sets: Sets, a: Re, from: nat, to: nat)
    requires Proper(a) && from <= to <= INFINITY && from <= DUPMAX
    ensures Meaning(sets, Bounded(a, from, to)) == Counted(Meaning(sets, a), from, to)
  {
  }

  /** Bounds: none, and one. */
  lemma NoneLaw(sets: Sets, a: Re)
    requires Proper(a)
    ensures Meaning(sets, Bounded(a, 0, 0)) == iset{[]}
  {
    BoundedIs(sets, a, 0, 0);
    CountedNone(Meaning(sets, a));
  }

  lemma OneLaw(sets: Sets, a: Re)
    requires Proper(a)
    ensures Meaning(sets, Bounded(a, 1, 1)) == Meaning(sets, a)
  {
    BoundedIs(sets, a, 1, 1);
    CountedOne(Meaning(sets, a));
  }

  /** Without an upper bound, from one on and from none on. */
  lemma OpenBoundLaw(sets: Sets, a: Re, one: nat)
    requires Proper(a) && one == 1
    ensures Meaning(sets, Bounded(a, one, INFINITY)) == Meaning(sets, Plus(a))
    ensures Meaning(sets, Bounded(a, one - 1, INFINITY)) == Meaning(sets, Star(a))
  {
    var la := Meaning(sets, a);
    BoundedIs(sets, a, one, INFINITY);
    BoundedIs(sets, a, one - 1, INFINITY);
    CountedSome(la);
    CountedFromZero(la, INFINITY);
  }

  /** From two on, one and then one less on both sides. */
  lemma BoundStepLaw(sets: Sets, a: Re, from: nat, to: nat)
    requires Proper(a) && 2 <= from <= to <= INFINITY && from <= DUPMAX
    ensures Meaning(sets, Bounded(a, from, to)) == Meaning(sets, Cat(a, Bounded(a, from - 1, Less(to))))
  {
    BoundedIs(sets, a, from, to);
    BoundedIs(sets, a, from - 1, Less(to));
    CountedMore(Meaning(sets, a), from, to);
  }

  /** Parentheses change nothing, and alternatives have the texts of each. */
  lemma ChoiceLaw(sets: Sets, alts: seq<Re>, no: nat, w: Text)
    requires Proper(Choice(alts))
    ensures Meaning(sets, Group(no, Choice(alts))) == Meaning(sets, Choice(alts))
    ensures w in Meaning(sets, Choice(alts)) <==> exists i :: 0 <= i < |alts| && w in Meaning(sets, alts[i])
  {
    var las := seq(|alts|, i requires 0 <= i < |alts| => Meaning(sets, alts[i]));
    assert Meaning(sets, Choice(alts)) == Union(las);
    InUnion(las, w);
    if i :| 0 <= i < |las| && w in las[i] { assert w in Meaning(sets, alts[i]); }
    if i :| 0 <= i < |alts| && w in Meaning(sets, alts[i]) { assert w in las[i]; }
  }

  lemma {:induction false} InUnion(las: seq<Lang>, w: Text)
    requires |las| > 0
    ensures w in Union(las) <==> exists i :: 0 <= i < |las| && w in las[i]
    decreases |las|
  {
    if |las| > 1 {
      InUnion(las[1..], w);
      if i :| 0 <= i < |las| && w in las[i] {
        if i > 0 { assert w in las[1..][i - 1]; }
      }
      if i :| 0 <= i < |las[1..]| && w in las[1..][i] { assert w in las[i + 1]; }
    }
  }
}
