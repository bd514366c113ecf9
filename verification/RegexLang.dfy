/** Languages of texts, in which the meaning of regular expressions is stated (section 9.4 of
    the Base Definitions of IEEE Std 1003.1). */
module RegexLang {
  import opened RegexStrip

  type Text = seq<nat>

  /** A set of texts. */
  type Lang = iset<Text>

  ghost predicate Splits(la: Lang, lb: Lang, w: Text, i: nat) {
    i <= |w| && w[..i] in la && w[i..] in lb
  }

  ghost predicate Joined(la: Lang, lb: Lang, w: Text) {
    exists i: nat :: Splits(la, lb, w, i)
  }

  /** A text of the one followed by a text of the other. */
  ghost function Join(la: Lang, lb: Lang): Lang {
    iset w: Text | Joined(la, lb, w)
  }

  /** `n` texts of the language one after the other. */
  ghost function Power(la: Lang, n: nat): Lang {
    if n == 0 then iset{[]} else Join(la, Power(la, n - 1))
  }

  ghost predicate Repeated(la: Lang, w: Text) {
    exists n: nat :: n >= 1 && w in Power(la, n)
  }

  /** One or more texts of the language one after the other. */
  ghost function Some(la: Lang): Lang {
    iset w: Text | Repeated(la, w)
  }

  /** The texts of a symbol: its character, any character, or a character of its set. */
  ghost function Single(sets: Sets, s: Sop): Lang {
    match s.op
    case OCHAR => iset{[s.opnd]}
    case OANY => iset w: Text | |w| == 1
    case OANYOF => iset w: Text | |w| == 1 && s.opnd < |sets| && w[0] in sets[s.opnd]
    case _ => iset{}
  }

  /** They are the characters on which the engine moves. */
  lemma SingleAccepts(sets: Sets, s: Sop, w: Text)
    ensures w in Single(sets, s) <==> |w| == 1 && Accepts(sets, s, Ch(w[0]))
  {
    if s.op == OCHAR && |w| == 1 { assert w == [w[0]]; }
  }

  lemma InJoin(la: Lang, lb: Lang, v: Text, w: Text)
    requires v in la && w in lb
    ensures v + w in Join(la, lb)
  {
    assert (v + w)[..|v|] == v && (v + w)[|v|..] == w;
    assert Splits(la, lb, v + w, |v|);
  }

  lemma {:induction false} SnocPower(la: Lang, n: nat, v: Text, w: Text)
    requires v in Power(la, n) && w in la
    ensures v + w in Power(la, n + 1)
    decreases n
  {
    if n == 0 {
      InJoin(la, Power(la, 0), w, []);
      assert w + [] == w && v + w == w;
    } else {
      var i: nat :| Splits(la, Power(la, n - 1), v, i);
      SnocPower(la, n - 1, v[i..], w);
      InJoin(la, Power(la, n), v[..i], v[i..] + w);
      assert v[..i] + (v[i..] + w) == v + w;
    }
  }

  lemma InJoinAt(la: Lang, lb: Lang, w: Text) returns (i: nat)
    requires w in Join(la, lb)
    ensures i <= |w| && w[..i] in la && w[i..] in lb
  {
    i :| Splits(la, lb, w, i);
  }

  lemma JoinNothing(la: Lang)
    ensures Join(la, iset{[]}) == la
  {
    forall w | w in la ensures w in Join(la, iset{[]}) {
      InJoin(la, iset{[]}, w, []);
      assert w + [] == w;
    }
    forall w | w in Join(la, iset{[]}) ensures w in la {
      var i := InJoinAt(la, iset{[]}, w);
      assert w[..i] == w;
    }
  }
}
