/** Shell patterns and the strings they stand for, as section B.6 of POSIX 1003.2-1992 describes
    them: a reading of the pattern text as a list of items, and what each item matches. */
module Glob {
  datatype Option<T> = None | Some(value: T)

  // ----- items and what they match -----

  datatype Element = Single(c: char) | Range(low: char, high: char)

  datatype Item = Literal(c: char) | AnyOne | AnyMany | OneOf(elements: seq<Element>, negate: bool)

  predicate Has(e: Element, c: char) {
    match e
    case Single(d) => c == d
    case Range(low, high) => low <= c <= high
  }

  predicate InSet(elements: seq<Element>, c: char) {
    exists i :: 0 <= i < |elements| && Has(elements[i], c)
  }

  predicate Stands(item: Item, s: string) {
    match item
    case Literal(c) => s == [c]
    case AnyOne => |s| == 1
    case AnyMany => true
    case OneOf(elements, negate) => |s| == 1 && InSet(elements, s[0]) != negate
  }

  /** The string is a concatenation of strings that the items stand for. */
  ghost predicate Matches(items: seq<Item>, s: string) {
    if items == [] then s == []
    else exists k :: 0 <= k <= |s| && Stands(items[0], s[..k]) && Matches(items[1..], s[k..])
  }

  // ----- reading a pattern -----

  /** One character of a bracket expression and what follows it; a backslash quotes. */
  function Quoted(p: string): (r: Option<(char, string)>)
    ensures r.Some? ==> |r.value.1| < |p|
  {
    if p == [] then None
    else if p[0] != '\\' then Some((p[0], p[1..]))
    else if |p| == 1 then None
    else Some((p[1], p[2..]))
  }

  /** One element: a character, or two with a hyphen between them that does not end the expression. */
  function ReadElement(p: string): (r: Option<(Element, string)>)
    ensures r.Some? ==> |r.value.1| < |p|
  {
    match Quoted(p)
    case None => None
    case Some((c, q)) =>
      if |q| < 2 || q[0] != '-' || q[1] == ']' then Some((Single(c), q))
      else match Quoted(q[1..])
        case None => None
        case Some((d, rest)) => Some((Range(c, d), rest))
  }

  /** The elements up to the closing bracket and what follows it, if there is one. */
  function ReadElements(p: string): (r: Option<(seq<Element>, string)>)
    ensures r.Some? ==> |r.value.1| < |p|
  {
    match ReadElement(p)
    case None => None
    case Some((e, rest)) =>
      if rest != [] && rest[0] == ']' then Some(([e], rest[1..]))
      else match ReadElements(rest)
        case None => None
        case Some((es, after)) => Some(([e] + es, after))
  }

  predicate Negates(p: string) { p != [] && p[0] in "!^" }

  /** The bracket expression whose text follows an opening bracket. */
  function ReadBracket(p: string): (r: Option<(Item, string)>)
    ensures r.Some? ==> |r.value.1| < |p|
  {
    match ReadElements(if Negates(p) then p[1..] else p)
    case None => None
    case Some((es, rest)) => Some((OneOf(es, Negates(p)), rest))
  }

  /** A pattern as a list of items; a bracket that is not closed stands for itself. */
  function Items(p: string): seq<Item>
    decreases |p|
  {
    if p == [] then []
    else match p[0]
      case '?' => [AnyOne] + Items(p[1..])
      case '*' => [AnyMany] + Items(p[1..])
      case '[' => (
        match ReadBracket(p[1..])
        case None => [Literal('[')] + Items(p[1..])
        case Some((item, rest)) => [item] + Items(rest))
      case '\\' => if |p| == 1 then [Literal('\\')] else [Literal(p[1])] + Items(p[2..])
      case c => [Literal(c)] + Items(p[1..])
  }

  /** The strings of a pattern. */
  ghost predicate InPattern(p: string, s: string) { Matches(Items(p), s) }

  // ----- facts about matching -----

  /** An item that stands for one character takes the first one. */
  lemma {:induction false} OneFirst(item: Item, items: seq<Item>, s: string)
    requires !item.AnyMany?
    ensures Matches([item] + items, s) <==> s != [] && Stands(item, s[..1]) && Matches(items, s[1..])
  {
    assert ([item] + items)[1..] == items;
    if s != [] && Stands(item, s[..1]) && Matches(items, s[1..]) {
      assert Matches([item] + items, s);
    }
  }

  lemma {:induction false} ManyFirst(items: seq<Item>, s: string)
    ensures Matches([AnyMany] + items, s) <==> exists k :: 0 <= k <= |s| && Matches(items, s[k..])
  {
    var all := [AnyMany] + items;
    assert all[1..] == items;
    if k :| 0 <= k <= |s| && Matches(items, s[k..]) {
      assert Stands(all[0], s[..k]);
    }
  }

  /** Two stars in a row are one. */
  lemma {:induction false} ManyTwice(items: seq<Item>, s: string)
    ensures Matches([AnyMany] + ([AnyMany] + items), s) <==> Matches([AnyMany] + items, s)
  {
    ManyFirst([AnyMany] + items, s);
    ManyFirst(items, s);
    if k :| 0 <= k <= |s| && Matches([AnyMany] + items, s[k..]) {
      ManyFirst(items, s[k..]);
      var j :| 0 <= j <= |s[k..]| && Matches(items, s[k..][j..]);
      assert s[k..][j..] == s[k + j..];
    }
    if Matches([AnyMany] + items, s) {
      assert s[0..] == s;
    }
  }

  /** A final star takes everything. */
  lemma {:induction false} ManyLast(s: string)
    ensures Matches([AnyMany] + [], s)
  {
    ManyFirst([], s);
    assert Matches([], s[|s|..]);
  }

  // ----- facts about reading -----

  function Escape(s: string): string {
    if s == [] then [] else ['\\', s[0]] + Escape(s[1..])
  }

  /** Any string can be written as a pattern, and the pattern has that string only. */
  lemma {:induction false} EscapedOnlyItself(s: string, t: string)
    ensures InPattern(Escape(s), t) <==> s == t
    decreases |s|
  {
    if s != [] {
      var p := Escape(s);
      assert p[2..] == Escape(s[1..]);
      assert Items(p) == [Literal(s[0])] + Items(Escape(s[1..]));
      OneFirst(Literal(s[0]), Items(Escape(s[1..])), t);
      if t != [] {
        EscapedOnlyItself(s[1..], t[1..]);
        assert t == [t[0]] + t[1..] && s == [s[0]] + s[1..];
      }
    }
  }

  /** The text of elements with every character quoted. */
  function Spelled(es: seq<Element>): string {
    if es == [] then [] else SpelledOne(es[0]) + Spelled(es[1..])
  }

  function SpelledOne(e: Element): string {
    match e
    case Single(c) => ['\\', c]
    case Range(low, high) => ['\\', low, '-', '\\', high]
  }

  /** Any set of characters and ranges can be written as a bracket expression. */
  lemma {:induction false} SpelledIsRead(es: seq<Element>, rest: string)
    requires es != []
    ensures ReadElements(Spelled(es) + "]" + rest) == Some((es, rest))
    decreases |es|
  {
    var more := Spelled(es[1..]) + "]" + rest;
    var p := Spelled(es) + "]" + rest;
    assert p == SpelledOne(es[0]) + more;
    assert more != [];
    assert more[0] == '\\' || more[0] == ']' by {
      if |es| > 1 { assert Spelled(es[1..])[0] == '\\'; }
    }
    OneIsRead(es[0], more);
    if |es| == 1 {
      assert more == "]" + rest && es == [es[0]];
    } else {
      SpelledIsRead(es[1..], rest);
      assert more[0] == Spelled(es[1..])[0];
      assert es == [es[0]] + es[1..];
    }
  }

  lemma {:induction false} OneIsRead(e: Element, more: string)
    requires more != [] && more[0] in "\\]"
    ensures ReadElement(SpelledOne(e) + more) == Some((e, more))
  {
    var p := SpelledOne(e) + more;
    assert p[2..] == SpelledOne(e)[2..] + more;
    if e.Range? {
      var q := p[2..];
      assert q[1..] == ['\\', e.high] + more;
      assert q[1..][2..] == more;
    } else {
      assert p[2..] == more;
    }
  }

  /** Without a closing bracket there is no bracket expression. */
  lemma {:induction false} NeverClosed(p: string)
    requires ']' !in p
    ensures ReadElements(p).None?
    decreases |p|
  {
    if ReadElement(p).Some? {
      var rest := ReadElement(p).value.1;
      SuffixRead(p);
      var n := |p| - |rest|;
      assert rest == p[n..];
      NeverClosed(rest);
    }
  }

  lemma {:induction false} SuffixRead(p: string)
    requires ReadElement(p).Some?
    ensures var rest := ReadElement(p).value.1; rest == p[|p| - |rest|..]
  {
  }

  lemma UnclosedIsLiteral(p: string, s: string)
    requires ']' !in p
    ensures InPattern("[" + p, s) <==> s != [] && s[0] == '[' && InPattern(p, s[1..])
  {
    NeverClosed(if Negates(p) then p[1..] else p);
    assert ("[" + p)[1..] == p;
    OneFirst(Literal('['), Items(p), s);
  }

  // ----- what a pattern stands for, by its first characters -----

  /** An empty pattern has the empty string; `?` takes one character, `*` any number, a quoted
      character and one without a meaning take themselves. */
  lemma PatternLaw(p: string, c: char, s: string)
    ensures InPattern("", s) <==> s == ""
    ensures InPattern(['?'] + p, s) <==> s != [] && InPattern(p, s[1..])
    ensures InPattern(['*'] + p, s) <==> exists k :: 0 <= k <= |s| && InPattern(p, s[k..])
    ensures InPattern(['\\', c] + p, s) <==> s != [] && s[0] == c && InPattern(p, s[1..])
    ensures c !in "?*[\\" ==> (InPattern([c] + p, s) <==> s != [] && s[0] == c && InPattern(p, s[1..]))
  {
    assert (['?'] + p)[1..] == p && (['*'] + p)[1..] == p && ([c] + p)[1..] == p && (['\\', c] + p)[2..] == p;
    OneFirst(AnyOne, Items(p), s);
    ManyFirst(Items(p), s);
    OneFirst(Literal(c), Items(p), s);
    if s != [] { assert s[..1] == [s[0]]; }
  }

  /** A character is one of the elements: it is their character, or in their range. */
  ghost predicate Among(es: seq<Element>, c: char) {
    exists e :: e in es && match e { case Single(d) => c == d case Range(low, high) => low <= c && c <= high }
  }

  /** A bracket expression takes one character that is among its elements; with `!` or `^`, one that is
      not. */
  lemma BracketLaw(es: seq<Element>, sign: string, rest: string, s: string)
    requires es != [] && sign in ["", "!", "^"]
    ensures InPattern("[" + (sign + (Spelled(es) + "]" + rest)), s)
      <==> s != [] && (Among(es, s[0]) <==> sign == "") && InPattern(rest, s[1..])
  {
    var body := Spelled(es) + "]" + rest;
    var p := sign + body;
    SpelledIsRead(es, rest);
    assert body[0] == '\\' by { assert Spelled(es)[0] == '\\'; }
    assert if sign == "" then p == body else p[1..] == body && p[0] == sign[0];
    assert ("[" + p)[1..] == p;
    assert Items("[" + p) == [OneOf(es, sign != "")] + Items(rest);
    OneFirst(OneOf(es, sign != ""), Items(rest), s);
    if s != [] { AmongIs(es, s[0]); }
  }

  lemma AmongIs(es: seq<Element>, c: char)
    ensures Among(es, c) <==> InSet(es, c)
  {
    if InSet(es, c) {
      var i :| 0 <= i < |es| && Has(es[i], c);
      assert es[i] in es;
    }
  }
}
