/** `fnmatch` with no flags (libphoenix/regex/fnmatch.c). A C string is a sequence, and its
    terminator the end of it. */
module Fnmatch {
  import opened Glob

  datatype RangeResult = RangeMatch | RangeNoMatch | RangeError

  lemma {:induction false} InSetCons(e: Element, es: seq<Element>, c: char)
    ensures InSet([e] + es, c) <==> Has(e, c) || InSet(es, c)
  {
    var all := [e] + es;
    if i :| 0 <= i < |all| && Has(all[i], c) {
      if i > 0 { assert es[i - 1] == all[i]; }
    }
    if Has(e, c) { assert Has(all[0], c); }
    if i :| 0 <= i < |es| && Has(es[i], c) { assert Has(all[i + 1], c); }
  }

  /** The character at a place of a bracket expression, a backslash quoting the next one. */
  method ReadChar(pattern: string, p: nat) returns (error: bool, c: char, q: nat)
    requires p <= |pattern|
    ensures q <= |pattern|
    ensures if error then Quoted(pattern[p..]).None? else q > p && Quoted(pattern[p..]) == Some((c, pattern[q..]))
  {
    if p == |pattern| { return true, ' ', p; }
    c, q := pattern[p], p + 1;
    if c == '\\' {
      if q == |pattern| { return true, c, q; }
      c, q := pattern[q], q + 1;
      assert pattern[p..][1] == c && pattern[p..][2..] == pattern[q..];
    } else {
      assert pattern[p..][1..] == pattern[q..];
    }
    error := false;
  }

  /** The element at a place of a bracket expression, and whether it has the character. */
  method ElementHas(pattern: string, p: nat, test: char) returns (error: bool, has: bool, q: nat)
    requires p <= |pattern|
    ensures q <= |pattern|
    ensures if error then ReadElement(pattern[p..]).None?
      else && q > p && ReadElement(pattern[p..]).Some? && ReadElement(pattern[p..]).value.1 == pattern[q..]
           && (has <==> Has(ReadElement(pattern[p..]).value.0, test))
  {
    var c;
    has := false;
    error, c, q := ReadChar(pattern, p);
    if error { return; }
    ghost var behind := pattern[q..];
    if q + 1 < |pattern| && pattern[q] == '-' && pattern[q + 1] != ']' {
      assert behind[1..] == pattern[q + 1..];
      var c2;
      error, c2, q := ReadChar(pattern, q + 1);
      if error { return; }
      has := c <= test && test <= c2;
    } else {
      has := c == test;
    }
  }

  /** `rangematch` on the text behind the opening bracket. */
  method Rangematch(pattern: string, test: char) returns (r: RangeResult, newp: nat)
    ensures newp <= |pattern|
    ensures r.RangeError? <==> ReadBracket(pattern).None?
    ensures !r.RangeError? ==>
      && pattern[newp..] == ReadBracket(pattern).value.1
      && (r.RangeMatch? <==> Stands(ReadBracket(pattern).value.0, [test]))
  {
    var negate := |pattern| > 0 && (pattern[0] == '!' || pattern[0] == '^');
    var p := if negate then 1 else 0;
    ghost var text := pattern[p..];
    assert text == if Negates(pattern) then pattern[1..] else pattern;
    var ok := false;
    var more := true;
    while more
      invariant p <= |pattern|
      invariant if more then Rest(text, pattern[p..], ok, test) else Found(text, pattern[p..], ok, test)
      decreases |pattern| - p, more
    {
      var error, has, q := ElementHas(pattern, p, test);
      if error { return RangeError, 0; }
      RestStep(text, pattern[p..], ok, test, ReadElement(pattern[p..]).value.0, pattern[q..]);
      if has { ok := true; }
      p := q;
      if p < |pattern| && pattern[p] == ']' {
        assert pattern[p..][1..] == pattern[p + 1..];
        p := p + 1;
        more := false;
      }
    }
    newp := p;
    r := if ok == negate then RangeNoMatch else RangeMatch;
  }

  /** The elements of the text are those of its rest and some before it, of which `ok` says whether
      they have the character. */
  ghost predicate Rest(text: string, rest: string, ok: bool, c: char) {
    match ReadElements(rest)
    case None => ReadElements(text).None?
    case Some((es, after)) =>
      && ReadElements(text).Some? && ReadElements(text).value.1 == after
      && (InSet(ReadElements(text).value.0, c) <==> ok || InSet(es, c))
  }

  ghost predicate Found(text: string, after: string, ok: bool, c: char) {
    && ReadElements(text).Some? && ReadElements(text).value.1 == after
    && (InSet(ReadElements(text).value.0, c) <==> ok)
  }

  lemma {:induction false} RestStep(text: string, rest: string, ok: bool, c: char, e: Element, q: string)
    requires Rest(text, rest, ok, c) && ReadElement(rest) == Some((e, q))
    ensures if q != [] && q[0] == ']' then Found(text, q[1..], ok || Has(e, c), c)
      else Rest(text, q, ok || Has(e, c), c)
  {
    if q != [] && q[0] == ']' {
      assert [e] == [e] + [];
      InSetCons(e, [], c);
    } else if ReadElements(q).Some? {
      InSetCons(e, ReadElements(q).value.0, c);
    }
  }

  // ----- one item of the pattern at a time -----

  /** The pattern begins with an item that stands for one character. */
  lemma {:induction false} TakeOne(p: string, item: Item, rest: string, s: string)
    requires !item.AnyMany? && Items(p) == [item] + Items(rest)
    ensures InPattern(p, s) <==> s != [] && Stands(item, [s[0]]) && InPattern(rest, s[1..])
  {
    OneFirst(item, Items(rest), s);
    if s != [] { assert s[..1] == [s[0]]; }
  }

  /** The pattern begins with a star. */
  lemma {:induction false} TakeStar(p: string, s: string)
    requires p != [] && p[0] == '*'
    ensures InPattern(p, s) <==> exists k :: 0 <= k <= |s| && InPattern(p[1..], s[k..])
    ensures |p| == 1 ==> InPattern(p, s)
    ensures |p| > 1 && p[1] == '*' ==> (InPattern(p, s) <==> InPattern(p[1..], s))
  {
    assert Items(p) == [AnyMany] + Items(p[1..]);
    ManyFirst(Items(p[1..]), s);
    if |p| == 1 { ManyLast(s); }
    if |p| > 1 && p[1] == '*' {
      assert Items(p[1..]) == [AnyMany] + Items(p[1..][1..]);
      ManyTwice(Items(p[1..][1..]), s);
    }
  }

  /** A pattern that begins with neither its end nor a star has no empty string. */
  lemma {:induction false} NotEmpty(p: string)
    requires p != [] && p[0] != '*'
    ensures !InPattern(p, [])
  {
    var items := Items(p);
    assert items != [] && !items[0].AnyMany?;
    assert items == [items[0]] + items[1..];
    OneFirst(items[0], items[1..], []);
  }

  /** Collapses stars: the place behind them. */
  method Collapse(pattern: string, p: nat, ghost text: string) returns (q: nat)
    requires p < |pattern| && pattern[p] == '*'
    ensures p < q <= |pattern| && pattern[q - 1] == '*' && (q < |pattern| ==> pattern[q] != '*')
    ensures InPattern(pattern[q - 1..], text) <==> InPattern(pattern[p..], text)
  {
    q := p + 1;
    while q < |pattern| && pattern[q] == '*'
      invariant p < q <= |pattern|
      invariant pattern[q - 1] == '*' && (InPattern(pattern[q - 1..], text) <==> InPattern(pattern[p..], text))
    {
      TakeStar(pattern[q - 1..], text);
      assert pattern[q - 1..][1..] == pattern[q..];
      q := q + 1;
    }
  }

  /** The star case: the rest of the pattern is tried at every place but the end. */
  method Star(pattern: string, p: nat, string_: string, s: nat) returns (match_: bool)
    requires p < |pattern| && pattern[p] == '*' && s <= |string_|
    ensures match_ <==> InPattern(pattern[p..], string_[s..])
    decreases |pattern| - p, 0
  {
    ghost var text := string_[s..];
    var q := Collapse(pattern, p, text);
    TakeStar(pattern[q - 1..], text);
    assert pattern[q - 1..][1..] == pattern[q..];
    if q == |pattern| { return true; }
    var t := s;
    while t < |string_|
      invariant s <= t <= |string_|
      invariant forall k :: 0 <= k < t - s ==> !InPattern(pattern[q..], text[k..])
    {
      assert text[t - s..] == string_[t..];
      var found := Fnmatch(pattern[q..], string_[t..]);
      if found { return true; }
      t := t + 1;
    }
    assert text[|text|..] == [];
    NotEmpty(pattern[q..]);
    return false;
  }

  /** The bracket case: a set of characters, or the bracket itself where the set is not closed. */
  method Bracket(pattern: string, p: nat, string_: string, s: nat) returns (fits: bool, q: nat)
    requires p < |pattern| && pattern[p] == '[' && s < |string_|
    ensures p < q <= |pattern|
    ensures InPattern(pattern[p..], string_[s..]) <==> fits && InPattern(pattern[q..], string_[s + 1..])
  {
    q := p + 1;
    ghost var rest, text := pattern[p..], string_[s..];
    assert rest[1..] == pattern[q..] && text[1..] == string_[s + 1..];
    var r, newp := Rangematch(pattern[q..], string_[s]);
    if r == RangeError {
      TakeOne(rest, Literal('['), pattern[q..], text);
      fits := string_[s] == '[';
    } else {
      TakeOne(rest, ReadBracket(pattern[q..]).value.0, pattern[q..][newp..], text);
      fits := r == RangeMatch;
      assert pattern[q..][newp..] == pattern[q + newp..];
      q := q + newp;
    }
  }

  /** `fnmatch`: whether the string is one of those of the pattern. */
  method Fnmatch(pattern: string, string_: string) returns (match_: bool)
    ensures match_ <==> InPattern(pattern, string_)
    decreases |pattern|, 1
  {
    var p, s := 0, 0;
    assert pattern[0..] == pattern && string_[0..] == string_;
    while true
      invariant p <= |pattern| && s <= |string_|
      invariant InPattern(pattern, string_) <==> InPattern(pattern[p..], string_[s..])
      decreases |pattern| - p
    {
      ghost var rest, text := pattern[p..], string_[s..];
      if p == |pattern| { return s == |string_|; }
      var c := pattern[p];
      p := p + 1;
      assert rest[1..] == pattern[p..];
      match c {
        case '?' =>
          TakeOne(rest, AnyOne, pattern[p..], text);
          if s == |string_| { return false; }
        case '*' =>
          match_ := Star(pattern, p - 1, string_, s);
          return;
        case '[' =>
          if s == |string_| {
            NotEmpty(rest);
            return false;
          }
          var fits;
          fits, p := Bracket(pattern, p - 1, string_, s);
          if !fits { return false; }
        case '\\' =>
          if p < |pattern| {
            c := pattern[p];
            p := p + 1;
            assert rest[2..] == pattern[p..];
          }
          TakeOne(rest, Literal(c), pattern[p..], text);
          if s == |string_| || string_[s] != c { return false; }
        case _ =>
          TakeOne(rest, Literal(c), pattern[p..], text);
          if s == |string_| || string_[s] != c { return false; }
      }
      assert text[1..] == string_[s + 1..];
      s := s + 1;
    }
  }
}
