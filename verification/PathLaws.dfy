/** What links, `.`, `..` and missing names mean in a path from the root: laws on texts, which do not
    speak of the stack of resolved names. */
module PathLaws {
  import opened PathNames

  // ----- a settled place is walked through -----

  lemma {:induction false} SlashesPassed(fs: Links, stack: seq<string>, text: string, links: nat, last: bool,
    missing: bool, max: nat)
    ensures ResolveText(fs, stack, SkipSlashes(text), links, last, missing, max)
      == ResolveText(fs, stack, text, links, last, missing, max)
  {
    if text != [] && text[0] == '/' {
      assert NameLength(text) == 0 && text[0..] == text && FirstName(text) == "";
      TextPassed(fs, stack, text, links, last, missing, max);
    }
  }

  lemma NameThen(name: string, more: string)
    requires Proper(name)
    ensures FirstName(name + "/" + more) == name && Behind(name + "/" + more) == SkipSlashes("/" + more)
    ensures SkipSlashes("/" + name + "/" + more) == name + "/" + more
  {
    OneName(name);
    var n := NameLength(name);
    assert name[..n] == name && Behind(name) == [];
    BehindApart(name, more);
    assert ("/" + name + "/" + more)[1..] == name + "/" + more;
  }

  lemma PathThen(stack: seq<string>, name: string, more: string)
    ensures PathOf(stack + [name]) + "/" + more == PathOf(stack) + "/" + (name + "/" + more)
  {
    assert (stack + [name])[..|stack|] == stack;
  }

  lemma {:induction false} Walk(fs: Links, stack: seq<string>, more: string, links: nat, last: bool, missing: bool,
    max: nat)
    requires AllProper(stack) && Settled(fs, stack) && |PathOf(stack)| + 1 <= max
    ensures ResolveText(fs, [], PathOf(stack) + "/" + more, links, last, missing, max)
      == ResolveText(fs, stack, SkipSlashes("/" + more), links, last, missing, max)
    decreases |stack|
  {
    if stack == [] {
      assert PathOf(stack) + "/" + more == "/" + more;
      SlashesPassed(fs, [], "/" + more, links, last, missing, max);
    } else {
      var n := |stack| - 1;
      var init, name := stack[..n], stack[n];
      assert stack == init + [name] && Up(stack) == init && Proper(name);
      assert stack[..|stack|] == stack;
      SettledUp(fs, stack);
      PathThen(init, name, more);
      Walk(fs, init, name + "/" + more, links, last, missing, max);
      NameThen(name, more);
      assert "/" + (name + "/" + more) == "/" + name + "/" + more;
      TextLooked(fs, init, name + "/" + more, links, last, missing, max);
    }
  }

  // ----- links -----

  /** The first slash of an absolute text may be left out. */
  lemma FromRoot(fs: Links, text: string, links: nat, last: bool, missing: bool, max: nat)
    requires text != [] && text[0] == '/'
    ensures ResolveText(fs, [], text[1..], links, last, missing, max)
      == ResolveText(fs, [], text, links, last, missing, max)
  {
    SlashesPassed(fs, [], text, links, last, missing, max);
    SlashesPassed(fs, [], text[1..], links, last, missing, max);
  }

  /** Text that does not begin with a slash goes on below a settled place. */
  lemma Below(fs: Links, stack: seq<string>, text: string, links: nat, last: bool, missing: bool, max: nat)
    requires AllProper(stack) && Settled(fs, stack) && |PathOf(stack)| + 1 <= max && text != [] && text[0] != '/'
    ensures ResolveText(fs, stack, text, links, last, missing, max)
      == ResolveText(fs, [], PathOf(stack) + "/" + text, links, last, missing, max)
  {
    Walk(fs, stack, text, links, last, missing, max);
    assert ("/" + text)[1..] == text;
  }

  /** A link in a path is its text in its place, below the place of the link if the text is relative
      and from the root if it is absolute, with one more link counted; the text of the link and what
      is left of the path must fit the buffer. */
  lemma LinkLaw(fs: Links, stack: seq<string>, name: string, t: string, rest: string, links: nat, last: bool,
    missing: bool, max: nat)
    requires AllProper(stack) && Settled(fs, stack) && Proper(name) && fs(PathOf(stack + [name])) == Link(t)
    requires t != [] && links < SYMLOOP_MAX && |PathOf(stack + [name])| + 1 <= max
    requires SkipSlashes(rest) != [] || last
    ensures ResolveText(fs, [], PathOf(stack + [name]) + "/" + rest, links, last, missing, max)
      == if |t| + |SkipSlashes(rest)| + 1 >= max then Err(ENAMETOOLONG)
         else if t[0] == '/' then ResolveText(fs, [], t + "/" + SkipSlashes(rest), links + 1, last, missing, max)
         else ResolveText(fs, [], PathOf(stack) + "/" + (t + "/" + SkipSlashes(rest)), links + 1, last, missing, max)
  {
    Reaches(fs, stack, name, rest, links, last, missing, max);
    InPlace(fs, stack, name, t, SkipSlashes(rest), links, last, missing, max);
  }

  lemma InPlace(fs: Links, stack: seq<string>, name: string, t: string, s: string, links: nat, last: bool,
    missing: bool, max: nat)
    requires AllProper(stack) && Settled(fs, stack) && t != [] && links < SYMLOOP_MAX
    requires |PathOf(stack + [name])| + 1 <= max
    ensures Replaced(fs, stack, t, s, links, last, missing, max)
      == if |t| + |s| + 1 >= max then Err(ENAMETOOLONG)
         else if t[0] == '/' then ResolveText(fs, [], t + "/" + s, links + 1, last, missing, max)
         else ResolveText(fs, [], PathOf(stack) + "/" + (t + "/" + s), links + 1, last, missing, max)
  {
    var text := t + "/" + s;
    if t[0] == '/' {
      assert text[1..] == t[1..] + "/" + s;
      FromRoot(fs, text, links + 1, last, missing, max);
    } else {
      PrefixShorter(stack + [name], |stack|);
      assert (stack + [name])[..|stack|] == stack;
      Below(fs, stack, text, links + 1, last, missing, max);
    }
  }

  /** The path gets to the name below the settled place. */
  lemma Reaches(fs: Links, stack: seq<string>, name: string, rest: string, links: nat, last: bool, missing: bool,
    max: nat)
    requires AllProper(stack) && Settled(fs, stack) && Proper(name) && |PathOf(stack + [name])| + 1 <= max
    requires SkipSlashes(rest) != [] || last
    ensures ResolveText(fs, [], PathOf(stack + [name]) + "/" + rest, links, last, missing, max)
      == Looked(fs, stack, name, SkipSlashes(rest), links, last, missing, max)
  {
    PrefixShorter(stack + [name], |stack|);
    assert (stack + [name])[..|stack|] == stack;
    PathThen(stack, name, rest);
    Walk(fs, stack, name + "/" + rest, links, last, missing, max);
    NameThen(name, rest);
    assert "/" + (name + "/" + rest) == "/" + name + "/" + rest;
    assert ("/" + rest)[1..] == rest;
    TextLooked(fs, stack, name + "/" + rest, links, last, missing, max);
  }

  /** A link to itself leads nowhere. */
  lemma {:induction false} SelfLink(fs: Links, stack: seq<string>, name: string, links: nat, last: bool, missing: bool,
    max: nat, rest: string)
    requires AllProper(stack) && Settled(fs, stack) && Proper(name) && fs(PathOf(stack + [name])) == Link(name)
    requires |PathOf(stack + [name])| + 1 <= max && |name| + |SkipSlashes(rest)| + 1 < max
    requires links <= SYMLOOP_MAX && (SkipSlashes(rest) != [] || last)
    ensures ResolveText(fs, [], PathOf(stack + [name]) + "/" + rest, links, last, missing, max) == Err(ELOOP)
    decreases SYMLOOP_MAX - links
  {
    if links == SYMLOOP_MAX {
      Reaches(fs, stack, name, rest, links, last, missing, max);
    } else {
      var s := SkipSlashes(rest);
      LinkLaw(fs, stack, name, name, rest, links, last, missing, max);
      assert name[0] != '/';
      PathThen(stack, name, s);
      assert SkipSlashes(s) == s;
      SelfLink(fs, stack, name, links + 1, last, missing, max, s);
    }
  }

  // ----- names that are not links -----

  /** More slashes than one are as one. */
  lemma SlashLaw(fs: Links, stack: seq<string>, rest: string, links: nat, last: bool, missing: bool, max: nat)
    requires AllProper(stack) && Settled(fs, stack) && |PathOf(stack)| + 1 <= max
    ensures ResolveText(fs, [], PathOf(stack) + "/" + SkipSlashes(rest), links, last, missing, max)
      == ResolveText(fs, [], PathOf(stack) + "/" + rest, links, last, missing, max)
  {
    Walk(fs, stack, rest, links, last, missing, max);
    Walk(fs, stack, SkipSlashes(rest), links, last, missing, max);
    assert ("/" + rest)[1..] == rest && ("/" + SkipSlashes(rest))[1..] == SkipSlashes(rest);
  }

  lemma Dots(name: string, rest: string)
    requires name == "." || name == ".."
    ensures FirstName(name + "/" + rest) == name && Behind(name + "/" + rest) == SkipSlashes("/" + rest)
  {
    BehindApart(name, rest);
    assert NameLength(name) == |name|;
    assert name[..|name|] == name && name[|name|..] == [];
  }

  /** What `.` or `..` and more text lead to below a place. */
  lemma DotsThen(fs: Links, stack: seq<string>, dots: string, rest: string, links: nat, last: bool, missing: bool,
    max: nat)
    requires dots == "." || dots == ".."
    ensures ResolveText(fs, stack, dots + "/" + rest, links, last, missing, max)
      == ResolveText(fs, if |dots| == 1 then stack else Up(stack), SkipSlashes("/" + rest), links, last, missing, max)
  {
    Dots(dots, rest);
    PassedOver(fs, stack, dots + "/" + rest, dots, SkipSlashes("/" + rest), links, last, missing, max);
  }

  lemma PassedOver(fs: Links, stack: seq<string>, text: string, dots: string, behind: string, links: nat, last: bool,
    missing: bool, max: nat)
    requires text != [] && FirstName(text) == dots && Behind(text) == behind && (dots == "." || dots == "..")
    ensures ResolveText(fs, stack, text, links, last, missing, max)
      == ResolveText(fs, if |dots| == 1 then stack else Up(stack), behind, links, last, missing, max)
  {
    TextPassed(fs, stack, text, links, last, missing, max);
  }

  /** `.` means nothing. */
  lemma DotLaw(fs: Links, stack: seq<string>, dot: string, rest: string, links: nat, last: bool, missing: bool,
    max: nat)
    requires AllProper(stack) && Settled(fs, stack) && |PathOf(stack)| + 1 <= max && dot == "."
    ensures ResolveText(fs, [], PathOf(stack) + "/" + (dot + "/" + rest), links, last, missing, max)
      == ResolveText(fs, [], PathOf(stack) + "/" + rest, links, last, missing, max)
  {
    DotsThen(fs, stack, dot, rest, links, last, missing, max);
    Below(fs, stack, dot + "/" + rest, links, last, missing, max);
    Walk(fs, stack, rest, links, last, missing, max);
  }

  /** `..` behind a name takes it back. */
  lemma DotDotLaw(fs: Links, stack: seq<string>, name: string, dots: string, rest: string, links: nat, last: bool,
    missing: bool, max: nat)
    requires AllProper(stack + [name]) && Settled(fs, stack + [name]) && |PathOf(stack + [name])| + 1 <= max
    requires dots == ".."
    ensures ResolveText(fs, [], PathOf(stack + [name]) + "/" + (dots + "/" + rest), links, last, missing, max)
      == ResolveText(fs, [], PathOf(stack) + "/" + rest, links, last, missing, max)
  {
    var all := stack + [name];
    assert Up(all) == stack && all[..|stack|] == stack;
    SettledUp(fs, all);
    PrefixShorter(all, |stack|);
    assert AllProper(stack) by { assert forall i :: 0 <= i < |stack| ==> stack[i] == all[i]; }
    DotsThen(fs, all, dots, rest, links, last, missing, max);
    Below(fs, all, dots + "/" + rest, links, last, missing, max);
    Walk(fs, stack, rest, links, last, missing, max);
  }

  /** Above the root is the root. */
  lemma RootLaw(fs: Links, dots: string, rest: string, links: nat, last: bool, missing: bool, max: nat)
    requires dots == ".."
    ensures ResolveText(fs, [], dots + "/" + rest, links, last, missing, max)
      == ResolveText(fs, [], rest, links, last, missing, max)
  {
    DotsThen(fs, [], dots, rest, links, last, missing, max);
    SlashesPassed(fs, [], "/" + rest, links, last, missing, max);
    assert ("/" + rest)[1..] == rest;
    FromRoot(fs, "/" + rest, links, last, missing, max);
  }

  /** A missing name is an error, unless it is the last one and may be missing. */
  lemma MissingLaw(fs: Links, stack: seq<string>, name: string, rest: string, links: nat, last: bool, missing: bool,
    max: nat)
    requires AllProper(stack) && Settled(fs, stack) && Proper(name) && fs(PathOf(stack + [name])).Missing?
    requires |PathOf(stack + [name])| + 1 <= max && (SkipSlashes(rest) != [] || last)
    ensures ResolveText(fs, [], PathOf(stack + [name]) + "/" + rest, links, last, missing, max)
      == if SkipSlashes(rest) == [] && missing then Ok(stack + [name]) else Err(ENOENT)
  {
    Reaches(fs, stack, name, rest, links, last, missing, max);
  }
}
