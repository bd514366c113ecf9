/** What an absolute path resolves to (libphoenix/unistd/dir.c), on lists of names: a stack of
    resolved names, and the names still to be resolved. */
module PathNames {
  const SYMLOOP_MAX: nat := 8

  datatype Error = ENAMETOOLONG | ENOENT | ELOOP | Other

  datatype Result<T> = Ok(value: T) | Err(error: Error)

  /** What reading a link gives: its text, or why there is none. */
  datatype Entry = Link(content: string) | NotLink | Missing | Failed

  type Links = string -> Entry

  // ----- names of a text -----

  /** The length of the name at the beginning of a text. */
  function NameLength(text: string): (n: nat)
    ensures n <= |text| && '/' !in text[..n] && (n < |text| ==> text[n] == '/')
  {
    if text == [] || text[0] == '/' then 0 else 1 + NameLength(text[1..])
  }

  function SkipSlashes(text: string): (r: string)
    ensures |r| <= |text| && (r != [] ==> r[0] != '/') && (text != [] && text[0] == '/' ==> |r| < |text|)
  {
    if text != [] && text[0] == '/' then SkipSlashes(text[1..]) else text
  }

  /** What follows the first name and the slashes behind it. */
  function Behind(text: string): (r: string)
    requires text != []
    ensures |r| < |text| && (r != [] ==> r[0] != '/')
  {
    SkipSlashes(text[NameLength(text)..])
  }

  function FirstName(text: string): string { text[..NameLength(text)] }

  /** The names between the slashes, empty ones left out. */
  function Names(text: string): seq<string>
    decreases |text|
  {
    if text == [] then []
    else (if NameLength(text) == 0 then [] else [FirstName(text)]) + Names(Behind(text))
  }

  /** The text of an absolute path. */
  function PathOf(stack: seq<string>): string {
    if stack == [] then [] else PathOf(stack[..|stack| - 1]) + "/" + stack[|stack| - 1]
  }

  function Up(stack: seq<string>): seq<string> { if stack == [] then [] else stack[..|stack| - 1] }

  predicate Special(name: string) { name == "" || name == "." || name == ".." }

  /** A name that a resolved path may have. */
  predicate Proper(name: string) { !Special(name) && '/' !in name }

  predicate AllProper(stack: seq<string>) {
    forall i :: 0 <= i < |stack| ==> Proper(stack[i])
  }

  function IsAbsolute(content: string): bool { content != [] && content[0] == '/' }

  // ----- resolution -----

  /** The place below which the names of a link are looked up. */
  function Under(stack: seq<string>, content: string): seq<string> { if IsAbsolute(content) then [] else stack }

  /** Resolution of names: a name is looked up below the stack; the names of a link take its place,
      and those of an absolute link start again at the root. */
  function Resolve(fs: Links, stack: seq<string>, names: seq<string>, links: nat, last: bool,
    missing: bool): Result<seq<string>>
    decreases SYMLOOP_MAX - links, |names|
  {
    if names == [] then Ok(stack)
    else
      var name, rest := names[0], names[1..];
      if name == "" || name == "." then Resolve(fs, stack, rest, links, last, missing)
      else if name == ".." then Resolve(fs, Up(stack), rest, links, last, missing)
      else if rest == [] && !last then Ok(stack + [name])
      else match fs(PathOf(stack + [name]))
        case NotLink => Resolve(fs, stack + [name], rest, links, last, missing)
        case Missing => if rest == [] && missing then Ok(stack + [name]) else Err(ENOENT)
        case Failed => Err(Other)
        case Link(content) =>
          if content == [] then Err(ENOENT)
          else if links >= SYMLOOP_MAX then Err(ELOOP)
          else Resolve(fs, Under(stack, content), Names(content) + rest, links + 1, last, missing)
  }

  /** The same on the text that is left, in buffers of `max` bytes: a name must fit behind the
      resolved ones, and a link before the text that is left. */
  function ResolveText(fs: Links, stack: seq<string>, text: string, links: nat, last: bool, missing: bool,
    max: nat): Result<seq<string>>
    decreases SYMLOOP_MAX - links, |text|
  {
    if text == [] then Ok(stack)
    else
      var name, rest := FirstName(text), Behind(text);
      if name == "" || name == "." then ResolveText(fs, stack, rest, links, last, missing, max)
      else if name == ".." then ResolveText(fs, Up(stack), rest, links, last, missing, max)
      else if |PathOf(stack + [name])| + 1 > max then Err(ENAMETOOLONG)
      else if rest == [] && !last then Ok(stack + [name])
      else match fs(PathOf(stack + [name]))
        case NotLink => ResolveText(fs, stack + [name], rest, links, last, missing, max)
        case Missing => if rest == [] && missing then Ok(stack + [name]) else Err(ENOENT)
        case Failed => Err(Other)
        case Link(content) =>
          if content == [] then Err(ENOENT)
          else if links >= SYMLOOP_MAX then Err(ELOOP)
          else if |content| + |rest| + 1 >= max then Err(ENAMETOOLONG)
          else ResolveText(fs, Under(stack, content), AfterLink(content, rest), links + 1, last, missing, max)
  }

  function AfterLink(content: string, rest: string): string {
    if IsAbsolute(content) then content[1..] + "/" + rest else content + "/" + rest
  }

  // ----- one step of it -----

  ghost function Replaced(fs: Links, stack: seq<string>, content: string, rest: string, links: nat, last: bool,
    missing: bool, max: nat): Result<seq<string>> {
    if content == [] then Err(ENOENT)
    else if links >= SYMLOOP_MAX then Err(ELOOP)
    else if |content| + |rest| + 1 >= max then Err(ENAMETOOLONG)
    else ResolveText(fs, Under(stack, content), AfterLink(content, rest), links + 1, last, missing, max)
  }

  /** What the name `name` below `stack` leads to. */
  ghost function Looked(fs: Links, stack: seq<string>, name: string, rest: string, links: nat, last: bool,
    missing: bool, max: nat): Result<seq<string>> {
    match fs(PathOf(stack + [name]))
    case NotLink => ResolveText(fs, stack + [name], rest, links, last, missing, max)
    case Missing => if rest == [] && missing then Ok(stack + [name]) else Err(ENOENT)
    case Failed => Err(Other)
    case Link(content) => Replaced(fs, stack, content, rest, links, last, missing, max)
  }

  lemma TextLooked(fs: Links, stack: seq<string>, text: string, links: nat, last: bool, missing: bool, max: nat)
    requires text != [] && Proper(FirstName(text))
    ensures ResolveText(fs, stack, text, links, last, missing, max)
      == if |PathOf(stack + [FirstName(text)])| + 1 > max then Err(ENAMETOOLONG)
         else if Behind(text) == [] && !last then Ok(stack + [FirstName(text)])
         else Looked(fs, stack, FirstName(text), Behind(text), links, last, missing, max)
  {
  }

  lemma TextPassed(fs: Links, stack: seq<string>, text: string, links: nat, last: bool, missing: bool, max: nat)
    requires text != []
    ensures FirstName(text) in ["", "."] ==>
      ResolveText(fs, stack, text, links, last, missing, max)
        == ResolveText(fs, stack, Behind(text), links, last, missing, max)
    ensures FirstName(text) == ".." ==>
      ResolveText(fs, stack, text, links, last, missing, max)
        == ResolveText(fs, Up(stack), Behind(text), links, last, missing, max)
  {
  }

  // ----- names of composed texts -----

  lemma {:induction false} SkippedNames(text: string)
    ensures Names(SkipSlashes(text)) == Names(text)
    decreases |text|
  {
    if text != [] && text[0] == '/' {
      assert NameLength(text) == 0 && text[0..] == text;
      assert Names(text) == Names(SkipSlashes(text));
    }
  }

  lemma {:induction false} NoNames(text: string)
    requires text != [] ==> text[0] != '/'
    ensures Names(text) == [] <==> text == []
  {
  }

  lemma {:induction false} NamesApart(a: string, b: string)
    ensures Names(a + "/" + b) == Names(a) + Names(b)
  {
    NamesOfBoth(a + "/" + b, a, b);
  }

  lemma {:induction false} NamesOfBoth(text: string, a: string, b: string)
    requires text == a + "/" + b
    ensures Names(text) == Names(a) + Names(b)
    decreases |a|
  {
    if a == [] {
      SlashFirst(b);
      assert text == "/" + b;
    } else {
      var rest, rest' := Behind(a), Behind(text);
      BehindApart(a, b);
      NamesStep(a);
      NamesStep(text);
      assert Names(rest') == Names(rest) + Names(b) by {
        if rest == [] {
          SkippedNames("/" + b);
          SlashFirst(b);
        } else {
          NamesOfBoth(rest', rest, b);
        }
      }
      Regroup(FirstNames(a), Names(rest), Names(b));
    }
  }

  lemma {:induction false} Regroup(x: seq<string>, y: seq<string>, z: seq<string>)
    ensures x + y + z == x + (y + z)
  {
  }

  function FirstNames(text: string): seq<string> { if NameLength(text) == 0 then [] else [FirstName(text)] }

  lemma {:induction false} NamesStep(text: string)
    requires text != []
    ensures Names(text) == FirstNames(text) + Names(Behind(text))
  {
  }

  lemma {:induction false} SlashFirst(b: string)
    ensures Names("/" + b) == Names(b)
  {
    var text := "/" + b;
    assert text[1..] == b;
    assert NameLength(text) == 0 && text[0..] == text;
    assert SkipSlashes(text) == SkipSlashes(b);
    SkippedNames(b);
  }

  lemma {:induction false} BehindApart(a: string, b: string)
    requires a != []
    ensures NameLength(a + "/" + b) == NameLength(a) && FirstName(a + "/" + b) == FirstName(a)
    ensures Behind(a + "/" + b) == if Behind(a) == [] then SkipSlashes("/" + b) else Behind(a) + "/" + b
  {
    var n := NameLength(a);
    NameLengthApart(a, b);
    assert (a + "/" + b)[..n] == a[..n];
    assert (a + "/" + b)[n..] == a[n..] + "/" + b;
    SkipApart(a[n..], b);
  }

  lemma {:induction false} NameLengthApart(a: string, b: string)
    ensures NameLength(a + "/" + b) == NameLength(a)
    decreases |a|
  {
    if a != [] && a[0] != '/' {
      assert (a + "/" + b)[1..] == a[1..] + "/" + b;
      NameLengthApart(a[1..], b);
    }
  }

  lemma {:induction false} SkipApart(a: string, b: string)
    ensures SkipSlashes(a + "/" + b) == if SkipSlashes(a) == [] then SkipSlashes("/" + b) else SkipSlashes(a) + "/" + b
    decreases |a|
  {
    if a == [] {
      assert a + "/" + b == "/" + b;
    } else if a[0] == '/' {
      assert (a + "/" + b)[1..] == a[1..] + "/" + b;
      SkipApart(a[1..], b);
    }
  }

  lemma {:induction false} AfterLinkNames(content: string, rest: string)
    ensures Names(AfterLink(content, rest)) == Names(content) + Names(rest)
  {
    if IsAbsolute(content) {
      NamesApart(content[1..], rest);
      assert SkipSlashes(content) == SkipSlashes(content[1..]);
      SkippedNames(content);
      SkippedNames(content[1..]);
    } else {
      NamesApart(content, rest);
    }
  }

  // ----- what resolution gives -----

  /** As long as everything fits the buffers, resolution of the text is that of its names. */
  lemma {:induction false} TextAgrees(fs: Links, stack: seq<string>, text: string, links: nat, last: bool,
    missing: bool, max: nat)
    ensures var r := ResolveText(fs, stack, text, links, last, missing, max);
      r == Err(ENAMETOOLONG) || r == Resolve(fs, stack, Names(text), links, last, missing)
    decreases SYMLOOP_MAX - links, |text|, 0
  {
    if text != [] {
      var name, rest := FirstName(text), Behind(text);
      if name == "" {
        assert Names(text) == [] + Names(rest);
        assert Names(text) == Names(rest);
        TextAgrees(fs, stack, rest, links, last, missing, max);
      } else {
        var names := Names(text);
        assert names[0] == name && names[1..] == Names(rest);
        NoNames(rest);
        if name == "." {
          TextAgrees(fs, stack, rest, links, last, missing, max);
        } else if name == ".." {
          TextAgrees(fs, Up(stack), rest, links, last, missing, max);
        } else if |PathOf(stack + [name])| + 1 <= max {
          LookupAgrees(fs, stack, name, rest, links, last, missing, max);
        }
      }
    }
  }

  lemma {:induction false} LookupAgrees(fs: Links, stack: seq<string>, name: string, rest: string, links: nat,
    last: bool, missing: bool, max: nat)
    ensures var entry := fs(PathOf(stack + [name]));
      && (entry.NotLink? ==> (
        var r := ResolveText(fs, stack + [name], rest, links, last, missing, max);
        r == Err(ENAMETOOLONG) || r == Resolve(fs, stack + [name], Names(rest), links, last, missing)))
      && (entry.Link? && links < SYMLOOP_MAX ==> (
        var below := if IsAbsolute(entry.content) then [] else stack;
        var r := ResolveText(fs, below, AfterLink(entry.content, rest), links + 1, last, missing, max);
        || r == Err(ENAMETOOLONG)
        || r == Resolve(fs, below, Names(entry.content) + Names(rest), links + 1, last, missing)))
    decreases SYMLOOP_MAX - links, |rest|, 1
  {
    var entry := fs(PathOf(stack + [name]));
    if entry.NotLink? {
      TextAgrees(fs, stack + [name], rest, links, last, missing, max);
    }
    if entry.Link? && links < SYMLOOP_MAX {
      var below := if IsAbsolute(entry.content) then [] else stack;
      TextAgrees(fs, below, AfterLink(entry.content, rest), links + 1, last, missing, max);
      AfterLinkNames(entry.content, rest);
    }
  }

  predicate NoSlashes(names: seq<string>) {
    forall i :: 0 <= i < |names| ==> '/' !in names[i]
  }

  lemma {:induction false} NamesHaveNoSlashes(text: string)
    ensures NoSlashes(Names(text))
    decreases |text|
  {
    if text != [] { NamesHaveNoSlashes(Behind(text)); }
  }

  /** A place all of whose parents, and it itself, are there and not links. */
  ghost predicate Settled(fs: Links, stack: seq<string>) {
    forall k :: 0 < k <= |stack| ==> fs(PathOf(stack[..k])).NotLink?
  }

  /** A place that resolution may give: names only, and no link on the way to it, the last name
      perhaps missing or left unresolved. */
  ghost predicate Resolved(fs: Links, stack: seq<string>, last: bool, missing: bool) {
    && AllProper(stack)
    && Settled(fs, Up(stack))
    && (stack != [] && last ==>
      fs(PathOf(stack)).NotLink? || (missing && fs(PathOf(stack)).Missing?))
  }

  lemma {:induction false} ResultIsResolved(fs: Links, stack: seq<string>, names: seq<string>, links: nat, last: bool,
    missing: bool)
    requires AllProper(stack) && Settled(fs, stack) && NoSlashes(names)
    ensures var r := Resolve(fs, stack, names, links, last, missing); r.Ok? ==> Resolved(fs, r.value, last, missing)
    decreases SYMLOOP_MAX - links, |names|, 0
  {
    if names == [] {
      SettledUp(fs, stack);
      if stack != [] { assert stack[..|stack|] == stack; }
    } else {
      var name, rest := names[0], names[1..];
      assert names == [name] + rest && '/' !in names[0];
      if name == "" || name == "." {
        ResultIsResolved(fs, stack, rest, links, last, missing);
      } else if name == ".." {
        SettledUp(fs, stack);
        ResultIsResolved(fs, Up(stack), rest, links, last, missing);
      } else {
        NameIsResolved(fs, stack, name, rest, links, last, missing);
      }
    }
  }

  lemma {:induction false} NameIsResolved(fs: Links, stack: seq<string>, name: string, rest: seq<string>, links: nat,
    last: bool, missing: bool)
    requires AllProper(stack) && Settled(fs, stack) && NoSlashes(rest) && Proper(name)
    ensures var r := Resolve(fs, stack, [name] + rest, links, last, missing);
      r.Ok? ==> Resolved(fs, r.value, last, missing)
    decreases SYMLOOP_MAX - links, |rest|, 1
  {
    var names, all := [name] + rest, stack + [name];
    assert names[0] == name && names[1..] == rest;
    assert Up(all) == stack && AllProper(all);
    match fs(PathOf(all))
    case NotLink =>
      SettledDown(fs, stack, name);
      ResultIsResolved(fs, all, rest, links, last, missing);
    case Link(content) =>
      if content != [] && links < SYMLOOP_MAX {
        NamesHaveNoSlashes(content);
        ResultIsResolved(fs, Under(stack, content), Names(content) + rest, links + 1, last, missing);
      }
    case _ =>
  }

  lemma {:induction false} SettledUp(fs: Links, stack: seq<string>)
    requires Settled(fs, stack)
    ensures Settled(fs, Up(stack))
  {
    forall k | 0 < k <= |Up(stack)|
      ensures fs(PathOf(Up(stack)[..k])).NotLink?
    {
      assert Up(stack)[..k] == stack[..k];
    }
  }

  lemma {:induction false} SettledDown(fs: Links, stack: seq<string>, name: string)
    requires Settled(fs, stack) && fs(PathOf(stack + [name])).NotLink?
    ensures Settled(fs, stack + [name])
  {
    var all := stack + [name];
    forall k | 0 < k <= |all|
      ensures fs(PathOf(all[..k])).NotLink?
    {
      assert all[..k] == if k < |all| then stack[..k] else all;
    }
  }

  /** A resolved place resolves to itself. */
  lemma {:induction false} ResolvedStays(fs: Links, stack: seq<string>, done: nat, last: bool, missing: bool)
    requires Resolved(fs, stack, last, missing) && done <= |stack|
    ensures Resolve(fs, stack[..done], stack[done..], 0, last, missing) == Ok(stack)
    decreases |stack| - done
  {
    var names := stack[done..];
    if done == |stack| {
      assert stack[..done] == stack;
    } else {
      var name := names[0];
      assert Proper(stack[done]);
      assert stack[..done] + [name] == stack[..done + 1];
      assert names[1..] == stack[done + 1..];
      if done + 1 < |stack| {
        assert Up(stack)[..done + 1] == stack[..done + 1];
        ResolvedStays(fs, stack, done + 1, last, missing);
      } else {
        assert stack[..done + 1] == stack;
        ResolvedStays(fs, stack, done + 1, last, missing);
      }
    }
  }

  /** The text of a resolved path has no empty name, `.` or `..`, and resolves to itself. */
  lemma ResolveTwice(fs: Links, text: string, last: bool, missing: bool)
    ensures var r := Resolve(fs, [], Names(text), 0, last, missing);
      r.Ok? ==> AllProper(r.value) && Resolve(fs, [], Names(PathOf(r.value)), 0, last, missing) == r
  {
    NamesHaveNoSlashes(text);
    ResultIsResolved(fs, [], Names(text), 0, last, missing);
    var r := Resolve(fs, [], Names(text), 0, last, missing);
    if r.Ok? {
      NamesOfPath(r.value);
      ResolvedStays(fs, r.value, 0, last, missing);
      assert r.value[..0] == [] && r.value[0..] == r.value;
    }
  }

  /** The names of the text of a place are its names. */
  lemma {:induction false} NamesOfPath(stack: seq<string>)
    requires AllProper(stack)
    ensures Names(PathOf(stack)) == stack
  {
    if stack != [] {
      var n := |stack| - 1;
      NamesOfPath(stack[..n]);
      NamesApart(PathOf(stack[..n]), stack[n]);
      assert Proper(stack[n]);
      OneName(stack[n]);
      assert stack == stack[..n] + [stack[n]];
    }
  }

  lemma {:induction false} OneName(name: string)
    requires Proper(name)
    ensures Names(name) == [name]
  {
    var n := NameLength(name);
    assert name[..n] == name;
    assert Behind(name) == [];
  }

  // ----- resolution of what resolution gave, in the same buffers -----

  lemma {:induction false} PrefixShorter(stack: seq<string>, k: nat)
    requires k <= |stack|
    ensures |PathOf(stack[..k])| <= |PathOf(stack)|
    decreases |stack| - k
  {
    if k < |stack| {
      assert stack[..k + 1][..k] == stack[..k];
      PrefixShorter(stack, k + 1);
    } else {
      assert stack[..k] == stack;
    }
  }

  lemma UpShorter(stack: seq<string>)
    ensures |PathOf(Up(stack))| <= |PathOf(stack)|
  {
    if stack != [] { PrefixShorter(stack, |stack| - 1); }
  }

  /** A result fits the buffer. */
  lemma {:induction false} ResultFits(fs: Links, stack: seq<string>, text: string, links: nat, last: bool,
    missing: bool, max: nat)
    requires |PathOf(stack)| + 1 <= max
    ensures Fits(ResolveText(fs, stack, text, links, last, missing, max), max)
    decreases SYMLOOP_MAX - links, |text|, 0
  {
    if text != [] {
      var name, rest := FirstName(text), Behind(text);
      TextPassed(fs, stack, text, links, last, missing, max);
      if name == "" || name == "." {
        ResultFits(fs, stack, rest, links, last, missing, max);
      } else if name == ".." {
        UpShorter(stack);
        ResultFits(fs, Up(stack), rest, links, last, missing, max);
      } else {
        TextLooked(fs, stack, text, links, last, missing, max);
        LookedFits(fs, stack, name, rest, links, last, missing, max);
      }
    }
  }

  ghost predicate Fits(r: Result<seq<string>>, max: nat) { r.Ok? ==> |PathOf(r.value)| + 1 <= max }

  lemma {:induction false} LookedFits(fs: Links, stack: seq<string>, name: string, rest: string, links: nat,
    last: bool, missing: bool, max: nat)
    requires |PathOf(stack)| + 1 <= max
    ensures |PathOf(stack + [name])| + 1 <= max ==> Fits(Looked(fs, stack, name, rest, links, last, missing, max), max)
    decreases SYMLOOP_MAX - links, |rest|, 1
  {
    if |PathOf(stack + [name])| + 1 <= max {
      match fs(PathOf(stack + [name]))
      case NotLink => ResultFits(fs, stack + [name], rest, links, last, missing, max);
      case Link(content) =>
        if content != [] && links < SYMLOOP_MAX {
          var below := if IsAbsolute(content) then [] else stack;
          ResultFits(fs, below, AfterLink(content, rest), links + 1, last, missing, max);
        }
      case _ =>
    }
  }

  /** Text that has the names of a resolved place resolves to it. */
  lemma {:induction false} TextStays(fs: Links, stack: seq<string>, done: nat, text: string, last: bool,
    missing: bool, max: nat)
    requires Resolved(fs, stack, last, missing) && |PathOf(stack)| + 1 <= max
    requires done <= |stack| && Names(text) == stack[done..]
    ensures ResolveText(fs, stack[..done], text, 0, last, missing, max) == Ok(stack)
    decreases |text|
  {
    if text == [] {
      assert done == |stack| && stack[..done] == stack;
    } else if NameLength(text) == 0 {
      NamesStep(text);
      TextPassed(fs, stack[..done], text, 0, last, missing, max);
      TextStays(fs, stack, done, Behind(text), last, missing, max);
    } else {
      var name, rest := FirstName(text), Behind(text);
      NamesStep(text);
      FirstOfRest(stack, done, name, Names(rest));
      TextStays(fs, stack, done + 1, rest, last, missing, max);
      NoNames(rest);
      NameStays(fs, stack, done, name, rest, last, missing, max);
      TextLooked(fs, stack[..done], text, 0, last, missing, max);
    }
  }

  lemma FirstOfRest(stack: seq<string>, done: nat, name: string, names: seq<string>)
    requires done <= |stack| && stack[done..] == [name] + names
    ensures done < |stack| && stack[done] == name && stack[done + 1..] == names
  {
    assert stack[done..][0] == name && stack[done..][1..] == names;
  }

  lemma NameStays(fs: Links, stack: seq<string>, done: nat, name: string, rest: string, last: bool, missing: bool,
    max: nat)
    requires Resolved(fs, stack, last, missing) && |PathOf(stack)| + 1 <= max
    requires done < |stack| && name == stack[done] && (rest == [] <==> done + 1 == |stack|)
    requires ResolveText(fs, stack[..done + 1], rest, 0, last, missing, max) == Ok(stack)
    ensures Proper(name) && |PathOf(stack[..done] + [name])| + 1 <= max
    ensures rest == [] ==> stack[..done] + [name] == stack
    ensures (rest == [] && !last) || Looked(fs, stack[..done], name, rest, 0, last, missing, max) == Ok(stack)
  {
    assert Proper(stack[done]) && stack[..done] + [name] == stack[..done + 1];
    PrefixShorter(stack, done + 1);
    Looking(fs, stack, done, last, missing);
    PlaceStays(fs, stack, stack[..done], name, rest, last, missing, max);
  }

  /** What a lookup on the way to a resolved place finds. */
  lemma Looking(fs: Links, stack: seq<string>, done: nat, last: bool, missing: bool)
    requires Resolved(fs, stack, last, missing) && done < |stack|
    ensures done + 1 < |stack| ==> fs(PathOf(stack[..done + 1])).NotLink?
    ensures done + 1 == |stack| ==> stack[..done + 1] == stack
    ensures done + 1 == |stack| && last ==> fs(PathOf(stack)).NotLink? || (missing && fs(PathOf(stack)).Missing?)
  {
    if done + 1 < |stack| {
      assert Up(stack)[..done + 1] == stack[..done + 1];
    } else {
      assert stack[..done + 1] == stack;
    }
  }

  lemma PlaceStays(fs: Links, stack: seq<string>, below: seq<string>, name: string, rest: string, last: bool,
    missing: bool, max: nat)
    requires ResolveText(fs, below + [name], rest, 0, last, missing, max) == Ok(stack)
    requires rest == [] ==> below + [name] == stack
    requires var entry := fs(PathOf(below + [name]));
      entry.NotLink? || (rest == [] && (!last || (missing && entry.Missing?)))
    ensures (rest == [] && !last) || Looked(fs, below, name, rest, 0, last, missing, max) == Ok(stack)
  {
  }

  /** What resolution gave, as text, resolves to itself in the same buffers. */
  lemma TextTwice(fs: Links, text: string, again: string, last: bool, missing: bool, max: nat)
    requires max > 0
    ensures var r := ResolveText(fs, [], text, 0, last, missing, max);
      r.Ok? && Names(again) == r.value ==> ResolveText(fs, [], again, 0, last, missing, max) == r
  {
    var r := ResolveText(fs, [], text, 0, last, missing, max);
    if r.Ok? && Names(again) == r.value {
      TextAgrees(fs, [], text, 0, last, missing, max);
      NamesHaveNoSlashes(text);
      ResultIsResolved(fs, [], Names(text), 0, last, missing);
      ResultFits(fs, [], text, 0, last, missing, max);
      assert r.value[..0] == [] && r.value[0..] == r.value;
      TextStays(fs, r.value, 0, again, last, missing, max);
    }
  }
}
