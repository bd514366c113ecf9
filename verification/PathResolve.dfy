/** `_resolve_abspath` (libphoenix/unistd/dir.c) in its two buffers. The path is kept at the end of
    its buffer, so that links can be read into the beginning; the result grows from its beginning. */
module PathResolve {
  import opened PathNames

  const NUL: char := '\0'

  /** The text at the end of a buffer, which ends with a terminator. */
  ghost function Left(path: seq<char>, p: nat): string
    requires p < |path|
  {
    path[p..|path| - 1]
  }

  ghost predicate Ends(path: seq<char>, p: nat) {
    p < |path| && path[|path| - 1] == NUL && NUL !in Left(path, p)
  }

  lemma LeftFrom(path: seq<char>, p: nat, q: nat)
    requires Ends(path, p) && p <= q < |path|
    ensures Ends(path, q) && Left(path, q) == Left(path, p)[q - p..]
  {
  }

  // ----- the path buffer -----

  /** `strlen`. */
  method Length(path: array<char>, ghost text: string) returns (n: nat)
    requires |text| < path.Length && path[..|text|] == text && path[|text|] == NUL && NUL !in text
    ensures n == |text|
  {
    n := 0;
    while path[n] != NUL
      invariant n <= |text|
      decreases |text| - n
    {
      assert path[n] == path[..|text|][n] || n == |text|;
      n := n + 1;
    }
  }

  /** `memmove` inside a buffer. */
  method Move(path: array<char>, from: nat, n: nat, to: nat)
    requires from + n <= path.Length && to + n <= path.Length
    modifies path
    ensures path[to..to + n] == old(path[from..from + n])
    ensures forall i :: 0 <= i < path.Length && !(to <= i < to + n) ==> path[i] == old(path[i])
  {
    forall i | 0 <= i < n { path[to + i] := path[from + i]; }
  }

  /** The character at a place, and what is left behind it. */
  lemma LeftStep(path: seq<char>, p: nat)
    requires Ends(path, p)
    ensures path[p] == NUL <==> Left(path, p) == []
    ensures Left(path, p) != [] ==>
      && p + 1 < |path| && Ends(path, p + 1) && Left(path, p)[0] == path[p] && Left(path, p)[1..] == Left(path, p + 1)
  {
    if Left(path, p) != [] {
      assert Left(path, p)[0] == path[p];
      LeftFrom(path, p, p + 1);
    }
  }

  /** `strchrnul` for a slash. */
  method FindSlash(path: array<char>, p: nat) returns (e: nat)
    requires Ends(path[..], p)
    ensures p <= e < path.Length && e - p == NameLength(Left(path[..], p))
  {
    e := p;
    LeftStep(path[..], e);
    while path[e] != '/' && path[e] != NUL
      invariant p <= e < path.Length && Ends(path[..], e)
      invariant NameLength(Left(path[..], p)) == e - p + NameLength(Left(path[..], e))
      decreases path.Length - e
    {
      LeftStep(path[..], e);
      e := e + 1;
    }
    LeftStep(path[..], e);
  }

  method PassSlashes(path: array<char>, e: nat) returns (q: nat)
    requires Ends(path[..], e)
    ensures e <= q < path.Length && Ends(path[..], q) && Left(path[..], q) == SkipSlashes(Left(path[..], e))
  {
    q := e;
    while path[q] == '/'
      invariant e <= q < path.Length && Ends(path[..], q)
      invariant SkipSlashes(Left(path[..], q)) == SkipSlashes(Left(path[..], e))
      decreases path.Length - q
    {
      LeftStep(path[..], q);
      q := q + 1;
    }
    LeftStep(path[..], q);
  }

  /** The name at `p`, its end, and the beginning of the text behind the slashes after it. */
  method NextName(path: array<char>, p: nat) returns (e: nat, q: nat)
    requires Ends(path[..], p) && Left(path[..], p) != []
    ensures p <= e <= q < path.Length && Ends(path[..], q)
    ensures path[p..e] == FirstName(Left(path[..], p))
    ensures Left(path[..], q) == Behind(Left(path[..], p))
  {
    e := FindSlash(path, p);
    LeftFrom(path[..], p, e);
    q := PassSlashes(path, e);
    assert path[p..e] == Left(path[..], p)[..e - p];
  }

  // ----- the result buffer -----

  ghost predicate Holds(result: seq<char>, r: nat, stack: seq<string>) {
    r < |result| && result[..r] == PathOf(stack)
  }

  /** The last name is taken off. */
  method Pop(result: array<char>, r: nat, ghost stack: seq<string>) returns (r': nat)
    requires Holds(result[..], r, stack) && AllProper(stack)
    ensures Holds(result[..], r', Up(stack))
  {
    r' := r;
    ghost var k := |PathOf(Up(stack))|;
    if stack != [] { LastSlash(result[..], r, stack); }
    var go := true;
    while r' > 0 && go
      invariant k <= r' <= r && (go && stack != [] ==> k < r') && (!go ==> r' == k)
      decreases r', go
    {
      r' := r' - 1;
      if result[r'] == '/' { go := false; }
    }
    assert result[..k] == result[..r][..k];
  }

  lemma LastSlash(result: seq<char>, r: nat, stack: seq<string>)
    requires Holds(result, r, stack) && AllProper(stack) && stack != []
    ensures var k := |PathOf(Up(stack))|;
      && k < r && result[k] == '/' && result[..k] == PathOf(Up(stack))
      && forall i :: k < i < r ==> result[i] != '/'
  {
    var k := |PathOf(Up(stack))|;
    var name := stack[|stack| - 1];
    assert Proper(name);
    var all := PathOf(Up(stack)) + "/" + name;
    assert result[..r] == all;
    assert result[k] == all[k];
    assert result[..k] == all[..k];
    forall i | k < i < r
      ensures result[i] != '/'
    {
      assert result[i] == all[i] == name[i - k - 1];
    }
  }

  /** A name is put behind the others. */
  method Push(path: array<char>, node: nat, e: nat, result: array<char>, r: nat, ghost stack: seq<string>)
    returns (r': nat)
    requires path != result && node <= e <= path.Length
    requires Holds(result[..], r, stack) && r + 1 + (e - node) + 1 <= result.Length
    modifies result
    ensures Holds(result[..], r', stack + [path[node..e]]) && result[r'] == NUL
  {
    result[r] := '/';
    forall i | 0 <= i < e - node { result[r + 1 + i] := path[node + i]; }
    r' := r + 1 + (e - node);
    result[r'] := NUL;
    assert (stack + [path[node..e]])[..|stack|] == stack;
    assert result[..r'] == old(result[..r]) + "/" + path[node..e];
  }

  // ----- links -----

  ghost predicate TextLinks(fs: Links) {
    forall s :: fs(s).Link? ==> NUL !in fs(s).content
  }

  /** `readlink`: as much of a link's text as there is room for. */
  method ReadLink(fs: Links, ghost name: string, result: array<char>, r: nat, path: array<char>, room: nat)
    returns (entry: Entry, n: nat)
    requires path != result && r <= result.Length && result[..r] == name && room <= path.Length
    modifies path
    ensures entry == fs(name)
    ensures entry.Link? ==>
      n == (if |entry.content| < room then |entry.content| else room) && path[..n] == entry.content[..n]
    ensures forall i :: (if entry.Link? then n else 0) <= i < path.Length ==> path[i] == old(path[i])
  {
    entry := fs(result[..r]);
    n := 0;
    if entry.Link? {
      n := if |entry.content| < room then |entry.content| else room;
      forall i | 0 <= i < n { path[i] := entry.content[i]; }
    }
  }

  lemma Joined(path: seq<char>, at: nat, n: nat, content: string, rest: string)
    requires at + n + 1 < |path| && path[at..at + n] == content && path[at + n] == '/'
    requires path[at + n + 1..|path| - 1] == rest
    requires path[|path| - 1] == NUL && NUL !in content && NUL !in rest
    ensures Ends(path, at) && Left(path, at) == content + "/" + rest
  {
    assert Left(path, at) == path[at..at + n] + [path[at + n]] + path[at + n + 1..|path| - 1];
  }

  /** The text of a link, at the beginning of the buffer, is put before the text that is left. */
  method Prepend(path: array<char>, p: nat, n: nat, ghost content: string) returns (q: nat)
    requires Ends(path[..], p) && 0 < n < p && |content| == n && path[..n] == content && NUL !in content
    modifies path
    ensures Ends(path[..], q) && Left(path[..], q) == AfterLink(content, old(Left(path[..], p)))
    ensures q == p - 1 - n + if IsAbsolute(content) then 1 else 0
  {
    ghost var rest := Left(path[..], p);
    path[p - 1] := '/';
    var at := p - 1 - n;
    assert path[..n] == content;
    Move(path, 0, n, at);
    assert path[p..path.Length - 1] == rest;
    Joined(path[..], at, n, content, rest);
    q := at;
    assert path[q] == content[0];
    if path[q] == '/' {
      LeftFrom(path[..], at, at + 1);
      assert (content + "/" + rest)[1..] == content[1..] + "/" + rest;
      q := q + 1;
    }
  }

  // ----- resolution -----

  datatype Turn = Go | Stop | Fail(error: Error)

  /** Where the loop stands: `stack` is resolved, the text at `p` is left, and together they still
      resolve to `goal`. */
  ghost predicate At(fs: Links, path: seq<char>, p: nat, result: seq<char>, r: nat, stack: seq<string>, links: nat,
    last: bool, missing: bool, goal: Result<seq<string>>)
  {
    && |path| == |result| && Ends(path, p) && Holds(result, r, stack) && AllProper(stack)
    && ResolveText(fs, stack, Left(path, p), links, last, missing, |path|) == goal
  }

  lemma PathLonger(stack: seq<string>, name: string)
    ensures PathOf(stack + [name]) == PathOf(stack) + "/" + name
  {
    assert (stack + [name])[..|stack|] == stack;
  }

  /** The text of a link, read into the beginning of the buffer, takes the place of its name. */
  method Replace(fs: Links, path: array<char>, p: nat, result: array<char>, r: nat, links: nat,
    last: bool, missing: bool, ghost stack: seq<string>, content: string, n: nat)
    returns (turn: Turn, p': nat, r': nat, links': nat, ghost stack': seq<string>)
    requires path != result && path.Length == result.Length && 0 < p && Ends(path[..], p) && NUL !in content
    requires n == (if |content| < p then |content| else p) && path[..n] == content[..n]
    requires Holds(result[..], r, stack) && AllProper(stack)
    modifies path
    ensures var goal := Replaced(fs, stack, content, old(Left(path[..], p)), links, last, missing, path.Length);
      if turn.Fail? then goal == Err(turn.error)
      else
        && turn.Go? && At(fs, path[..], p', result[..], r', stack', links', last, missing, goal)
        && links < links' <= SYMLOOP_MAX
  {
    p', r', links', stack' := p, r, links + 1, stack;
    if n == 0 {
      turn := Fail(ENOENT);
    } else if links' > SYMLOOP_MAX {
      turn := Fail(ELOOP);
    } else if n == p {
      turn := Fail(ENAMETOOLONG);
    } else {
      turn := Go;
      assert content[..n] == content;
      p' := Prepend(path, p, n, content);
      if IsAbsolute(content) {
        r', stack' := 0, [];
      }
    }
  }

  /** A name that is now resolved is read as a link; the text of a link takes its place. */
  method Follow(fs: Links, path: array<char>, p: nat, result: array<char>, r: nat, r0: nat, links: nat,
    last: bool, missing: bool, ghost stack: seq<string>, ghost name: string)
    returns (turn: Turn, p': nat, r': nat, links': nat, ghost stack': seq<string>)
    requires path != result && path.Length == result.Length && TextLinks(fs) && 0 < p && Ends(path[..], p)
    requires Holds(result[..], r, stack + [name]) && Holds(result[..], r0, stack)
    requires AllProper(stack) && Proper(name)
    modifies path
    ensures var goal := Looked(fs, stack, name, old(Left(path[..], p)), links, last, missing, path.Length);
      && (turn.Go? ==>
        && At(fs, path[..], p', result[..], r', stack', links', last, missing, goal)
        && (links < links' <= SYMLOOP_MAX || (links' == links && p' == p)))
      && (turn.Stop? ==> goal == Ok(stack') && r' == r && stack' == stack + [name])
      && (turn.Fail? ==> goal == Err(turn.error))
  {
    ghost var rest := Left(path[..], p);
    stack' := stack + [name];
    p', r', links' := p, r, links;
    LeftStep(path[..], p);
    var isLeaf := path[p] == NUL;
    var entry, n := ReadLink(fs, PathOf(stack'), result, r, path, p);
    assert Left(path[..], p) == rest;
    match entry {
      case NotLink => turn := Go;
      case Missing => turn := if isLeaf && missing then Stop else Fail(ENOENT);
      case Failed => turn := Fail(Other);
      case Link(content) =>
        turn, p', r', links', stack' := Replace(fs, path, p, result, r0, links, last, missing, stack, content, n);
    }
  }

  /** A name that is looked up is put behind the resolved ones. */
  method Enter(fs: Links, path: array<char>, node: nat, e: nat, p: nat, result: array<char>, r: nat, links: nat,
    last: bool, missing: bool, ghost stack: seq<string>, ghost goal: Result<seq<string>>)
    returns (turn: Turn, p': nat, r': nat, links': nat, ghost stack': seq<string>)
    requires path != result && TextLinks(fs)
    requires node < e <= p < path.Length && Ends(path[..], p)
    requires At(fs, path[..], node, result[..], r, stack, links, last, missing, goal)
    requires FirstName(Left(path[..], node)) == path[node..e] && Proper(path[node..e])
    requires Behind(Left(path[..], node)) == Left(path[..], p)
    modifies path, result
    ensures turn.Go? ==>
      && At(fs, path[..], p', result[..], r', stack', links', last, missing, goal)
      && (links < links' <= SYMLOOP_MAX || (links' == links && p' == p))
    ensures turn.Stop? ==> goal == Ok(stack') && Holds(result[..], r', stack')
    ensures turn.Fail? ==> goal == Err(turn.error)
  {
    ghost var name := path[node..e];
    PathLonger(stack, name);
    TextLooked(fs, stack, Left(path[..], node), links, last, missing, path.Length);
    p', r', links', stack' := p, r, links, stack + [name];
    if r + 1 + (e - node) + 1 > result.Length {
      turn := Fail(ENAMETOOLONG);
      return;
    }
    r' := Push(path, node, e, result, r, stack);
    LeftStep(path[..], p);
    if path[p] == NUL && !last {
      turn := Stop;
      return;
    }
    assert result[..r] == result[..r'][..r];
    turn, p', r', links', stack' := Follow(fs, path, p, result, r', r, links, last, missing, stack, name);
  }

  /** One turn of the loop: the next name is passed over, takes the last one off, or is entered. */
  method ResolveName(fs: Links, path: array<char>, p: nat, result: array<char>, r: nat, links: nat,
    last: bool, missing: bool, ghost stack: seq<string>, ghost goal: Result<seq<string>>)
    returns (turn: Turn, p': nat, r': nat, links': nat, ghost stack': seq<string>)
    requires path != result && TextLinks(fs)
    requires At(fs, path[..], p, result[..], r, stack, links, last, missing, goal) && Left(path[..], p) != []
    modifies path, result
    ensures turn.Go? ==>
      && At(fs, path[..], p', result[..], r', stack', links', last, missing, goal)
      && (links < links' <= SYMLOOP_MAX || (links' == links && p' > p))
    ensures turn.Stop? ==> goal == Ok(stack') && Holds(result[..], r', stack')
    ensures turn.Fail? ==> goal == Err(turn.error)
  {
    var e, q := NextName(path, p);
    TextPassed(fs, stack, Left(path[..], p), links, last, missing, path.Length);
    turn, p', r', links', stack' := Go, q, r, links, stack;
    if e == p || (e == p + 1 && path[p] == '.') {
      assert path[p..e] in ["", "."];
    } else if e == p + 2 && path[p] == '.' && path[p + 1] == '.' {
      assert path[p..e] == "..";
      r' := Pop(result, r, stack);
      stack' := Up(stack);
    } else {
      NameIsProper(path[p..e]);
      turn, p', r', links', stack' := Enter(fs, path, p, e, q, result, r, links, last, missing, stack, goal);
    }
  }

  lemma NameIsProper(name: string)
    requires name != "" && '/' !in name && !(|name| == 1 && name[0] == '.')
    requires !(|name| == 2 && name[0] == '.' && name[1] == '.')
    ensures Proper(name)
  {
  }

  /** The text a resolved place has: the root's is a slash. */
  ghost function ResultText(stack: seq<string>): string { if stack == [] then "/" else PathOf(stack) }

  /** `_resolve_abspath`: the result is what the text resolves to; both buffers have one length. */
  method ResolveAbspath(fs: Links, path: array<char>, result: array<char>, last: bool, missing: bool,
    ghost text: string)
    returns (out: Result<nat>)
    requires path != result && path.Length == result.Length && path.Length >= 2 && TextLinks(fs)
    requires |text| < path.Length && path[..|text|] == text && path[|text|] == NUL && NUL !in text
    requires text != [] && text[0] == '/'
    modifies path, result
    ensures Answers(out, ResolveText(fs, [], text[1..], 0, last, missing, path.Length), result[..])
  {
    var p := Shift(path, text);
    var r: nat, links: nat := 0, 0;
    ghost var stack: seq<string> := [];
    ghost var goal := ResolveText(fs, [], text[1..], 0, last, missing, path.Length);
    while path[p] != NUL
      invariant At(fs, path[..], p, result[..], r, stack, links, last, missing, goal) && links <= SYMLOOP_MAX
      decreases SYMLOOP_MAX - links, path.Length - p
    {
      LeftStep(path[..], p);
      var turn;
      turn, p, r, links, stack := ResolveName(fs, path, p, result, r, links, last, missing, stack, goal);
      if turn.Fail? { return Err(turn.error); }
      if turn.Stop? {
        out := Finish(result, r, stack);
        return;
      }
    }
    LeftStep(path[..], p);
    out := Finish(result, r, stack);
  }

  /** The result of resolution: its text in the buffer and the length of it, or the error. */
  ghost predicate Answers(out: Result<nat>, goal: Result<seq<string>>, result: seq<char>) {
    match goal
    case Err(error) => out == Err(error)
    case Ok(stack) =>
      && out.Ok? && out.value < |result|
      && result[..out.value] == ResultText(stack) && result[out.value] == NUL
  }

  method Finish(result: array<char>, r: nat, ghost stack: seq<string>) returns (out: Result<nat>)
    requires Holds(result[..], r, stack) && result.Length >= 2
    modifies result
    ensures Answers(out, Ok(stack), result[..])
  {
    var n := r;
    if stack != [] { assert |PathOf(stack)| > 0; }
    if n == 0 {
      result[n] := '/';
      n := 1;
    }
    result[n] := NUL;
    assert result[..n] == ResultText(stack);
    out := Ok(n);
  }

  /** The path is moved to the end of its buffer, its first slash passed over. */
  method Shift(path: array<char>, ghost text: string) returns (p: nat)
    requires |text| < path.Length && path[..|text|] == text && path[|text|] == NUL && NUL !in text
    requires text != []
    modifies path
    ensures Ends(path[..], p) && Left(path[..], p) == text[1..]
  {
    var n := Length(path, text);
    p := 0;
    if n + 1 < path.Length {
      p := path.Length - (n + 1);
      ghost var whole := path[..n + 1];
      assert whole == text + [NUL];
      Move(path, 0, n + 1, p);
      assert path[p..] == whole;
    } else {
      assert path[..] == text + [NUL];
    }
    assert path[p..] == text + [NUL];
    p := p + 1;
    assert path[p..path.Length - 1] == path[p - 1..][1..n];
  }

  // ----- resolving twice -----

  ghost predicate NoNul(stack: seq<string>) {
    forall i :: 0 <= i < |stack| ==> NUL !in stack[i]
  }

  lemma {:induction false} PathHasNoNul(stack: seq<string>)
    requires NoNul(stack)
    ensures NUL !in PathOf(stack)
  {
    if stack != [] { PathHasNoNul(stack[..|stack| - 1]); }
  }

  lemma {:induction false} BehindHasNoNul(text: string)
    requires text != [] && NUL !in text
    ensures NUL !in FirstName(text) && NUL !in Behind(text)
  {
    SkipHasNoNul(text[NameLength(text)..]);
  }

  lemma {:induction false} SkipHasNoNul(text: string)
    requires NUL !in text
    ensures NUL !in SkipSlashes(text)
  {
    if text != [] && text[0] == '/' { SkipHasNoNul(text[1..]); }
  }

  ghost predicate NulFree(r: Result<seq<string>>) { r.Ok? ==> NoNul(r.value) }

  /** The names of a result have no terminator in them. */
  lemma {:induction false} ResultHasNoNul(fs: Links, stack: seq<string>, text: string, links: nat, last: bool,
    missing: bool, max: nat)
    requires TextLinks(fs) && NoNul(stack) && NUL !in text
    ensures NulFree(ResolveText(fs, stack, text, links, last, missing, max))
    decreases SYMLOOP_MAX - links, |text|, 0
  {
    if text != [] {
      var name, rest := FirstName(text), Behind(text);
      BehindHasNoNul(text);
      TextPassed(fs, stack, text, links, last, missing, max);
      if name == "" || name == "." {
        ResultHasNoNul(fs, stack, rest, links, last, missing, max);
      } else if name == ".." {
        ResultHasNoNul(fs, Up(stack), rest, links, last, missing, max);
      } else {
        TextLooked(fs, stack, text, links, last, missing, max);
        LookedHasNoNul(fs, stack, name, rest, links, last, missing, max);
      }
    }
  }

  lemma {:induction false} LookedHasNoNul(fs: Links, stack: seq<string>, name: string, rest: string, links: nat,
    last: bool, missing: bool, max: nat)
    requires TextLinks(fs) && NoNul(stack) && NUL !in name && NUL !in rest
    ensures NoNul(stack + [name]) && NulFree(Looked(fs, stack, name, rest, links, last, missing, max))
    decreases SYMLOOP_MAX - links, |rest|, 1
  {
    match fs(PathOf(stack + [name]))
    case NotLink => ResultHasNoNul(fs, stack + [name], rest, links, last, missing, max);
    case Link(content) =>
      if content != [] && links < SYMLOOP_MAX {
        var below := if IsAbsolute(content) then [] else stack;
        assert NUL !in AfterLink(content, rest);
        ResultHasNoNul(fs, below, AfterLink(content, rest), links + 1, last, missing, max);
      }
    case _ =>
  }

  /** The names of the text that a resolved place has behind its first slash. */
  lemma ResultNames(stack: seq<string>)
    requires AllProper(stack)
    ensures ResultText(stack) != [] && ResultText(stack)[0] == '/' && Names(ResultText(stack)[1..]) == stack
  {
    if stack == [] {
      assert ResultText(stack)[1..] == [];
    } else {
      NamesOfPath(stack);
      FirstSlash(stack);
      var text := PathOf(stack);
      assert text == "/" + text[1..];
      SlashFirst(text[1..]);
    }
  }

  lemma {:induction false} FirstSlash(stack: seq<string>)
    requires stack != []
    ensures PathOf(stack) != [] && PathOf(stack)[0] == '/'
  {
    if |stack| > 1 { FirstSlash(stack[..|stack| - 1]); }
  }

  /** A result is text that can be resolved again, and to the same place. */
  lemma ResultAgain(fs: Links, text: string, last: bool, missing: bool, max: nat)
    requires TextLinks(fs) && NUL !in text && max > 0
    ensures var r := ResolveText(fs, [], text, 0, last, missing, max);
      r.Ok? ==> (
        && ResultText(r.value) != [] && ResultText(r.value)[0] == '/' && NUL !in ResultText(r.value)
        && ResolveText(fs, [], ResultText(r.value)[1..], 0, last, missing, max) == r)
  {
    var r := ResolveText(fs, [], text, 0, last, missing, max);
    if r.Ok? {
      TextAgrees(fs, [], text, 0, last, missing, max);
      NamesHaveNoSlashes(text);
      ResultIsResolved(fs, [], Names(text), 0, last, missing);
      ResultNames(r.value);
      ResultHasNoNul(fs, [], text, 0, last, missing, max);
      PathHasNoNul(r.value);
      TextTwice(fs, text, ResultText(r.value)[1..], last, missing, max);
    }
  }

  /** A path resolved, and the result resolved again in the same buffers: the second result is the
      first. */
  method ResolveTwiceOver(fs: Links, path: array<char>, result: array<char>, again: array<char>, last: bool,
    missing: bool, ghost text: string) returns (out: Result<nat>, out': Result<nat>)
    requires path != result && path != again && result != again && TextLinks(fs)
    requires path.Length == result.Length == again.Length && path.Length >= 2
    requires |text| < path.Length && path[..|text|] == text && path[|text|] == NUL && NUL !in text
    requires text != [] && text[0] == '/'
    modifies path, result, again
    ensures out.Ok? ==> out' == out && out.value < result.Length && again[..out.value] == result[..out.value]
  {
    out := ResolveAbspath(fs, path, result, last, missing, text);
    out' := out;
    if out.Ok? {
      var n := out.value;
      assert NUL !in text[1..];
      ResultAgain(fs, text[1..], last, missing, path.Length);
      ghost var text' := result[..n];
      forall i | 0 <= i <= n { path[i] := result[i]; }
      assert path[..n] == text';
      out' := ResolveAbspath(fs, path, again, last, missing, text');
    }
  }
}
