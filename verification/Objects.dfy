/** The object table of the POSIX server (phoenix-rtos-posixsrv/posixsrv.c): reference counts, the
    tree of ids and the one-entry cache in front of it. Each operation is one step: they run under a
    lock, but for the mark of a destroyed object, which is one write. An object is named by a number
    that is not used again. */
module Objects {
  datatype Option<T> = None | Some(value: T)

  datatype Object = Object(id: int, refs: int, destroy: bool)

  function Lookup(tree: map<int, nat>, id: int): Option<nat> {
    if id in tree then Some(tree[id]) else None
  }

  // ----- the state -----

  datatype State = State(objects: map<nat, Object>, tree: map<int, nat>, cacheId: int, cacheAt: Option<nat>,
    released: seq<nat>)
  {
    /** The object is created and not released. */
    predicate Live(o: nat) { o in objects && Lookup(tree, objects[o].id) == Some(o) }

    /** The object a client may have by an id. */
    function Found(id: int): Option<nat> {
      if id in tree && tree[id] in objects && !objects[tree[id]].destroy then Some(tree[id]) else None
    }

    /** A destroyed object without a reference that is still in the tree: nobody can get it or put
        it, so it stays. */
    predicate Stuck(o: nat) { Live(o) && objects[o].destroy && objects[o].refs == 0 }
  }

  ghost predicate EntryGood(s: State, id: int)
    requires id in s.tree
  {
    s.tree[id] in s.objects && s.objects[s.tree[id]].id == id
  }

  ghost predicate ObjectGood(s: State, held: multiset<nat>, o: nat)
    requires o in s.objects
  {
    if s.Live(o) then o !in s.released && s.objects[o].refs == held[o]
    else o in s.released && held[o] == 0 && s.objects[o].destroy
  }

  ghost predicate Distinct(r: seq<nat>) {
    forall i, j :: 0 <= i < j < |r| ==> r[i] != r[j]
  }

  /** The references that clients hold are those counted; an object is in the tree until it is
      released, which happens once; the cache agrees with the tree, also on ids that are absent. */
  ghost predicate Good(s: State, held: multiset<nat>) {
    && (forall id {:trigger EntryGood(s, id)} :: id in s.tree ==> EntryGood(s, id))
    && (forall o {:trigger ObjectGood(s, held, o)} :: o in s.objects ==> ObjectGood(s, held, o))
    && (forall o :: o in held ==> o in s.objects)
    && (forall o :: o in s.released ==> o in s.objects)
    && Distinct(s.released)
    && s.cacheAt == Lookup(s.tree, s.cacheId)
  }

  /** The same objects are stuck, but for those of `more`. */
  ghost predicate StuckSame(s: State, s': State, more: set<nat>) {
    forall o: nat {:trigger s'.Stuck(o)} :: s'.Stuck(o) <==> s.Stuck(o) || o in more
  }

  /** Every destroyed object that nobody refers to was released, exactly once, or is stuck; a
      released object was destroyed, and nobody refers to it. */
  lemma ReleasedExactly(s: State, held: multiset<nat>, o: nat)
    requires Good(s, held) && o in s.objects
    ensures o in s.released || s.Stuck(o) <==> s.objects[o].destroy && held[o] == 0
    ensures multiset(s.released)[o] == if o in s.released then 1 else 0
  {
    assert ObjectGood(s, held, o);
    OnceIn(s.released, o);
  }

  lemma {:induction false} OnceIn(r: seq<nat>, o: nat)
    requires Distinct(r)
    ensures multiset(r)[o] == if o in r then 1 else 0
  {
    if r != [] {
      var n := |r| - 1;
      assert r == r[..n] + [r[n]];
      OnceIn(r[..n], o);
    }
  }

  // ----- what each operation keeps -----

  lemma Created(s: State, held: multiset<nat>, o: nat, id: int)
    requires Good(s, held) && o !in s.objects && id !in s.tree
    ensures var s' := State(s.objects[o := Object(id, 1, false)], s.tree[id := o], id, Some(o), s.released);
      Good(s', held + multiset{o}) && StuckSame(s, s', {})
  {
    var s' := State(s.objects[o := Object(id, 1, false)], s.tree[id := o], id, Some(o), s.released);
    forall i | i in s'.tree
      ensures EntryGood(s', i)
    {
      if i != id { assert EntryGood(s, i); }
    }
    forall x | x in s'.objects
      ensures ObjectGood(s', held + multiset{o}, x)
    {
      if x != o { assert ObjectGood(s, held, x); }
    }
    forall x: nat
      ensures s'.Stuck(x) <==> s.Stuck(x)
    {
      if x in s.objects { assert ObjectGood(s, held, x); }
    }
  }

  /** One reference more. */
  lemma Referred(s: State, held: multiset<nat>, o: nat)
    requires Good(s, held) && s.Live(o) && (o in held || !s.objects[o].destroy)
    ensures var s' := s.(objects := s.objects[o := s.objects[o].(refs := s.objects[o].refs + 1)]);
      Good(s', held + multiset{o}) && StuckSame(s, s', {})
  {
    var s' := s.(objects := s.objects[o := s.objects[o].(refs := s.objects[o].refs + 1)]);
    assert ObjectGood(s, held, o);
    forall i | i in s'.tree
      ensures EntryGood(s', i)
    {
      assert EntryGood(s, i);
    }
    forall x | x in s'.objects
      ensures ObjectGood(s', held + multiset{o}, x) && (s'.Stuck(x) <==> s.Stuck(x))
    {
      assert ObjectGood(s, held, x);
    }
  }

  lemma Cached(s: State, held: multiset<nat>, id: int)
    requires Good(s, held)
    ensures var s' := s.(cacheId := id, cacheAt := Lookup(s.tree, id));
      Good(s', held) && StuckSame(s, s', {})
  {
    var s' := s.(cacheId := id, cacheAt := Lookup(s.tree, id));
    forall i | i in s'.tree
      ensures EntryGood(s', i)
    {
      assert EntryGood(s, i);
    }
    forall x | x in s'.objects
      ensures ObjectGood(s', held, x) && (s'.Stuck(x) <==> s.Stuck(x))
    {
      assert ObjectGood(s, held, x);
    }
  }

  lemma HeldIsLive(s: State, held: multiset<nat>, o: nat)
    requires Good(s, held) && o in held
    ensures s.Live(o) && s.objects[o].refs == held[o] && o !in s.released
  {
    assert ObjectGood(s, held, o);
  }

  /** One reference less, with the object kept. */
  lemma Dropped(s: State, held: multiset<nat>, o: nat)
    requires Good(s, held) && o in held && !(held[o] == 1 && s.objects[o].destroy)
    ensures var s' := s.(objects := s.objects[o := s.objects[o].(refs := s.objects[o].refs - 1)]);
      Good(s', held - multiset{o}) && StuckSame(s, s', {})
  {
    var s' := s.(objects := s.objects[o := s.objects[o].(refs := s.objects[o].refs - 1)]);
    HeldIsLive(s, held, o);
    forall i | i in s'.tree
      ensures EntryGood(s', i)
    {
      assert EntryGood(s, i);
    }
    forall x | x in s'.objects
      ensures ObjectGood(s', held - multiset{o}, x) && (s'.Stuck(x) <==> s.Stuck(x))
    {
      assert ObjectGood(s, held, x);
    }
  }

  function AfterFree(s: State, o: nat): State
    requires o in s.objects
  {
    var id := s.objects[o].id;
    State(s.objects[o := s.objects[o].(refs := s.objects[o].refs - 1)], s.tree - {id}, s.cacheId,
      if s.cacheId == id then None else s.cacheAt, s.released + [o])
  }

  /** The last reference less, with the object released. */
  lemma Freed(s: State, held: multiset<nat>, o: nat)
    requires Good(s, held) && held[o] == 1 && o in s.objects && s.objects[o].destroy
    ensures Good(AfterFree(s, o), held - multiset{o}) && StuckSame(s, AfterFree(s, o), {})
  {
    var s' := AfterFree(s, o);
    HeldIsLive(s, held, o);
    forall i | i in s'.tree
      ensures EntryGood(s', i)
    {
      assert EntryGood(s, i);
    }
    forall x | x in s'.objects
      ensures ObjectGood(s', held - multiset{o}, x) && (s'.Stuck(x) <==> s.Stuck(x))
    {
      assert ObjectGood(s, held, x);
    }
  }

  lemma Marked(s: State, held: multiset<nat>, o: nat)
    requires Good(s, held) && s.Live(o)
    ensures var s' := s.(objects := s.objects[o := s.objects[o].(destroy := true)]);
      Good(s', held) && StuckSame(s, s', if held[o] == 0 then {o} else {})
  {
    var s' := s.(objects := s.objects[o := s.objects[o].(destroy := true)]);
    assert ObjectGood(s, held, o);
    forall i | i in s'.tree
      ensures EntryGood(s', i)
    {
      assert EntryGood(s, i);
    }
    forall x | x in s'.objects
      ensures ObjectGood(s', held, x)
    {
      assert ObjectGood(s, held, x);
    }
  }

  // ----- the operations -----

  class Table {
    var objects: map<nat, Object>
    var tree: map<int, nat>
    var cacheId: int
    var cacheAt: Option<nat>
    /** The calls of `release`, in order. */
    var released: seq<nat>
    /** The references that clients hold. */
    var held: multiset<nat>

    ghost function Now(): State
      reads this
    {
      State(objects, tree, cacheId, cacheAt, released)
    }

    ghost predicate Valid()
      reads this
    {
      Good(Now(), held)
    }

    constructor ()
      ensures Valid() && objects == map[] && tree == map[] && released == [] && held == multiset{}
    {
      objects, tree, cacheId, cacheAt, released, held := map[], map[], 0, None, [], multiset{};
    }

    /** `posixsrv_object_create`; the tree gave the id. */
    method Create(o: nat, id: int)
      requires Valid() && o !in objects && id !in tree
      modifies this
      ensures Valid() && StuckSame(old(Now()), Now(), {})
      ensures objects == old(objects)[o := Object(id, 1, false)] && tree == old(tree)[id := o]
      ensures released == old(released) && held == old(held) + multiset{o}
    {
      Created(Now(), held, o, id);
      objects := objects[o := Object(id, 1, false)];
      tree := tree[id := o];
      cacheId, cacheAt := id, Some(o);
      held := held + multiset{o};
    }

    /** `posixsrv_object_get`: the object with an id, unless it is destroyed. */
    method Get(id: int) returns (r: Option<nat>)
      requires Valid()
      modifies this`objects, this`cacheId, this`cacheAt, this`held
      ensures Valid() && StuckSame(old(Now()), Now(), {})
      ensures r == old(Now()).Found(id)
      ensures r.None? ==> objects == old(objects) && held == old(held)
      ensures r.Some? ==> (
        && held == old(held) + multiset{r.value}
        && objects == old(objects)[r.value := old(objects)[r.value].(refs := old(objects)[r.value].refs + 1)])
    {
      if cacheId == id {
        r := cacheAt;
      } else {
        r := if id in tree then Some(tree[id]) else None;
      }
      if r.Some? {
        var o := r.value;
        assert EntryGood(Now(), id);
        if objects[o].destroy {
          r := None;
        } else {
          Cached(Now(), held, id);
          Referred(Now().(cacheId := id, cacheAt := r), held, o);
          cacheId, cacheAt := id, r;
          objects := objects[o := objects[o].(refs := objects[o].refs + 1)];
          held := held + multiset{o};
        }
      }
    }

    /** `posixsrv_object_ref` by a client that holds a reference. */
    method Ref(o: nat)
      requires Valid() && o in held
      modifies this`objects, this`held
      ensures Valid() && StuckSame(old(Now()), Now(), {}) && held == old(held) + multiset{o}
      ensures o in old(objects) && objects == old(objects)[o := old(objects)[o].(refs := old(objects)[o].refs + 1)]
    {
      HeldIsLive(Now(), held, o);
      Referred(Now(), held, o);
      objects := objects[o := objects[o].(refs := objects[o].refs + 1)];
      held := held + multiset{o};
    }

    /** The last reference of a destroyed object is given back, and the object released. */
    method Release(o: nat)
      requires Valid() && held[o] == 1 && o in objects && objects[o].destroy && objects[o].refs == 1
      modifies this
      ensures Now() == AfterFree(old(Now()), o) && held == old(held) - multiset{o}
      ensures Valid() && StuckSame(old(Now()), Now(), {})
    {
      Freed(Now(), held, o);
      var id := objects[o].id;
      objects := objects[o := objects[o].(refs := objects[o].refs - 1)];
      if cacheId == id { cacheAt := None; }
      tree := tree - {id};
      released := released + [o];
      held := held - multiset{o};
      assert Now() == AfterFree(old(Now()), o);
    }

    /** `posixsrv_object_put`: a reference is given back; the last one of a destroyed object
        releases it. */
    method Put(o: nat)
      requires Valid() && o in held
      modifies this
      ensures Valid() && StuckSame(old(Now()), Now(), {}) && held == old(held) - multiset{o}
      ensures o in old(objects) && objects == old(objects)[o := old(objects)[o].(refs := old(objects)[o].refs - 1)]
      ensures if old(objects)[o].destroy && old(held)[o] == 1
        then released == old(released) + [o] && tree == old(tree) - {old(objects)[o].id}
        else released == old(released) && tree == old(tree)
    {
      HeldIsLive(Now(), held, o);
      var was := objects[o];
      if was.refs - 1 == 0 && was.destroy {
        Release(o);
      } else {
        Dropped(Now(), held, o);
        objects := objects[o := was.(refs := was.refs - 1)];
        held := held - multiset{o};
      }
    }

    /** `posixsrv_object_destroy`: the object is stuck if nobody holds a reference, and only then. */
    method Destroy(o: nat)
      requires Valid() && Now().Live(o)
      modifies this`objects
      ensures Valid() && objects == old(objects)[o := old(objects)[o].(destroy := true)]
      ensures StuckSame(old(Now()), Now(), if held[o] == 0 then {o} else {})
    {
      Marked(Now(), held, o);
      objects := objects[o := objects[o].(destroy := true)];
    }
  }

  // ----- every run -----

  datatype Command = Create(id: int) | Get(id: int) | Ref(o: nat) | Put(o: nat) | Destroy(o: nat)

  /** What clients can know of the table, without counts, flags or a cache: the objects by their ids,
      the references they hold, which objects were destroyed, which of these when nobody held a
      reference, and which were released, in order. */
  datatype World = World(next: nat, ids: map<int, nat>, held: multiset<nat>, doomed: set<nat>, unheld: set<nat>,
    released: seq<nat>)

  const START := World(0, map[], multiset{}, {}, {}, [])

  predicate Has(ids: map<int, nat>, o: nat) { exists i :: i in ids && ids[i] == o }

  function Minus(ids: map<int, nat>, o: nat): map<int, nat> {
    map i | i in ids && ids[i] != o :: ids[i]
  }

  /** A command's effect. Clients use references they hold; ids are given while they are not in use;
      any object in the table may be destroyed. Other commands are passed over. */
  function After(w: World, c: Command): World {
    match c
    case Create(id) =>
      if id in w.ids then w
      else w.(next := w.next + 1, ids := w.ids[id := w.next], held := w.held + multiset{w.next})
    case Get(id) =>
      if id in w.ids && w.ids[id] !in w.doomed then w.(held := w.held + multiset{w.ids[id]}) else w
    case Ref(o) =>
      if o in w.held then w.(held := w.held + multiset{o}) else w
    case Put(o) =>
      if o !in w.held then w
      else if o in w.doomed && w.held[o] == 1
      then w.(held := w.held - multiset{o}, ids := Minus(w.ids, o), released := w.released + [o])
      else w.(held := w.held - multiset{o})
    case Destroy(o) =>
      if !Has(w.ids, o) then w
      else w.(doomed := w.doomed + {o}, unheld := w.unheld + if w.held[o] == 0 then {o} else {})
  }

  /** The object a command gives: a new one, or one found by its id that was not destroyed. */
  function AnswerTo(w: World, c: Command): Option<nat> {
    match c
    case Create(id) => if id in w.ids then None else Some(w.next)
    case Get(id) => if id in w.ids && w.ids[id] !in w.doomed then Some(w.ids[id]) else None
    case _ => None
  }

  ghost predicate StepAt(commands: seq<Command>, ws: seq<World>, i: nat)
    requires i < |commands| && i + 1 < |ws|
  {
    ws[i + 1] == After(ws[i], commands[i])
  }

  /** What clients know at each moment of a run. */
  ghost predicate IsRun(commands: seq<Command>, ws: seq<World>) {
    && |ws| == |commands| + 1 && ws[0] == START
    && forall i {:trigger StepAt(commands, ws, i)} :: 0 <= i < |commands| ==> StepAt(commands, ws, i)
  }

  /** Every command is answered as it should be. */
  ghost predicate Answers(commands: seq<Command>, ws: seq<World>, answers: seq<Option<nat>>)
    requires |answers| <= |commands| && |answers| < |ws|
  {
    forall i {:trigger answers[i]} :: 0 <= i < |answers| ==> answers[i] == AnswerTo(ws[i], commands[i])
  }

  /** The table with its counts, flags and cache stands for what clients know. */
  ghost predicate Shows(s: State, held: multiset<nat>, w: World) {
    && Good(s, held) && s.tree == w.ids && held == w.held && s.released == w.released
    && ShowsObjects(s.objects, w.next, w.doomed)
    && ShowsStuck(s, w.unheld)
  }

  ghost predicate ShowsObjects(objects: map<nat, Object>, next: nat, doomed: set<nat>) {
    && (forall o: nat :: o in objects <==> o < next)
    && (forall o: nat {:trigger o in doomed} :: o in doomed <==> o in objects && objects[o].destroy)
  }

  ghost predicate ShowsStuck(s: State, unheld: set<nat>) {
    forall o: nat {:trigger s.Stuck(o)} :: s.Stuck(o) <==> o in unheld
  }

  lemma LiveIs(s: State, held: multiset<nat>, o: nat)
    requires Good(s, held)
    ensures s.Live(o) <==> Has(s.tree, o)
  {
    if Has(s.tree, o) {
      var id :| id in s.tree && s.tree[id] == o;
      assert EntryGood(s, id);
    }
  }

  lemma MinusIs(s: State, held: multiset<nat>, o: nat)
    requires Good(s, held) && s.Live(o)
    ensures Minus(s.tree, o) == s.tree - {s.objects[o].id}
  {
    forall i | i in s.tree && s.tree[i] == o
      ensures i == s.objects[o].id
    {
      assert EntryGood(s, i);
    }
  }

  method StepCreate(t: Table, id: int, next: nat, ghost w: World)
    requires Shows(t.Now(), t.held, w) && next == w.next && id !in t.tree
    modifies t
    ensures Shows(t.Now(), t.held, After(w, Create(id)))
  {
    t.Create(next, id);
  }

  method StepGet(t: Table, id: int, ghost w: World) returns (r: Option<nat>)
    requires Shows(t.Now(), t.held, w)
    modifies t
    ensures Shows(t.Now(), t.held, After(w, Get(id))) && r == AnswerTo(w, Get(id))
  {
    if id in t.tree { assert EntryGood(t.Now(), id); }
    r := t.Get(id);
  }

  method StepPut(t: Table, o: nat, ghost w: World)
    requires Shows(t.Now(), t.held, w) && o in t.held
    modifies t
    ensures Shows(t.Now(), t.held, After(w, Put(o)))
  {
    HeldIsLive(t.Now(), t.held, o);
    MinusIs(t.Now(), t.held, o);
    t.Put(o);
  }

  method StepRef(t: Table, o: nat, ghost w: World)
    requires Shows(t.Now(), t.held, w) && o in t.held
    modifies t
    ensures Shows(t.Now(), t.held, After(w, Ref(o)))
  {
    t.Ref(o);
  }

  method StepDestroy(t: Table, o: nat, ghost w: World)
    requires Shows(t.Now(), t.held, w) && Has(t.tree, o)
    modifies t
    ensures Shows(t.Now(), t.held, After(w, Destroy(o)))
  {
    LiveIs(t.Now(), t.held, o);
    t.Destroy(o);
  }

  /** One command. */
  method Step(t: Table, c: Command, next: nat, ghost w: World) returns (r: Option<nat>, next': nat)
    requires Shows(t.Now(), t.held, w) && next == w.next
    modifies t
    ensures Shows(t.Now(), t.held, After(w, c)) && r == AnswerTo(w, c) && next' == After(w, c).next
  {
    r, next' := None, next;
    match c {
      case Create(id) =>
        if id !in t.tree {
          StepCreate(t, id, next, w);
          r, next' := Some(next), next + 1;
        }
      case Get(id) => r := StepGet(t, id, w);
      case Ref(o) => if o in t.held { StepRef(t, o, w); }
      case Put(o) => if o in t.held { StepPut(t, o, w); }
      case Destroy(o) => if Has(t.tree, o) { StepDestroy(t, o, w); }
    }
  }

  /** Every run of commands: the table answers as one that looks every id up, and its counts, flags
      and cache stand for exactly what the commands did. */
  method Run(commands: seq<Command>) returns (t: Table, answers: seq<Option<nat>>, ghost ws: seq<World>)
    ensures IsRun(commands, ws) && |answers| == |commands| && Answers(commands, ws, answers)
    ensures Shows(t.Now(), t.held, ws[|commands|])
  {
    t := new Table();
    answers, ws := [], [START];
    var next: nat := 0;
    for i := 0 to |commands|
      invariant IsRun(commands[..i], ws) && fresh(t) && Shows(t.Now(), t.held, ws[i]) && next == ws[i].next
      invariant |answers| == i && Answers(commands, ws, answers)
    {
      var r;
      r, next := Step(t, commands[i], next, ws[i]);
      RunOn(commands, ws, i);
      ws := ws + [After(ws[i], commands[i])];
      answers := answers + [r];
    }
    assert commands[..|commands|] == commands;
  }

  lemma RunOn(commands: seq<Command>, ws: seq<World>, i: nat)
    requires i < |commands| && IsRun(commands[..i], ws)
    ensures IsRun(commands[..i + 1], ws + [After(ws[i], commands[i])])
  {
    var ws' := ws + [After(ws[i], commands[i])];
    var commands' := commands[..i + 1];
    forall j | 0 <= j < i + 1 ensures StepAt(commands', ws', j) {
      if j < i { assert StepAt(commands[..i], ws, j); }
    }
  }

  // ----- what runs do -----

  /** What holds of an object at every moment of a run. */
  ghost predicate Fate(w: World, o: nat) {
    && (o in w.held || o in w.unheld ==> Has(w.ids, o))
    && (Has(w.ids, o) ==> o < w.next && o !in w.released)
    && (o in w.unheld ==> o in w.doomed && w.held[o] == 0)
    && (o in w.released ==> o in w.doomed && w.held[o] == 0)
    && (o in w.doomed ==> o < w.next && (w.held[o] == 0 ==> o in w.released || o in w.unheld))
  }

  ghost predicate Fates(w: World) {
    && (forall o: nat {:trigger Fate(w, o)} :: Fate(w, o))
    && Distinct(w.released)
  }

  lemma HasMinus(ids: map<int, nat>, o: nat, x: nat)
    ensures Has(Minus(ids, o), x) <==> Has(ids, x) && x != o
  {
    if Has(ids, x) && x != o {
      var i :| i in ids && ids[i] == x;
      assert i in Minus(ids, o) && Minus(ids, o)[i] == x;
    }
  }

  lemma HasPlus(ids: map<int, nat>, id: int, o: nat, x: nat)
    requires id !in ids
    ensures Has(ids[id := o], x) <==> Has(ids, x) || x == o
  {
    var ids' := ids[id := o];
    if Has(ids, x) {
      var i :| i in ids && ids[i] == x;
      assert i in ids' && ids'[i] == x;
    }
    if x == o { assert id in ids' && ids'[id] == x; }
    if Has(ids', x) {
      var i :| i in ids' && ids'[i] == x;
      if i != id { assert i in ids && ids[i] == x; }
    }
  }

  lemma StepFate(w: World, c: Command, o: nat)
    requires Fates(w)
    ensures Fate(After(w, c), o)
  {
    assert Fate(w, o);
    match c
    case Create(id) =>
      assert Fate(w, w.next);
      if id !in w.ids { HasPlus(w.ids, id, w.next, o); }
    case Get(id) =>
      if id in w.ids { assert Has(w.ids, w.ids[id]); }
    case Ref(x) => assert Fate(w, x);
    case Put(x) =>
      assert Fate(w, x);
      HasMinus(w.ids, x, o);
    case Destroy(x) => assert Fate(w, x);
  }

  /** In every run: an object is in the table until it is released, which happens once and only to a
      destroyed object nobody holds; of those, the ones destroyed by a holder are released, and the
      ones destroyed when nobody held them stay. */
  lemma {:induction false} FatesOfRun(commands: seq<Command>, ws: seq<World>, n: nat)
    requires IsRun(commands, ws) && n < |ws|
    ensures Fates(ws[n])
  {
    if n > 0 {
      var w, c := ws[n - 1], commands[n - 1];
      FatesOfRun(commands, ws, n - 1);
      assert StepAt(commands, ws, n - 1);
      StepFates(w, c);
    }
  }

  lemma StepFates(w: World, c: Command)
    requires Fates(w)
    ensures Fates(After(w, c))
  {
    var w' := After(w, c);
    forall o: nat ensures Fate(w', o) {
      StepFate(w, c, o);
    }
    if c.Put? { assert Fate(w, c.o); }
  }

  /** A destroyed object is released exactly if nobody holds it and it was not destroyed while nobody
      held it; then it is released once. */
  lemma ReleasedWhen(commands: seq<Command>, ws: seq<World>, n: nat, o: nat)
    requires IsRun(commands, ws) && n < |ws|
    ensures o in ws[n].released <==> o in ws[n].doomed && o !in ws[n].unheld && ws[n].held[o] == 0
    ensures multiset(ws[n].released)[o] <= 1
  {
    FatesOfRun(commands, ws, n);
    assert Fate(ws[n], o);
    OnceIn(ws[n].released, o);
  }

  /** A command destroys an object that nobody holds. */
  ghost predicate UnheldBy(w: World, c: Command, o: nat) {
    c == Destroy(o) && Has(w.ids, o) && w.held[o] == 0
  }

  lemma UnheldStep(w: World, c: Command, o: nat)
    ensures o in After(w, c).unheld <==> o in w.unheld || UnheldBy(w, c, o)
  {
  }

  /** The objects that are never released are those destroyed at a moment with no reference. */
  lemma {:induction false} UnheldWhen(commands: seq<Command>, ws: seq<World>, n: nat, o: nat)
    requires IsRun(commands, ws) && n < |ws|
    ensures o in ws[n].unheld <==>
      exists i {:trigger UnheldBy(ws[i], commands[i], o)} :: 0 <= i < n && UnheldBy(ws[i], commands[i], o)
  {
    if n > 0 {
      UnheldWhen(commands, ws, n - 1, o);
      assert StepAt(commands, ws, n - 1);
      UnheldStep(ws[n - 1], commands[n - 1], o);
    }
  }

  /** Such an object: created, given back, and destroyed by somebody without a reference. */
  lemma UnheldExample(ws: seq<World>)
    requires IsRun([Create(7), Put(0), Destroy(0)], ws)
    ensures ws[3].ids == map[7 := 0] && ws[3].held == multiset{} && ws[3].unheld == {0} && ws[3].released == []
  {
    var c := [Create(7), Put(0), Destroy(0)];
    assert StepAt(c, ws, 0) && StepAt(c, ws, 1) && StepAt(c, ws, 2);
    assert ws[1] == World(1, map[7 := 0], multiset{0}, {}, {}, []);
    assert ws[2] == World(1, map[7 := 0], multiset{}, {}, {}, []);
    assert 7 in ws[2].ids && Has(ws[2].ids, 0);
  }

  /** Once destroyed, an object is not handed out, however long the run goes on. */
  lemma {:induction false} DestroyedNotGiven(commands: seq<Command>, ws: seq<World>, i: nat, j: nat)
    requires IsRun(commands, ws) && i < j < |commands|
    requires commands[i].Destroy? && Has(ws[i].ids, commands[i].o)
    ensures commands[i].o in ws[j].doomed && AnswerTo(ws[j], commands[j]) != Some(commands[i].o)
    decreases j
  {
    if i < j - 1 { DestroyedNotGiven(commands, ws, i, j - 1); }
    assert StepAt(commands, ws, j - 1);
    DoomedStays(ws[j - 1], commands[j - 1]);
    FatesOfRun(commands, ws, j);
    assert Fate(ws[j], commands[i].o);
  }

  lemma DoomedStays(w: World, c: Command)
    ensures w.doomed <= After(w, c).doomed
    ensures c.Destroy? && Has(w.ids, c.o) ==> c.o in After(w, c).doomed
  {
  }

  // ----- references and ids over a run -----

  /** A command gives a client a reference to the object: it is the answer, or one more of those held. */
  predicate Gives(w: World, c: Command, o: nat) {
    AnswerTo(w, c) == Some(o) || (c == Ref(o) && w.held[o] > 0)
  }

  function Count(commands: seq<Command>, ws: seq<World>, n: nat, o: nat): int
    requires n <= |commands| && n <= |ws|
  {
    if n == 0 then 0
    else
      var w, c := ws[n - 1], commands[n - 1];
      Count(commands, ws, n - 1, o)
      + (if Gives(w, c, o) then 1 else 0) - (if c == Put(o) && w.held[o] > 0 then 1 else 0)
  }

  /** The references held are those that were given and not put back. */
  lemma {:induction false} HeldCounts(commands: seq<Command>, ws: seq<World>, n: nat, o: nat)
    requires IsRun(commands, ws) && n < |ws|
    ensures ws[n].held[o] == Count(commands, ws, n, o)
  {
    if n > 0 {
      HeldCounts(commands, ws, n - 1, o);
      assert StepAt(commands, ws, n - 1);
      HeldStep(ws[n - 1], commands[n - 1], o);
    }
  }

  lemma HeldStep(w: World, c: Command, o: nat)
    ensures After(w, c).held[o]
      == w.held[o] + (if Gives(w, c, o) then 1 else 0) - (if c == Put(o) && w.held[o] > 0 then 1 else 0)
  {
  }

  /** An object is found by the id it was created with until it is destroyed. */
  lemma {:induction false} CreatedIsFound(commands: seq<Command>, ws: seq<World>, i: nat, j: nat, o: nat)
    requires IsRun(commands, ws) && i < j < |ws| && commands[i].Create? && AnswerTo(ws[i], commands[i]) == Some(o)
    requires o !in ws[j].doomed
    ensures AnswerTo(ws[j], Get(commands[i].id)) == Some(o)
    decreases j
  {
    assert StepAt(commands, ws, j - 1);
    DoomedStays(ws[j - 1], commands[j - 1]);
    if i < j - 1 {
      CreatedIsFound(commands, ws, i, j - 1, o);
      IdStays(ws[j - 1], commands[j - 1], commands[i].id, o);
    }
  }

  lemma IdStays(w: World, c: Command, id: int, o: nat)
    requires id in w.ids && w.ids[id] == o && o !in w.doomed
    ensures id in After(w, c).ids && After(w, c).ids[id] == o
  {
  }

  /** A new object is none of those before, and its id was not in use. */
  lemma CreatedIsNew(commands: seq<Command>, ws: seq<World>, i: nat, o: nat)
    requires IsRun(commands, ws) && i < |commands| && commands[i].Create? && AnswerTo(ws[i], commands[i]) == Some(o)
    ensures !Has(ws[i].ids, o) && o !in ws[i].released && ws[i].held[o] == 0 && commands[i].id !in ws[i].ids
  {
    FatesOfRun(commands, ws, i);
    assert Fate(ws[i], o);
  }
}
