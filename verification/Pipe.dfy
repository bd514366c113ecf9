/** Read and write requests on a pipe (phoenix-rtos-posixsrv/pipe.c). Each operation runs under
    the pipe's lock and is one step. */
module Pipe {
  import opened PipeRing

  const EPIPE: int := 32
  const EWOULDBLOCK: int := 11

  datatype Op = ReadOp | WriteOp

  function Other(op: Op): Op { if op.ReadOp? then WriteOp else ReadOp }

  /** A request as it arrives: what a writer sends, or what a reader's buffer held before. */
  datatype Request = Request(id: nat, op: Op, data: seq<Byte>)

  /** A request answered: its error code or count, and what its buffer then holds. */
  datatype Reply = Reply(request: Request, err: int, data: seq<Byte>)

  // ----- the two streams -----

  /** The bytes a reply says were moved. */
  function Moved(y: Reply): seq<Byte> {
    if 0 < y.err <= |y.data| then y.data[..y.err] else []
  }

  function Part(op: Op, y: Reply): seq<Byte> { if y.request.op == op then Moved(y) else [] }

  /** The bytes moved by the answered requests of one kind, in order. */
  function Stream(op: Op, log: seq<Reply>): seq<Byte> {
    if log == [] then [] else Stream(op, log[..|log| - 1]) + Part(op, log[|log| - 1])
  }

  /** A reply that keeps to its request: a writer's bytes are left alone, a reader's buffer beyond
      the count, and the count does not exceed the size. */
  predicate Keeps(y: Reply) {
    && |y.data| == |y.request.data|
    && y.err <= |y.data|
    && (y.request.op.WriteOp? || y.err <= 0 ==> y.data == y.request.data)
    && (y.err > 0 ==> y.data[y.err..] == y.request.data[y.err..])
  }

  predicate AllKeep(log: seq<Reply>) {
    forall i {:trigger Keeps(log[i])} :: 0 <= i < |log| ==> Keeps(log[i])
  }

  function Answered(log: seq<Reply>): multiset<Request> {
    if log == [] then multiset{} else Answered(log[..|log| - 1]) + multiset{log[|log| - 1].request}
  }

  /** The requests that were answered and those that wait. */
  function Count(log: seq<Reply>, queue: seq<Request>): multiset<Request> {
    Answered(log) + multiset(queue)
  }

  lemma {:induction false} StreamAdd(op: Op, log: seq<Reply>, y: Reply)
    ensures Stream(op, log + [y]) == Stream(op, log) + Part(op, y)
  {
    assert (log + [y])[..|log|] == log;
  }

  lemma {:induction false} CountAdd(log: seq<Reply>, queue: seq<Request>, y: Reply)
    ensures Count(log + [y], queue) == Count(log, queue) + multiset{y.request}
  {
    assert (log + [y])[..|log|] == log;
  }

  /** A reader's buffer with bytes put at its beginning. */
  function Filled(q: Request, given: seq<Byte>): (y: Reply)
    requires q.op.ReadOp? && 0 < |given| <= |q.data|
    ensures Keeps(y) && Moved(y) == given && y.request == q && y.err == |given|
  {
    var data := given + q.data[|given|..];
    assert data[..|given|] == given && data[|given|..] == q.data[|given|..];
    Reply(q, |given|, data)
  }

  // ----- the waiting requests -----

  ghost predicate IsOf(op: Op, q: Request) { q.op == op && |q.data| > 0 }

  ghost predicate AllOf(op: Op, queue: seq<Request>) {
    forall i {:trigger IsOf(op, queue[i])} :: 0 <= i < |queue| ==> IsOf(op, queue[i])
  }

  /** All that wait are readers of an empty ring or writers to a full one. */
  ghost predicate WaitFor(queue: seq<Request>, held: nat) {
    && (queue != [] ==> held == 0 || held == PIPE_BUFSZ)
    && (held == 0 ==> AllOf(ReadOp, queue))
    && (held == PIPE_BUFSZ ==> AllOf(WriteOp, queue))
  }

  function Sizes(queue: seq<Request>): nat {
    if queue == [] then 0 else |queue[0].data| + Sizes(queue[1..])
  }

  /** A state between requests: those that wait have to; what readers were given and then what is
      held is what was accepted from writers. */
  ghost predicate Good(held: seq<Byte>, log: seq<Reply>, queue: seq<Request>) {
    && WaitFor(queue, |held|)
    && AllKeep(log)
    && Stream(WriteOp, log) == Stream(ReadOp, log) + held
  }

  /** Requests of one kind were woken from the head of the queue, and `moved` is what they moved. */
  ghost predicate Woken(op: Op, log: seq<Reply>, queue: seq<Request>, log': seq<Reply>, queue': seq<Request>,
    moved: seq<Byte>)
  {
    && AllKeep(log') && AllOf(op, queue')
    && Stream(op, log') == Stream(op, log) + moved
    && Stream(Other(op), log') == Stream(Other(op), log)
    && Count(log', queue') == Count(log, queue)
    && InTurn(log, queue, log', queue')
    && (moved == [] ==> log' == log && queue' == queue)
  }

  /** The replies are to the first requests of the queue, in their order, each of which moved bytes. */
  ghost predicate FromHead(ys: seq<Reply>, queue: seq<Request>, queue': seq<Request>) {
    && |ys| <= |queue| && queue' == queue[|ys|..]
    && forall i {:trigger ys[i]} :: 0 <= i < |ys| ==> ys[i].request == queue[i] && ys[i].err > 0
  }

  /** Requests left the queue from its head, each with a reply. */
  ghost predicate InTurn(log: seq<Reply>, queue: seq<Request>, log': seq<Reply>, queue': seq<Request>) {
    exists ys :: FromHead(ys, queue, queue') && log' == log + ys
  }

  lemma InTurnNone(log: seq<Reply>, queue: seq<Request>)
    ensures InTurn(log, queue, log, queue)
  {
    assert FromHead([], queue, queue) && log == log + [];
  }

  lemma InTurnMore(log: seq<Reply>, queue: seq<Request>, log1: seq<Reply>, queue1: seq<Request>, y: Reply)
    requires InTurn(log, queue, log1, queue1) && queue1 != [] && y.request == queue1[0] && y.err > 0
    ensures InTurn(log, queue, log1 + [y], queue1[1..])
  {
    var ys :| FromHead(ys, queue, queue1) && log1 == log + ys;
    assert FromHead(ys + [y], queue, queue1[1..]) && log1 + [y] == log + (ys + [y]);
  }

  lemma InTurnTwice(log: seq<Reply>, queue: seq<Request>, log1: seq<Reply>, queue1: seq<Request>,
    log2: seq<Reply>, queue2: seq<Request>)
    requires InTurn(log, queue, log1, queue1) && InTurn(log1, queue1, log2, queue2)
    ensures InTurn(log, queue, log2, queue2)
  {
    var ys :| FromHead(ys, queue, queue1) && log1 == log + ys;
    var zs :| FromHead(zs, queue1, queue2) && log2 == log1 + zs;
    HeadsTwice(ys, zs, queue, queue1, queue2);
    Regrouped(log, ys, zs);
  }

  lemma Regrouped(log: seq<Reply>, ys: seq<Reply>, zs: seq<Reply>)
    ensures log + ys + zs == log + (ys + zs)
  {
  }

  lemma HeadsTwice(ys: seq<Reply>, zs: seq<Reply>, queue: seq<Request>, queue1: seq<Request>, queue2: seq<Request>)
    requires FromHead(ys, queue, queue1) && FromHead(zs, queue1, queue2)
    ensures FromHead(ys + zs, queue, queue2)
  {
    var both := ys + zs;
    assert queue2 == queue[|both|..];
    forall i | 0 <= i < |both| ensures both[i].request == queue[i] && both[i].err > 0 {
      if i < |ys| { assert both[i] == ys[i]; } else { assert both[i] == zs[i - |ys|] && queue1[i - |ys|] == queue[i]; }
    }
  }

  lemma {:induction false} WokenNone(op: Op, log: seq<Reply>, queue: seq<Request>)
    requires AllKeep(log) && AllOf(op, queue)
    ensures Woken(op, log, queue, log, queue, [])
  {
    InTurnNone(log, queue);
  }

  lemma {:induction false} HeadAnswered(op: Op, log: seq<Reply>, queue: seq<Request>, y: Reply)
    requires AllOf(op, queue) && queue != [] && y.request == queue[0]
    ensures AllOf(op, queue[1..])
    ensures Stream(op, log + [y]) == Stream(op, log) + Moved(y)
    ensures Stream(Other(op), log + [y]) == Stream(Other(op), log)
  {
    assert IsOf(op, queue[0]);
    StreamAdd(op, log, y);
    StreamAdd(Other(op), log, y);
  }

  lemma {:induction false} HeadCounted(log: seq<Reply>, queue: seq<Request>, y: Reply)
    requires queue != [] && y.request == queue[0]
    ensures Count(log + [y], queue[1..]) == Count(log, queue)
  {
    CountAdd(log, queue[1..], y);
    assert queue == [queue[0]] + queue[1..];
  }

  lemma KeepMore(log: seq<Reply>, y: Reply)
    requires AllKeep(log) && Keeps(y)
    ensures AllKeep(log + [y])
  {
  }

  lemma {:induction false} WokenMore(op: Op, log0: seq<Reply>, queue0: seq<Request>, log: seq<Reply>,
    queue: seq<Request>,
    moved: seq<Byte>, y: Reply)
    requires Woken(op, log0, queue0, log, queue, moved)
    requires queue != [] && y.request == queue[0] && Keeps(y) && y.err > 0
    ensures Woken(op, log0, queue0, log + [y], queue[1..], moved + Moved(y))
  {
    HeadAnswered(op, log, queue, y);
    HeadCounted(log, queue, y);
    KeepMore(log, y);
    InTurnMore(log0, queue0, log, queue, y);
    Onto(Stream(op, log0), moved, Moved(y));
  }

  lemma {:induction false} WokenTwice(op: Op, log: seq<Reply>, queue: seq<Request>, log1: seq<Reply>,
    queue1: seq<Request>, a: seq<Byte>,
    log2: seq<Reply>, queue2: seq<Request>, b: seq<Byte>)
    requires Woken(op, log, queue, log1, queue1, a) && Woken(op, log1, queue1, log2, queue2, b)
    ensures Woken(op, log, queue, log2, queue2, a + b)
  {
    Onto(Stream(op, log), a, b);
    InTurnTwice(log, queue, log1, queue1, log2, queue2);
  }

  lemma {:induction false} Onto(s: seq<Byte>, a: seq<Byte>, b: seq<Byte>)
    ensures s + a + b == s + (a + b)
    ensures a + b == [] ==> a == [] && b == []
  {
    if a + b == [] {
      assert |a + b| == |a| + |b|;
    }
  }

  /** A waiting reader is given the next bytes of the data. */
  lemma {:induction false} FedMore(log0: seq<Reply>, queue0: seq<Request>, log: seq<Reply>, queue: seq<Request>,
    data: seq<Byte>, n: nat, c: nat)
    requires n + c <= |data| && Woken(ReadOp, log0, queue0, log, queue, data[..n])
    requires queue != [] && queue[0].op.ReadOp? && 0 < c <= |queue[0].data|
    ensures Woken(ReadOp, log0, queue0, log + [Filled(queue[0], data[n..n + c])], queue[1..], data[..n + c])
  {
    WokenMore(ReadOp, log0, queue0, log, queue, data[..n], Filled(queue[0], data[n..n + c]));
    assert data[..n + c] == data[..n] + data[n..n + c];
  }

  lemma {:induction false} HeadIs(op: Op, queue: seq<Request>)
    requires AllOf(op, queue) && queue != []
    ensures IsOf(op, queue[0]) && Sizes(queue) == |queue[0].data| + Sizes(queue[1..])
  {
  }

  // ----- what a request does to the state -----

  /** The reply to a request that moved nothing. */
  lemma {:induction false} Refused(held: seq<Byte>, log: seq<Reply>, queue: seq<Request>, q: Request, err: int)
    requires Good(held, log, queue) && err <= 0
    ensures var log' := log + [Reply(q, err, q.data)];
      Good(held, log', queue) && Count(log', queue) == Count(log, queue) + multiset{q}
  {
    var y := Reply(q, err, q.data);
    StreamAdd(WriteOp, log, y);
    StreamAdd(ReadOp, log, y);
    CountAdd(log, queue, y);
    KeepMore(log, y);
  }

  lemma {:induction false} Delayed(held: seq<Byte>, log: seq<Reply>, queue: seq<Request>, q: Request)
    requires Good(held, log, queue) && |q.data| > 0
    requires |held| == if q.op.ReadOp? then 0 else PIPE_BUFSZ
    ensures Good(held, log, queue + [q]) && Count(log, queue + [q]) == Count(log, queue) + multiset{q}
  {
  }

  /** A writer's bytes, given to waiting readers of an empty ring or put behind what is held. */
  lemma {:induction false} WriterServed(held: seq<Byte>, log: seq<Reply>, queue: seq<Request>, log': seq<Reply>,
    queue': seq<Request>,
    q: Request, n: nat, c: nat)
    requires Good(held, log, queue) && q.op.WriteOp? && 0 < n + c <= |q.data|
    requires if n == 0 then log' == log && queue' == queue
      else held == [] && Woken(ReadOp, log, queue, log', queue', q.data[..n])
    requires c > 0 ==> queue' == []
    ensures var y := Reply(q, n + c, q.data);
      && Good(held + q.data[n..n + c], log' + [y], queue')
      && Count(log' + [y], queue') == Count(log, queue) + multiset{q}
  {
    var y := Reply(q, n + c, q.data);
    CountAdd(log', queue', y);
    KeepMore(log', y);
    assert WaitFor(queue', |held + q.data[n..n + c]|);
    assert Stream(WriteOp, log' + [y]) == Stream(ReadOp, log' + [y]) + (held + q.data[n..n + c]) by {
      StreamAdd(WriteOp, log', y);
      StreamAdd(ReadOp, log', y);
      assert Part(ReadOp, y) == [] && Part(WriteOp, y) == q.data[..n + c];
      assert q.data[..n + c] == q.data[..n] + q.data[n..n + c];
      Onto(Stream(ReadOp, log), q.data[..n], q.data[n..n + c]);
      if n == 0 {
        Onto(Stream(ReadOp, log), held, q.data[n..n + c]);
      }
    }
  }

  lemma {:induction false} StreamsMeet(s: seq<Byte>, first: seq<Byte>, rest: seq<Byte>, a: seq<Byte>, b: seq<Byte>)
    requires a != [] ==> rest == []
    ensures s + (first + rest) + (a + b) == s + (first + a) + (rest + b)
  {
    Onto(s, first + rest, a + b);
    Onto(s, first + a, rest + b);
    assert first + rest + (a + b) == first + a + (rest + b);
  }

  /** A reader's bytes, taken from what is held and then from waiting writers, others of which then
      fill the room. */
  lemma {:induction false} ReaderServed(first: seq<Byte>, rest: seq<Byte>, log: seq<Reply>, queue: seq<Request>,
    log': seq<Reply>, queue': seq<Request>,
    q: Request, a: seq<Byte>, b: seq<Byte>)
    requires Good(first + rest, log, queue) && q.op.ReadOp? && 0 < |first + a| <= |q.data|
    requires Woken(WriteOp, log, queue, log', queue', a + b)
    requires a != [] ==> rest == []
    requires queue' == [] || |rest + b| == PIPE_BUFSZ
    ensures var y := Filled(q, first + a);
      && Good(rest + b, log' + [y], queue')
      && Count(log' + [y], queue') == Count(log, queue) + multiset{q}
  {
    var y := Filled(q, first + a);
    CountAdd(log', queue', y);
    KeepMore(log', y);
    assert Stream(WriteOp, log' + [y]) == Stream(ReadOp, log' + [y]) + (rest + b) by {
      StreamAdd(WriteOp, log', y);
      StreamAdd(ReadOp, log', y);
      assert Part(WriteOp, y) == [] && Part(ReadOp, y) == first + a;
      StreamsMeet(Stream(ReadOp, log), first, rest, a, b);
    }
  }

  /** The request `q` is answered with the count `n`, after the first of those that waited. */
  ghost predicate Answers(q: Request, n: nat, log: seq<Reply>, queue: seq<Request>, log': seq<Reply>,
    queue': seq<Request>)
  {
    && log' != [] && log'[|log'| - 1].request == q && log'[|log'| - 1].err == n
    && InTurn(log, queue, log'[..|log'| - 1], queue')
  }

  /** What becomes of a request for which `room` bytes could be moved at once: it moves as many as
      it can, or waits, or is turned away. */
  ghost predicate Accepted(q: Request, nonblock: bool, room: nat, log: seq<Reply>, queue: seq<Request>,
    log': seq<Reply>, queue': seq<Request>)
  {
    var n := Min(|q.data|, room);
    if n > 0 then Answers(q, n, log, queue, log', queue')
    else if nonblock then log' == log + [Reply(q, -EWOULDBLOCK, q.data)] && queue' == queue
    else log' == log && queue' == queue + [q]
  }

  /** A request as it is issued, with what decides whether it may wait. */
  datatype Call = Call(request: Request, nonblock: bool, busy: bool)

  /** What the pipe holds, the replies so far and the requests that wait. */
  datatype Moment = Moment(held: seq<Byte>, log: seq<Reply>, queue: seq<Request>) {
    /** The bytes that can be taken from a writer now. */
    function Room(): int {
      if |held| == PIPE_BUFSZ then 0 else Sizes(queue) + PIPE_BUFSZ - |held|
    }

    /** The bytes that can be given to a reader now. */
    function Avail(): nat {
      |held| + if |held| == PIPE_BUFSZ then Sizes(queue) else 0
    }

    function Away(q: Request, err: int): Moment { this.(log := log + [Reply(q, err, q.data)]) }
  }

  /** What every request does: none without bytes, a broken pipe for a writer without readers, an end
      for a reader of an empty pipe without writers, and otherwise as many bytes as can be moved. */
  ghost predicate Served(rrefs: nat, wrefs: nat, c: Call, m: Moment, m': Moment) {
    var q := c.request;
    if |q.data| == 0 then m' == m.Away(q, 0)
    else if c.nonblock && c.busy then m' == m.Away(q, -EWOULDBLOCK)
    else if q.op.WriteOp? && rrefs == 0 then m' == m.Away(q, -EPIPE)
    else if q.op.ReadOp? && wrefs == 0 && m.Avail() == 0 then m' == m.Away(q, 0)
    else
      var room := if q.op.WriteOp? then m.Room() else m.Avail();
      room >= 0 && Accepted(q, c.nonblock, room, m.log, m.queue, m'.log, m'.queue)
  }

  class Pipe {
    const ring: Ring
    var rrefs: nat
    var wrefs: nat
    var queue: seq<Request>
    /** The replies given so far. */
    var log: seq<Reply>

    constructor (rrefs: nat, wrefs: nat)
      ensures Valid() && fresh(ring) && fresh(ring.buf)
      ensures queue == [] && log == [] && ring.Contents() == [] && this.rrefs == rrefs && this.wrefs == wrefs
    {
      ring := new Ring();
      this.rrefs, this.wrefs, queue, log := rrefs, wrefs, [], [];
    }

    ghost predicate Valid()
      reads this, ring, ring.buf
    {
      ring.Valid() && Good(ring.Contents(), log, queue)
    }

    ghost function Now(): Moment
      reads this, ring, ring.buf
      requires ring.Valid()
    {
      Moment(ring.Contents(), log, queue)
    }

    ghost function Requests(): multiset<Request>
      reads this
    {
      Count(log, queue)
    }

    /** `_pipe_wakeup` of the request at the head of the queue. */
    method Wakeup(err: int, data: seq<Byte>)
      requires queue != []
      modifies this`log, this`queue
      ensures queue == old(queue)[1..] && log == old(log) + [Reply(old(queue)[0], err, data)]
    {
      log := log + [Reply(queue[0], err, data)];
      queue := queue[1..];
    }

    /** A request answered with nothing moved. */
    method Refuse(q: Request, err: int)
      requires Valid() && err <= 0
      modifies this`log
      ensures Valid() && Requests() == old(Requests()) + multiset{q}
      ensures Now() == old(Now()).Away(q, err)
    {
      Refused(ring.Contents(), log, queue, q, err);
      log := log + [Reply(q, err, q.data)];
    }

    /** A request that can move nothing is turned away or waits. */
    method Delay(q: Request, nonblock: bool)
      requires Valid() && |q.data| > 0 && |ring.Contents()| == if q.op.ReadOp? then 0 else PIPE_BUFSZ
      modifies this`log, this`queue
      ensures Valid() && Requests() == old(Requests()) + multiset{q}
      ensures Accepted(q, nonblock, 0, old(log), old(queue), log, queue)
    {
      if nonblock {
        Refuse(q, -EWOULDBLOCK);
      } else {
        Delayed(ring.Contents(), log, queue, q);
        queue := queue + [q];
      }
    }

    // ----- writing -----

    /** The loop of `pipe_write_op` that gives bytes to waiting readers. */
    method FeedReaders(data: seq<Byte>) returns (bytes: nat)
      requires AllOf(ReadOp, queue) && AllKeep(log) && !ring.full
      modifies this`log, this`queue
      ensures bytes == Min(|data|, Sizes(old(queue)))
      ensures Woken(ReadOp, old(log), old(queue), log, queue, data[..bytes])
      ensures bytes < |data| ==> queue == []
    {
      bytes := 0;
      WokenNone(ReadOp, log, queue);
      while queue != [] && !ring.full && bytes < |data|
        invariant bytes <= |data| && bytes <= Sizes(old(queue))
        invariant Woken(ReadOp, old(log), old(queue), log, queue, data[..bytes])
        invariant bytes < |data| ==> Sizes(old(queue)) == bytes + Sizes(queue)
        decreases |queue|
      {
        HeadIs(ReadOp, queue);
        var c := Min(|data| - bytes, |queue[0].data|);
        var y := Filled(queue[0], data[bytes..bytes + c]);
        FedMore(old(log), old(queue), log, queue, data, bytes, c);
        Wakeup(y.err, y.data);
        bytes := bytes + c;
      }
    }

    /** The writer is answered with what readers and the ring took. */
    method Took(q: Request, n: nat, c: nat, ghost held: seq<Byte>, ghost log0: seq<Reply>, ghost queue0: seq<Request>)
      requires Good(held, log0, queue0) && q.op.WriteOp? && 0 < n + c <= |q.data|
      requires ring.Valid() && ring.Contents() == held + q.data[n..n + c]
      requires if n == 0 then log == log0 && queue == queue0
        else held == [] && Woken(ReadOp, log0, queue0, log, queue, q.data[..n])
      requires c > 0 ==> queue == []
      modifies this`log
      ensures Valid() && Requests() == Count(log0, queue0) + multiset{q}
      ensures Answers(q, n + c, log0, queue0, log, queue)
    {
      WriterServed(held, log0, queue0, log, queue, q, n, c);
      if n == 0 { InTurnNone(log0, queue0); }
      ghost var before := log;
      log := log + [Reply(q, n + c, q.data)];
      assert log[..|log| - 1] == before;
    }

    /** What waiting readers left of a writer's bytes goes into the ring. */
    method Store(q: Request, nonblock: bool, bytes: nat, ghost log0: seq<Reply>, ghost queue0: seq<Request>)
      requires ring.Valid() && Good(ring.Contents(), log0, queue0) && q.op.WriteOp? && |q.data| > 0
      requires bytes == if ring.full then 0 else Min(|q.data|, Sizes(queue0))
      requires if bytes == 0 then log == log0 && queue == queue0
        else ring.Contents() == [] && Woken(ReadOp, log0, queue0, log, queue, q.data[..bytes])
      requires !ring.full && bytes < |q.data| ==> queue == []
      modifies this`log, this`queue, ring`w, ring`full, ring.buf
      ensures Valid() && Requests() == Count(log0, queue0) + multiset{q}
      ensures var room := Moment(old(ring.Contents()), log0, queue0).Room();
        room >= 0 && Accepted(q, nonblock, room, log0, queue0, log, queue)
    {
      ring.FullAndEmpty();
      ghost var held := ring.Contents();
      ghost var room := Moment(held, log0, queue0).Room();
      var c := ring.Write(q.data[bytes..]);
      assert bytes + c == Min(|q.data|, room);
      ring.FullAndEmpty();
      if bytes + c > 0 {
        assert q.data[bytes..][..c] == q.data[bytes..bytes + c];
        Took(q, bytes, c, held, log0, queue0);
      } else {
        Delay(q, nonblock);
      }
    }

    /** Bytes of a writer go to waiting readers, then into the ring. */
    method Accept(q: Request, nonblock: bool)
      requires Valid() && q.op.WriteOp? && |q.data| > 0
      modifies this`log, this`queue, ring`w, ring`full, ring.buf
      ensures Valid() && Requests() == old(Requests()) + multiset{q}
      ensures var room := old(Now()).Room(); room >= 0 && Accepted(q, nonblock, room, old(log), old(queue), log, queue)
    {
      ring.FullAndEmpty();
      var bytes := 0;
      if !ring.full { bytes := FeedReaders(q.data); }
      Store(q, nonblock, bytes, old(log), old(queue));
    }

    /** `pipe_write_op`; `busy` says that a try of the lock fails. */
    method WriteRequest(q: Request, nonblock: bool, busy: bool)
      requires Valid() && q.op.WriteOp?
      modifies this`log, this`queue, ring`w, ring`full, ring.buf
      ensures Valid() && Requests() == old(Requests()) + multiset{q}
      ensures Served(rrefs, wrefs, Call(q, nonblock, busy), old(Now()), Now())
    {
      if |q.data| == 0 {
        Refuse(q, 0);
      } else if nonblock && busy {
        Refuse(q, -EWOULDBLOCK);
      } else if rrefs == 0 {
        Refuse(q, -EPIPE);
      } else {
        Accept(q, nonblock);
      }
    }
  
    // ----- reading -----

    /** The loop of `pipe_read_op` that takes bytes from waiting writers. */
    method TakeFromWriters(sz: nat) returns (moved: seq<Byte>)
      requires AllOf(WriteOp, queue) && AllKeep(log)
      modifies this`log, this`queue
      ensures |moved| == Min(sz, Sizes(old(queue)))
      ensures Woken(WriteOp, old(log), old(queue), log, queue, moved)
    {
      moved := [];
      WokenNone(WriteOp, log, queue);
      while queue != [] && |moved| < sz
        invariant |moved| <= sz && |moved| <= Sizes(old(queue))
        invariant Woken(WriteOp, old(log), old(queue), log, queue, moved)
        invariant |moved| < sz ==> Sizes(old(queue)) == |moved| + Sizes(queue)
        decreases |queue|
      {
        HeadIs(WriteOp, queue);
        var q := queue[0];
        var c: nat := Min(sz - |moved|, |q.data|);
        WokenMore(WriteOp, old(log), old(queue), log, queue, moved, Reply(q, c, q.data));
        Wakeup(c, q.data);
        moved := moved + q.data[..c];
      }
    }

    /** The loop of `pipe_read_op` that lets waiting writers fill the ring. */
    method Discharge() returns (ghost moved: seq<Byte>)
      requires AllOf(WriteOp, queue) && AllKeep(log) && ring.Valid()
      modifies this`log, this`queue, ring`w, ring`full, ring.buf
      ensures ring.Valid() && ring.Contents() == old(ring.Contents()) + moved
      ensures Woken(WriteOp, old(log), old(queue), log, queue, moved)
      ensures queue == [] || |ring.Contents()| == PIPE_BUFSZ
    {
      moved := [];
      WokenNone(WriteOp, log, queue);
      while queue != []
        invariant ring.Valid() && ring.Contents() == old(ring.Contents()) + moved
        invariant Woken(WriteOp, old(log), old(queue), log, queue, moved)
        decreases |queue|
      {
        var q := queue[0];
        assert IsOf(WriteOp, q);
        ring.FullAndEmpty();
        ghost var before := ring.Contents();
        var c := ring.Write(q.data);
        if c == 0 { break; }
        WokenMore(WriteOp, old(log), old(queue), log, queue, moved, Reply(q, c, q.data));
        Wakeup(c, q.data);
        Onto(old(ring.Contents()), moved, q.data[..c]);
        moved := moved + q.data[..c];
      }
    }

    /** Waiting writers give a reader what it still needs, others fill the ring. */
    method Refill(need: nat) returns (more: seq<Byte>, ghost filled: seq<Byte>)
      requires AllOf(WriteOp, queue) && AllKeep(log) && ring.Valid()
      modifies this`log, this`queue, ring`w, ring`full, ring.buf
      ensures ring.Valid() && ring.Contents() == old(ring.Contents()) + filled
      ensures Woken(WriteOp, old(log), old(queue), log, queue, more + filled)
      ensures |more| == Min(need, Sizes(old(queue)))
      ensures queue == [] || |ring.Contents()| == PIPE_BUFSZ
    {
      more := TakeFromWriters(need);
      ghost var log1, queue1 := log, queue;
      filled := Discharge();
      WokenTwice(WriteOp, old(log), old(queue), log1, queue1, more, log, queue, filled);
    }

    /** Bytes for a reader from the ring, then from waiting writers, others of which fill the ring. */
    method Provide(q: Request)
      requires Valid() && q.op.ReadOp? && |q.data| > 0 && ring.Contents() != []
      modifies this`log, this`queue, ring`r, ring`w, ring`full, ring.buf
      ensures Valid() && Requests() == old(Requests()) + multiset{q}
      ensures Answers(q, Min(|q.data|, old(Now()).Avail()), old(log), old(queue), log, queue)
    {
      ring.FullAndEmpty();
      var wasFull := ring.full;
      var first := ring.Read(|q.data|);
      ghost var rest := ring.Contents();
      var more := [];
      ghost var filled := [];
      if wasFull {
        more, filled := Refill(|q.data| - |first|);
      } else {
        assert queue == [];
        WokenNone(WriteOp, log, queue);
      }
      Give(q, first, rest, more, filled, old(log), old(queue));
    }

    /** The reader is answered with the bytes from the ring and from waiting writers. */
    method Give(q: Request, first: seq<Byte>, ghost rest: seq<Byte>, more: seq<Byte>, ghost filled: seq<Byte>,
      ghost log0: seq<Reply>, ghost queue0: seq<Request>)
      requires ring.Valid() && ring.Contents() == rest + filled
      requires Good(first + rest, log0, queue0) && q.op.ReadOp? && 0 < |first + more| <= |q.data|
      requires Woken(WriteOp, log0, queue0, log, queue, more + filled)
      requires more != [] ==> rest == []
      requires queue == [] || |rest + filled| == PIPE_BUFSZ
      modifies this`log
      ensures Valid() && Requests() == Count(log0, queue0) + multiset{q}
      ensures Answers(q, |first| + |more|, log0, queue0, log, queue)
    {
      ReaderServed(first, rest, log0, queue0, log, queue, q, more, filled);
      ghost var before := log;
      log := log + [Filled(q, first + more)];
      assert log[..|log| - 1] == before;
    }

    /** `pipe_read_op`; `busy` says that a try of the lock fails. */
    method ReadRequest(q: Request, nonblock: bool, busy: bool)
      requires Valid() && q.op.ReadOp?
      modifies this`log, this`queue, ring`r, ring`w, ring`full, ring.buf
      ensures Valid() && Requests() == old(Requests()) + multiset{q}
      ensures Served(rrefs, wrefs, Call(q, nonblock, busy), old(Now()), Now())
    {
      if |q.data| == 0 {
        Refuse(q, 0);
      } else if nonblock && busy {
        Refuse(q, -EWOULDBLOCK);
      } else {
        Obtain(q, nonblock);
      }
    }

    /** Bytes for a reader; one that can get none is at the end, or waits or is turned away. */
    method Obtain(q: Request, nonblock: bool)
      requires Valid() && q.op.ReadOp? && |q.data| > 0
      modifies this`log, this`queue, ring`r, ring`w, ring`full, ring.buf
      ensures Valid() && Requests() == old(Requests()) + multiset{q}
      ensures if wrefs == 0 && old(Now()).Avail() == 0 then Now() == old(Now()).Away(q, 0)
        else Accepted(q, nonblock, old(Now()).Avail(), old(log), old(queue), log, queue)
    {
      ring.FullAndEmpty();
      ghost var m := Now();
      if ring.full || ring.r != ring.w {
        assert m.Avail() > 0;
        Provide(q);
      } else if wrefs == 0 {
        Refuse(q, 0);
      } else {
        Delay(q, nonblock);
      }
    }

    /** A request of either kind. */
    method Handle(c: Call)
      requires Valid()
      modifies this`log, this`queue, ring`r, ring`w, ring`full, ring.buf
      ensures Valid() && Requests() == old(Requests()) + multiset{c.request}
      ensures Served(rrefs, wrefs, c, old(Now()), Now())
    {
      if c.request.op.ReadOp? {
        ReadRequest(c.request, c.nonblock, c.busy);
      } else {
        WriteRequest(c.request, c.nonblock, c.busy);
      }
    }
  }

  function Issued(calls: seq<Call>): multiset<Request> {
    if calls == [] then multiset{} else Issued(calls[..|calls| - 1]) + multiset{calls[|calls| - 1].request}
  }

  lemma {:induction false} IssuedStep(calls: seq<Call>, i: nat)
    requires i < |calls|
    ensures Issued(calls[..i + 1]) == Issued(calls[..i]) + multiset{calls[i].request}
  {
    assert calls[..i + 1][..i] == calls[..i];
  }

  ghost predicate ServedAt(rrefs: nat, wrefs: nat, calls: seq<Call>, ms: seq<Moment>, i: nat)
    requires i < |calls| && i + 1 < |ms|
  {
    Served(rrefs, wrefs, calls[i], ms[i], ms[i + 1]) && Good(ms[i + 1].held, ms[i + 1].log, ms[i + 1].queue)
  }

  /** The moments of a run on a new pipe: every request is served as it should be. */
  ghost predicate IsRun(rrefs: nat, wrefs: nat, calls: seq<Call>, ms: seq<Moment>) {
    && |ms| == |calls| + 1 && ms[0] == Moment([], [], [])
    && forall i {:trigger ServedAt(rrefs, wrefs, calls, ms, i)} ::
      0 <= i < |calls| ==> ServedAt(rrefs, wrefs, calls, ms, i)
  }

  lemma RunOn(rrefs: nat, wrefs: nat, calls: seq<Call>, ms: seq<Moment>, i: nat, m: Moment)
    requires i < |calls| && |ms| == i + 1
    ensures (
      && IsRun(rrefs, wrefs, calls[..i], ms)
      && Served(rrefs, wrefs, calls[i], ms[i], m) && Good(m.held, m.log, m.queue))
      ==> IsRun(rrefs, wrefs, calls[..i + 1], ms + [m])
  {
    var calls', ms' := calls[..i + 1], ms + [m];
    if IsRun(rrefs, wrefs, calls[..i], ms) && Served(rrefs, wrefs, calls[i], ms[i], m) && Good(m.held, m.log, m.queue) {
      forall j | 0 <= j < i + 1 ensures ServedAt(rrefs, wrefs, calls', ms', j) {
        if j < i { assert ServedAt(rrefs, wrefs, calls[..i], ms, j); }
      }
    }
  }

  /** Every run of requests on a new pipe: at each moment readers got the writers' bytes in order and
      the rest is in the ring; each request moves all it can, is turned away or waits, those that
      wait in turn; and each is answered once or waits. */
  method Run(rrefs: nat, wrefs: nat, calls: seq<Call>)
    returns (log: seq<Reply>, queue: seq<Request>, held: seq<Byte>, ghost ms: seq<Moment>)
    ensures IsRun(rrefs, wrefs, calls, ms) && ms[|calls|] == Moment(held, log, queue)
    ensures Good(held, log, queue) && Count(log, queue) == Issued(calls)
  {
    var p := new Pipe(rrefs, wrefs);
    ms := [Moment([], [], [])];
    for i := 0 to |calls|
      invariant p.Valid() && fresh(p) && fresh(p.ring) && fresh(p.ring.buf) && p.rrefs == rrefs && p.wrefs == wrefs
      invariant IsRun(rrefs, wrefs, calls[..i], ms) && ms[i] == p.Now()
      invariant p.Requests() == Issued(calls[..i])
    {
      p.Handle(calls[i]);
      IssuedStep(calls, i);
      RunOn(rrefs, wrefs, calls, ms, i, p.Now());
      ms := ms + [p.Now()];
    }
    assert calls[..|calls|] == calls;
    log, queue := p.log, p.queue;
    held := p.ring.All();
  }
}
