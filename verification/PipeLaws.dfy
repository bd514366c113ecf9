/** What runs of requests on a pipe mean to the readers and writers: laws on their replies. */
module PipeLaws {
  import opened PipeRing
  import opened Pipe

  /** A request that asks for something and may be served. */
  predicate Asks(c: Call, op: Op) {
    c.request.op == op && c.request.data != [] && !(c.nonblock && c.busy)
  }

  // ----- requests that move nothing -----

  /** Without readers a writer is told that the pipe is broken; without writers a reader of an empty
      pipe gets to the end of it; a request for nothing is answered with 0. Nothing else changes. */
  lemma BrokenLaw(rrefs: nat, wrefs: nat, calls: seq<Call>, ms: seq<Moment>, i: nat)
    requires IsRun(rrefs, wrefs, calls, ms) && i < |calls|
    ensures var q, m, m' := calls[i].request, ms[i], ms[i + 1];
      && (Asks(calls[i], WriteOp) && rrefs == 0 ==> m' == m.(log := m.log + [Reply(q, -32, q.data)]))
      && (Asks(calls[i], ReadOp) && wrefs == 0 && m.held == [] ==> m' == m.(log := m.log + [Reply(q, 0, q.data)]))
      && (q.data == [] ==> m' == m.(log := m.log + [Reply(q, 0, [])]))
  {
    assert ServedAt(rrefs, wrefs, calls, ms, i);
  }

  /** A reader of an empty pipe and a writer to a full one wait, behind those that wait already; if they
      may not wait they are told so. */
  lemma WaitLaw(rrefs: nat, wrefs: nat, calls: seq<Call>, ms: seq<Moment>, i: nat)
    requires IsRun(rrefs, wrefs, calls, ms) && i < |calls|
    requires (Asks(calls[i], ReadOp) && wrefs > 0 && ms[i].held == [])
      || (Asks(calls[i], WriteOp) && rrefs > 0 && |ms[i].held| == PIPE_BUFSZ)
    ensures var q, m, m' := calls[i].request, ms[i], ms[i + 1];
      if calls[i].nonblock then m'.log == m.log + [Reply(q, -11, q.data)] && m'.queue == m.queue
      else m'.log == m.log && m'.queue == m.queue + [q]
  {
    assert ServedAt(rrefs, wrefs, calls, ms, i);
  }

  // ----- requests that are answered at once -----

  lemma GoodAt(rrefs: nat, wrefs: nat, calls: seq<Call>, ms: seq<Moment>, i: nat)
    requires IsRun(rrefs, wrefs, calls, ms) && i < |ms|
    ensures Good(ms[i].held, ms[i].log, ms[i].queue)
  {
    if i > 0 { assert ServedAt(rrefs, wrefs, calls, ms, i - 1); }
  }

  /** With nobody waiting a request is answered alone. */
  lemma Alone(q: Request, n: nat, m: Moment, m': Moment)
    requires m.queue == [] && Answers(q, n, m.log, m.queue, m'.log, m'.queue)
    ensures m'.queue == [] && |m'.log| == |m.log| + 1 && m'.log[..|m.log|] == m.log
    ensures m'.log[|m.log|].request == q && m'.log[|m.log|].err == n
  {
    var before := m'.log[..|m'.log| - 1];
    var ys :| FromHead(ys, m.queue, m'.queue) && before == m.log + ys;
    assert ys == [] && before == m.log;
  }

  /** The streams of a log with one reply more. */
  lemma OneReply(op: Op, log: seq<Reply>, log': seq<Reply>)
    requires |log'| == |log| + 1 && log'[..|log|] == log
    ensures Stream(op, log') == Stream(op, log) + Part(op, log'[|log|])
  {
    assert log' == log + [log'[|log|]];
    StreamAdd(op, log, log'[|log|]);
  }

  /** With nobody waiting a writer is taken as many bytes as there is room for, which go behind those
      that are held. */
  lemma WriteLaw(rrefs: nat, wrefs: nat, calls: seq<Call>, ms: seq<Moment>, i: nat)
    requires IsRun(rrefs, wrefs, calls, ms) && i < |calls| && Asks(calls[i], WriteOp) && rrefs > 0
    requires ms[i].queue == [] && |ms[i].held| < PIPE_BUFSZ
    ensures var d, m, m' := calls[i].request.data, ms[i], ms[i + 1];
      var n := if |d| < PIPE_BUFSZ - |m.held| then |d| else PIPE_BUFSZ - |m.held|;
      m'.log == m.log + [Reply(calls[i].request, n, d)] && m'.queue == [] && m'.held == m.held + d[..n]
  {
    GoodAt(rrefs, wrefs, calls, ms, i);
    var q, m, m' := calls[i].request, ms[i], ms[i + 1];
    assert ServedAt(rrefs, wrefs, calls, ms, i);
    var n := Min(|q.data|, m.Room());
    Alone(q, n, m, m');
    OneReply(WriteOp, m.log, m'.log);
    OneReply(ReadOp, m.log, m'.log);
    var y := m'.log[|m.log|];
    assert Keeps(y);
    assert m'.log == m.log + [y] && y == Reply(q, n, q.data);
    Behind(Stream(ReadOp, m.log), m.held, q.data[..n], m'.held);
  }

  lemma Behind(given: seq<Byte>, held: seq<Byte>, d: seq<Byte>, held': seq<Byte>)
    requires given + held + d == given + held'
    ensures held' == held + d
  {
    assert (given + held + d)[|given|..] == held + d && (given + held')[|given|..] == held';
  }

  /** With nobody waiting a reader is given the oldest bytes that are held, as many as it has room for;
      the rest of its buffer stays as it was. */
  lemma ReadLaw(rrefs: nat, wrefs: nat, calls: seq<Call>, ms: seq<Moment>, i: nat)
    requires IsRun(rrefs, wrefs, calls, ms) && i < |calls| && Asks(calls[i], ReadOp)
    requires ms[i].queue == [] && ms[i].held != []
    ensures var d, m, m' := calls[i].request.data, ms[i], ms[i + 1];
      var n := if |d| < |m.held| then |d| else |m.held|;
      && m'.log == m.log + [Reply(calls[i].request, n, m.held[..n] + d[n..])]
      && m'.queue == [] && m'.held == m.held[n..]
  {
    GoodAt(rrefs, wrefs, calls, ms, i);
    var q, m, m' := calls[i].request, ms[i], ms[i + 1];
    assert ServedAt(rrefs, wrefs, calls, ms, i);
    var n := Min(|q.data|, m.Avail());
    Alone(q, n, m, m');
    OneReply(WriteOp, m.log, m'.log);
    OneReply(ReadOp, m.log, m'.log);
    var y := m'.log[|m.log|];
    assert Keeps(y);
    assert m'.log == m.log + [y] && y == Reply(q, n, y.data);
    Front(Stream(ReadOp, m.log), m.held, y.data[..n], m'.held);
    assert y.data == y.data[..n] + y.data[n..];
  }

  lemma Front(given: seq<Byte>, held: seq<Byte>, d: seq<Byte>, held': seq<Byte>)
    requires given + held == given + d + held'
    ensures held == d + held' && held[..|d|] == d && held[|d|..] == held'
  {
    assert (given + held)[|given|..] == held && (given + d + held')[|given|..] == d + held';
  }

  lemma WriteAll(rrefs: nat, wrefs: nat, calls: seq<Call>, ms: seq<Moment>, i: nat)
    requires IsRun(rrefs, wrefs, calls, ms) && i < |calls| && Asks(calls[i], WriteOp) && rrefs > 0
    requires ms[i].queue == [] && ms[i].held == []
    requires |calls[i].request.data| <= PIPE_BUFSZ
    ensures var q, m, m' := calls[i].request, ms[i], ms[i + 1];
      && m'.log == m.log + [Reply(q, |q.data|, q.data)] && m'.queue == [] && m'.held == q.data
  {
    var d := calls[i].request.data;
    WriteLaw(rrefs, wrefs, calls, ms, i);
    assert d[..|d|] == d && [] + d == d;
  }

  lemma ReadAll(rrefs: nat, wrefs: nat, calls: seq<Call>, ms: seq<Moment>, i: nat)
    requires IsRun(rrefs, wrefs, calls, ms) && i < |calls| && Asks(calls[i], ReadOp)
    requires ms[i].queue == []
    requires 0 < |ms[i].held| <= |calls[i].request.data|
    ensures var q, m, m' := calls[i].request, ms[i], ms[i + 1];
      && m'.log == m.log + [Reply(q, |m.held|, m.held + q.data[|m.held|..])] && m'.queue == [] && m'.held == []
  {
    var held := ms[i].held;
    ReadLaw(rrefs, wrefs, calls, ms, i);
    assert held[..|held|] == held && held[|held|..] == [];
  }

  /** What is written to an empty pipe is what the next reader gets, and the pipe is empty again. */
  lemma ThroughLaw(rrefs: nat, wrefs: nat, calls: seq<Call>, ms: seq<Moment>, i: nat)
    requires IsRun(rrefs, wrefs, calls, ms) && i + 1 < |calls| && rrefs > 0
    requires Asks(calls[i], WriteOp) && Asks(calls[i + 1], ReadOp)
    requires ms[i].queue == [] && ms[i].held == []
    requires |calls[i].request.data| <= PIPE_BUFSZ && |calls[i].request.data| <= |calls[i + 1].request.data|
    ensures var w, r := calls[i].request, calls[i + 1].request;
      && ms[i + 2].log == ms[i].log + [Reply(w, |w.data|, w.data)] + [Reply(r, |w.data|, w.data + r.data[|w.data|..])]
      && ms[i + 2].queue == [] && ms[i + 2].held == []
  {
    WriteAll(rrefs, wrefs, calls, ms, i);
    ReadAll(rrefs, wrefs, calls, ms, i + 1);
  }
}
