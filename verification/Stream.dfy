/** Buffered streams (libphoenix/stdio/file.c) against one position in a file without a buffer. */
module Stream {
  import opened RawFile

  const NEWLINE: Byte := 10

  /** What a program sees of a stream: the bytes, its place among them and the two flags. */
  datatype View = View(content: seq<Byte>, pos: nat, eof: bool, error: bool)

  datatype Whence = SeekSet | SeekCur | SeekEnd

  datatype Access = Access(readable: bool, writable: bool)

  // ----- the operations without a buffer -----

  function ReadView(v: View, access: Access, n: nat): View {
    if n == 0 then v
    else if !access.readable then v.(error := true)
    else v.(pos := v.pos + |From(v.content, v.pos, n)|, eof := v.eof || |From(v.content, v.pos, n)| < n)
  }

  function ReadData(v: View, access: Access, n: nat): seq<Byte> {
    if n == 0 || !access.readable then [] else From(v.content, v.pos, n)
  }

  /** The whole items among some bytes. */
  function Items(bytes: nat, size: nat): nat { if size == 0 then 0 else bytes / size }

  function WriteView(v: View, access: Access, data: seq<Byte>): View {
    if data == [] then v
    else if !access.writable then v.(error := true)
    else v.(content := Over(v.content, v.pos, data), pos := v.pos + |data|)
  }

  function SeekTarget(v: View, offset: int, whence: Whence): int {
    offset + match whence { case SeekSet => 0 case SeekCur => v.pos case SeekEnd => |v.content| }
  }

  function SeekView(v: View, offset: int, whence: Whence): View {
    var to := SeekTarget(v, offset, whence);
    v.(eof := false, pos := if to < 0 then v.pos else to)
  }

  // ----- the operations with one -----

  /** A buffer of bytes read ahead of the program. */
  ghost predicate ReadAhead(content: seq<Byte>, pos: nat, ahead: seq<Byte>) {
    |ahead| <= pos && (ahead != [] ==> pos <= |content| && content[pos - |ahead|..pos] == ahead)
  }

  lemma PartsAhead(content: seq<Byte>, at: nat, pos: nat, ahead: seq<Byte>, n: nat)
    requires at + n <= pos <= |content| && content[at..pos] == ahead
    ensures content[at..at + n] == ahead[..n] && content[at + n..pos] == ahead[n..]
  {
  }

  class Stream {
    const raw: Raw
    const access: Access
    const lineBuffered: bool
    const buffer: array<Byte>
    var bufpos: nat
    var bufeof: nat
    var writing: bool
    var eof: bool
    var error: bool

    ghost predicate Valid()
      reads this, raw, buffer
    {
      && buffer.Length > 0
      && if writing then bufpos < buffer.Length
         else bufpos <= bufeof <= buffer.Length && ReadAhead(raw.content, raw.pos, buffer[bufpos..bufeof])
    }

    ghost function Now(): View
      reads this, raw, buffer
      requires Valid()
    {
      if writing then View(Over(raw.content, raw.pos, buffer[..bufpos]), raw.pos + bufpos, eof, error)
      else View(raw.content, raw.pos - (bufeof - bufpos), eof, error)
    }

    constructor (raw: Raw, access: Access, lineBuffered: bool, bufsz: nat)
      requires bufsz > 0
      ensures Valid() && Now() == View(raw.content, raw.pos, false, false)
      ensures this.raw == raw && this.access == access && fresh(buffer)
    {
      this.raw, this.access, this.lineBuffered := raw, access, lineBuffered;
      buffer := new Byte[bufsz](_ => 0);
      bufpos, bufeof := bufsz, bufsz;
      writing, eof, error := false, false, false;
    }

    /** `__fflush_one`: what was written goes to the file, and the file goes back over what was read
        ahead. */
    method Flush()
      requires Valid()
      modifies this`bufpos, this`bufeof, raw
      ensures Valid() && Now() == old(Now())
      ensures if writing then bufpos == 0 else bufpos == bufeof == buffer.Length
      ensures raw.content == Now().content && raw.pos == Now().pos
    {
      if writing {
        if bufpos != 0 {
          FullWrite(raw, buffer[..bufpos]);
          bufpos := 0;
        }
      } else {
        var r := raw.Seek(raw.pos + bufpos - bufeof);
        bufpos, bufeof := buffer.Length, buffer.Length;
      }
    }

    /** `fseektell_unlocked`. */
    method Seek(offset: int, whence: Whence) returns (r: int)
      requires Valid()
      modifies this`bufpos, this`bufeof, this`eof, raw
      ensures Valid() && Now() == SeekView(old(Now()), offset, whence)
      ensures var to := SeekTarget(old(Now()), offset, whence); r == if to < 0 then -1 else to
    {
      Flush();
      eof := false;
      r := raw.Seek(offset + match whence { case SeekSet => 0 case SeekCur => raw.pos case SeekEnd => |raw.content| });
    }

    /** Reading begins: what was written goes to the file. */
    method StartReading()
      requires Valid()
      modifies this`bufpos, this`bufeof, this`writing, raw
      ensures Valid() && Now() == old(Now()) && !writing
    {
      if writing {
        Flush();
        writing := false;
        bufpos, bufeof := buffer.Length, buffer.Length;
      }
    }

    /** The read buffer is filled again if it is used up. */
    method Refill()
      requires Valid() && !writing
      modifies this`bufpos, this`bufeof, raw`pos, buffer
      ensures Valid() && !writing && Now() == old(Now())
      ensures bufpos == bufeof ==> raw.pos >= |raw.content|
    {
      if bufpos == bufeof {
        var data := raw.Read(buffer.Length);
        forall i | 0 <= i < |data| { buffer[i] := data[i]; }
        bufpos, bufeof := 0, |data|;
        assert buffer[..|data|] == data;
      }
    }

    /** Bytes from the read buffer. */
    method Unbuffer(n: nat) returns (data: seq<Byte>)
      requires Valid() && !writing
      modifies this`bufpos
      ensures Valid() && |data| == Min(old(bufeof - bufpos), n) && (|data| < n ==> bufpos == bufeof)
      ensures data == From(raw.content, old(Now()).pos, |data|)
      ensures Now() == old(Now()).(pos := old(Now()).pos + |data|)
    {
      var bytes := Min(bufeof - bufpos, n);
      data := buffer[bufpos..bufpos + bytes];
      ghost var ahead := buffer[bufpos..bufeof];
      ghost var at := Now().pos;
      assert data == ahead[..bytes] && buffer[bufpos + bytes..bufeof] == ahead[bytes..];
      bufpos := bufpos + bytes;
      if bytes > 0 {
        PartsAhead(raw.content, at, raw.pos, ahead, bytes);
      }
    }

    /** The bytes at the stream's place, as many as are asked for and there. */
    method Take(n: nat) returns (data: seq<Byte>)
      requires Valid() && !writing && n > 0
      modifies this`bufpos, this`bufeof, this`eof, raw, buffer
      ensures Valid() && data == From(old(Now()).content, old(Now()).pos, n)
      ensures Now() == old(Now()).(pos := old(Now()).pos + |data|, eof := old(eof) || |data| < n)
    {
      Refill();
      data := TakeHeld(n);
    }

    /** The same once the buffer has been filled. */
    method TakeHeld(n: nat) returns (data: seq<Byte>)
      requires Valid() && !writing && n > 0 && (bufpos == bufeof ==> raw.pos >= |raw.content|)
      modifies this`bufpos, this`eof, raw`pos
      ensures Valid() && data == From(old(Now()).content, old(Now()).pos, n)
      ensures Now() == old(Now()).(pos := old(Now()).pos + |data|, eof := old(eof) || |data| < n)
    {
      ghost var v := Now();
      if bufpos == bufeof {
        assert From(v.content, v.pos, n) == [];
        eof := true;
        return [];
      }
      data := Unbuffer(n);
      if |data| < n { data := Direct(data, n); }
    }

    /** What the buffer did not hold is read directly. */
    method Direct(first: seq<Byte>, n: nat) returns (data: seq<Byte>)
      requires Valid() && !writing && bufpos == bufeof && |first| < n
      requires |first| <= raw.pos && first == From(raw.content, raw.pos - |first|, |first|)
      modifies this`eof, raw`pos
      ensures Valid() && data == From(raw.content, old(raw.pos) - |first|, n)
      ensures Now() == old(Now()).(pos := old(raw.pos) - |first| + |data|, eof := old(eof) || |data| < n)
    {
      FromTwice(raw.content, raw.pos - |first|, |first|, n);
      var rest := FullRead(raw, n - |first|);
      if |rest| < n - |first| { eof := true; }
      data := first + rest;
    }

    /** `fread_unlocked` on a number of bytes. */
    method ReadBytes(n: nat) returns (data: seq<Byte>)
      requires Valid() && n > 0
      modifies this`bufpos, this`bufeof, this`writing, this`eof, this`error, raw, buffer
      ensures Valid() && Now() == ReadView(old(Now()), access, n)
      ensures data == ReadData(old(Now()), access, n)
    {
      StartReading();
      if access.readable {
        data := Take(n);
      } else {
        error := true;
        data := [];
      }
    }

    /** `fread_unlocked`. */
    method Fread(size: nat, nmemb: nat) returns (items: nat, data: seq<Byte>)
      requires Valid()
      modifies this`bufpos, this`bufeof, this`writing, this`eof, this`error, raw, buffer
      ensures Valid() && Now() == ReadView(old(Now()), access, nmemb * size)
      ensures data == ReadData(old(Now()), access, nmemb * size)
      ensures items == Items(|data|, size)
    {
      var readsz := nmemb * size;
      data := [];
      if readsz != 0 { data := ReadBytes(readsz); }
      items := Items(|data|, size);
    }

    // ----- writing -----

    /** Writing begins: the file goes back over what was read ahead. */
    method StartWriting()
      requires Valid()
      modifies this`bufpos, this`bufeof, this`writing, raw
      ensures Valid() && Now() == old(Now()) && writing
    {
      if !writing {
        Flush();
        writing := true;
        bufpos := 0;
      }
    }

    /** Bytes into the write buffer. */
    method Buffer(data: seq<Byte>)
      requires Valid() && writing && buffer.Length - bufpos > |data|
      modifies this`bufpos, buffer
      ensures Valid() && bufpos == old(bufpos) + |data|
      ensures var v := old(Now());
        Now() == v.(content := Over(v.content, v.pos, data), pos := v.pos + |data|)
    {
      ghost var before := buffer[..bufpos];
      forall i | 0 <= i < |data| { buffer[bufpos + i] := data[i]; }
      bufpos := bufpos + |data|;
      assert buffer[..bufpos] == before + data;
      OverTwice(raw.content, raw.pos, before, data);
    }

    /** The bytes up to the last newline in the write buffer go to the file. */
    method FlushLines()
      requires Valid() && writing
      modifies this`bufpos, buffer, raw
      ensures Valid() && Now() == old(Now())
      ensures NEWLINE !in buffer[..bufpos]
    {
      var n: nat := bufpos;
      while n > 0 && buffer[n - 1] != NEWLINE
        invariant n <= bufpos && forall i :: n <= i < bufpos ==> buffer[i] != NEWLINE
      {
        n := n - 1;
      }
      if n > 0 { WriteOut(n); }
    }

    /** The first bytes of the write buffer go to the file, the others to its beginning. */
    method WriteOut(n: nat)
      requires Valid() && writing && n <= bufpos
      modifies this`bufpos, buffer, raw
      ensures Valid() && Now() == old(Now())
      ensures bufpos == old(bufpos) - n && buffer[..bufpos] == old(buffer[n..bufpos])
    {
      ghost var first, rest := buffer[..n], buffer[n..bufpos];
      assert buffer[..bufpos] == first + rest;
      OverTwice(raw.content, raw.pos, first, rest);
      FullWrite(raw, buffer[..n]);
      bufpos := bufpos - n;
      forall i | 0 <= i < bufpos { buffer[i] := buffer[n + i]; }
      assert buffer[..bufpos] == rest;
    }

    /** `fwrite_unlocked`. */
    method Fwrite(data: seq<Byte>, size: nat, nmemb: nat) returns (items: nat)
      requires Valid() && |data| == nmemb * size
      modifies this`bufpos, this`bufeof, this`writing, this`error, raw, buffer
      ensures Valid() && Now() == WriteView(old(Now()), access, data)
      ensures items == if data == [] || !access.writable then 0 else nmemb
      ensures items > 0 && lineBuffered ==> NEWLINE !in buffer[..bufpos]
    {
      if data == [] { return 0; }
      StartWriting();
      if !access.writable {
        error := true;
        return 0;
      }
      if buffer.Length - bufpos > |data| {
        Buffer(data);
        if lineBuffered { FlushLines(); }
        return nmemb;
      }
      Through(data);
      return nmemb;
    }

    /** The write buffer and then more bytes go to the file. */
    method Through(data: seq<Byte>)
      requires Valid() && writing
      modifies this`bufpos, raw
      ensures Valid() && bufpos == 0
      ensures var v := old(Now());
        Now() == v.(content := Over(v.content, v.pos, data), pos := v.pos + |data|)
    {
      FullWrite(raw, buffer[..bufpos]);
      bufpos := 0;
      FullWrite(raw, data);
    }
  }

  // ----- every interleaving -----

  datatype Op = Read(size: nat, nmemb: nat) | Write(data: seq<Byte>) | Flush | Seek(offset: int, whence: Whence)

  datatype Answer = Answer(value: int, data: seq<Byte>)

  function ViewAfter(v: View, access: Access, op: Op): View {
    match op
    case Read(size, nmemb) => ReadView(v, access, nmemb * size)
    case Write(data) => WriteView(v, access, data)
    case Flush => v
    case Seek(offset, whence) => SeekView(v, offset, whence)
  }

  function AnswerTo(v: View, access: Access, op: Op): Answer {
    match op
    case Read(size, nmemb) =>
      var data := ReadData(v, access, nmemb * size);
      Answer(Items(|data|, size), data)
    case Write(data) => Answer(if access.writable then |data| else 0, [])
    case Flush => Answer(0, [])
    case Seek(offset, whence) =>
      var to := SeekTarget(v, offset, whence);
      Answer(if to < 0 then -1 else to, [])
  }

  function ViewAfterAll(v: View, access: Access, ops: seq<Op>): View {
    if ops == [] then v else ViewAfter(ViewAfterAll(v, access, ops[..|ops| - 1]), access, ops[|ops| - 1])
  }

  function AnswersTo(v: View, access: Access, ops: seq<Op>): (r: seq<Answer>)
    ensures |r| == |ops|
  {
    if ops == [] then []
    else
      var before := ops[..|ops| - 1];
      AnswersTo(v, access, before) + [AnswerTo(ViewAfterAll(v, access, before), access, ops[|ops| - 1])]
  }

  method Perform(s: Stream, op: Op) returns (answer: Answer)
    requires s.Valid()
    modifies s, s.raw, s.buffer
    ensures s.Valid() && s.Now() == ViewAfter(old(s.Now()), s.access, op)
    ensures answer == AnswerTo(old(s.Now()), s.access, op)
  {
    match op {
      case Read(size, nmemb) =>
        var items, data := s.Fread(size, nmemb);
        answer := Answer(items, data);
      case Write(data) =>
        var items := s.Fwrite(data, 1, |data|);
        answer := Answer(items, []);
      case Flush =>
        s.Flush();
        answer := Answer(0, []);
      case Seek(offset, whence) =>
        var r := s.Seek(offset, whence);
        answer := Answer(r, []);
    }
  }

  lemma {:induction false} OneMore(v: View, access: Access, ops: seq<Op>, i: nat)
    requires i < |ops|
    ensures ViewAfterAll(v, access, ops[..i + 1]) == ViewAfter(ViewAfterAll(v, access, ops[..i]), access, ops[i])
    ensures AnswersTo(v, access, ops[..i + 1])
      == AnswersTo(v, access, ops[..i]) + [AnswerTo(ViewAfterAll(v, access, ops[..i]), access, ops[i])]
  {
    assert ops[..i + 1][..i] == ops[..i];
  }

  /** Every sequence of reads, writes, flushes and seeks answers as without a buffer, and leaves the
      file, its position and the marks of the stream as they would be. */
  method Run(content: seq<Byte>, access: Access, lineBuffered: bool, bufsz: nat, ops: seq<Op>)
    returns (answers: seq<Answer>, after: View)
    requires bufsz > 0
    ensures answers == AnswersTo(View(content, 0, false, false), access, ops)
    ensures after == ViewAfterAll(View(content, 0, false, false), access, ops)
  {
    var raw := new Raw(content);
    var s := new Stream(raw, access, lineBuffered, bufsz);
    ghost var v := View(content, 0, false, false);
    answers := [];
    for i := 0 to |ops|
      invariant s.Valid() && fresh(s) && fresh(s.raw) && fresh(s.buffer) && s.access == access
      invariant s.Now() == ViewAfterAll(v, access, ops[..i]) && answers == AnswersTo(v, access, ops[..i])
    {
      var answer := Perform(s, ops[i]);
      OneMore(v, access, ops, i);
      answers := answers + [answer];
    }
    assert ops[..|ops|] == ops;
    s.Flush();
    after := View(s.raw.content, s.raw.pos, s.eof, s.error);
  }
}
