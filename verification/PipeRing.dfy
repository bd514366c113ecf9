/** The ring buffer of a pipe (phoenix-rtos-posixsrv/pipe.c) as a queue of bytes. */
module PipeRing {
  const PIPE_BUFSZ: nat := 0x1000

  type Byte = bv8

  function Min(a: int, b: int): int { if a < b then a else b }

  /** What a ring holds, oldest byte first. */
  function Held(buf: seq<Byte>, r: nat, w: nat, full: bool): seq<Byte>
    requires |buf| == PIPE_BUFSZ && r < PIPE_BUFSZ && w < PIPE_BUFSZ
  {
    if r < w then buf[r..w]
    else if r == w && !full then []
    else buf[r..] + buf[..w]
  }

  /** Bytes put in one stretch behind the contents of a ring with room for them there. */
  lemma PutStretch(buf: seq<Byte>, r: nat, w: nat, d: seq<Byte>, buf': seq<Byte>, w': nat)
    requires |buf| == PIPE_BUFSZ && r < PIPE_BUFSZ && w < PIPE_BUFSZ
    requires 0 < |d| <= if r > w then r - w else PIPE_BUFSZ - w
    requires buf' == buf[..w] + d + buf[w + |d|..] && w' == if w + |d| == PIPE_BUFSZ then 0 else w + |d|
    ensures Held(buf', r, w', w' == r) == Held(buf, r, w, false) + d
  {
    if r > w {
      assert buf'[r..] == buf[r..];
      assert buf'[..w + |d|] == buf[..w] + d;
    } else {
      assert buf'[r..w + |d|] == buf[r..w] + d;
      if w' == 0 { assert buf'[..w'] == []; }
    }
  }

  /** Bytes taken in one stretch from the front of a ring that holds them there. */
  lemma TakeStretch(buf: seq<Byte>, r: nat, w: nat, full: bool, n: nat, r': nat)
    requires |buf| == PIPE_BUFSZ && r < PIPE_BUFSZ && w < PIPE_BUFSZ && (full ==> r == w) && (full || r != w)
    requires 0 < n <= if w > r then w - r else PIPE_BUFSZ - r
    requires r' == if r + n == PIPE_BUFSZ then 0 else r + n
    ensures Held(buf, r, w, full) == buf[r..r + n] + Held(buf, r', w, false)
  {
    if w > r {
      assert buf[r..w] == buf[r..r + n] + buf[r + n..w];
    } else if r' == 0 {
      assert buf[r..] == buf[r..r + n];
      assert Held(buf, 0, w, false) == buf[..w];
    } else {
      assert buf[r..] == buf[r..r + n] + buf[r'..];
      assert buf[r..] + buf[..w] == buf[r..r + n] + (buf[r'..] + buf[..w]);
    }
  }

  lemma TwoParts(held: seq<Byte>, data: seq<Byte>, n: nat, m: nat)
    requires n + m <= |data|
    ensures held + data[..n] + data[n..n + m] == held + data[..n + m]
  {
    assert data[..n + m] == data[..n] + data[n..n + m];
  }

  /** How much a ring holds, by its indices. */
  lemma HeldSize(buf: seq<Byte>, r: nat, w: nat, full: bool)
    requires |buf| == PIPE_BUFSZ && r < PIPE_BUFSZ && w < PIPE_BUFSZ
    ensures |Held(buf, r, w, full)| == if r < w then w - r else if r == w && !full then 0 else PIPE_BUFSZ - r + w
  {
  }

  class Ring {
    const buf: array<Byte>
    var r: nat
    var w: nat
    var full: bool

    constructor ()
      ensures Valid() && Contents() == [] && fresh(buf)
    {
      buf := new Byte[PIPE_BUFSZ](_ => 0);
      r, w, full := 0, 0, false;
    }

    ghost predicate Valid()
      reads this
    {
      buf.Length == PIPE_BUFSZ && r < PIPE_BUFSZ && w < PIPE_BUFSZ && (full ==> r == w)
    }

    ghost function Contents(): seq<Byte>
      reads this, buf
      requires Valid()
    {
      Held(buf[..], r, w, full)
    }

    /** `full` says exactly that the buffer is used up, equal indices otherwise that it is empty. */
    lemma FullAndEmpty()
      requires Valid()
      ensures |Contents()| <= PIPE_BUFSZ
      ensures full <==> |Contents()| == PIPE_BUFSZ
      ensures r == w && !full <==> Contents() == []
    {
    }

    /** `_pipe_free`: the bytes for which there is room. */
    function Free(): (n: nat)
      reads this, buf
      requires Valid()
      ensures n == PIPE_BUFSZ - |Contents()|
    {
      if w == r then if full then 0 else PIPE_BUFSZ else (r - w + PIPE_BUFSZ) % PIPE_BUFSZ
    }

    /** The contents, oldest byte first. */
    method All() returns (data: seq<Byte>)
      requires Valid()
      ensures data == Contents()
    {
      data := Held(buf[..], r, w, full);
    }

    /** `memcpy` into the buffer. */
    method CopyIn(at: nat, data: seq<Byte>)
      requires buf.Length == PIPE_BUFSZ && at + |data| <= PIPE_BUFSZ
      modifies buf
      ensures buf[..] == old(buf[..at]) + data + old(buf[at + |data|..])
    {
      forall i | 0 <= i < |data| { buf[at + i] := data[i]; }
    }

    /** Puts a stretch behind the contents and moves `w`, as `_pipe_write` does. */
    method Put(d: seq<Byte>)
      requires Valid() && !full
      requires 0 < |d| <= if r > w then r - w else PIPE_BUFSZ - w
      modifies this`w, this`full, buf
      ensures Valid() && w == (old(w) + |d|) % PIPE_BUFSZ && (full <==> w == r)
      ensures Contents() == old(Contents()) + d
    {
      ghost var before := buf[..];
      CopyIn(w, d);
      ghost var at := w;
      w := (w + |d|) % PIPE_BUFSZ;
      PutStretch(before, r, at, d, buf[..], w);
      full := w == r;
    }

    /** `_pipe_write`: as much of the data as there is room for goes behind the contents. */
    method Write(data: seq<Byte>) returns (bytes: nat)
      requires Valid()
      modifies this`w, this`full, buf
      ensures Valid()
      ensures bytes == Min(|data|, PIPE_BUFSZ - |old(Contents())|)
      ensures Contents() == old(Contents()) + data[..bytes]
    {
      if |data| == 0 || (r == w && full) { return 0; }
      ghost var held := Contents();
      HeldSize(buf[..], r, w, full);
      if r > w {
        bytes := Min(|data|, r - w);
        Put(data[..bytes]);
      } else {
        bytes := Min(|data|, PIPE_BUFSZ - w);
        Put(data[..bytes]);
        if bytes < |data| && r > 0 {
          var rest := Min(|data| - bytes, r);
          TwoParts(held, data, bytes, rest);
          Put(data[bytes..bytes + rest]);
          bytes := bytes + rest;
        }
      }
    }

    /** Takes a stretch off the front and moves `r`, as `_pipe_read` does. */
    method Take(n: nat) returns (d: seq<Byte>)
      requires Valid() && (full || r != w)
      requires 0 < n <= if w > r then w - r else PIPE_BUFSZ - r
      modifies this`r, this`full
      ensures Valid() && r == (old(r) + n) % PIPE_BUFSZ && !full
      ensures |d| == n && old(Contents()) == d + Contents()
    {
      d := buf[r..r + n];
      ghost var at := r;
      r := (r + n) % PIPE_BUFSZ;
      TakeStretch(buf[..], at, w, full, n, r);
      full := false;
    }

    /** `_pipe_read`: the oldest bytes, as many as are asked for and there. */
    method Read(sz: nat) returns (data: seq<Byte>)
      requires Valid()
      modifies this`r, this`full
      ensures Valid()
      ensures |data| == Min(sz, |old(Contents())|)
      ensures old(Contents()) == data + Contents()
    {
      if sz == 0 || (r == w && !full) { return []; }
      if w > r {
        data := Take(Min(sz, w - r));
      } else {
        var first := Min(sz, PIPE_BUFSZ - r);
        data := Take(first);
        if first < sz && w > 0 {
          var rest := Take(Min(sz - first, w));
          data := data + rest;
        }
      }
    }
  }
}
