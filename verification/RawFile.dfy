/** A seekable file as stdio sees it through `read`, `write` and `lseek`: calls succeed, but may
    move fewer bytes than asked for. */
module RawFile {
  type Byte = bv8

  function Zeros(n: nat): seq<Byte> { seq(n, _ => 0) }

  function Min(a: int, b: int): int { if a < b then a else b }

  /** The content with bytes written at a place, a gap before them filled with zeros. */
  function Over(content: seq<Byte>, pos: nat, data: seq<Byte>): seq<Byte> {
    if data == [] then content
    else
      (if pos <= |content| then content[..pos] else content + Zeros(pos - |content|))
      + data
      + (if pos + |data| <= |content| then content[pos + |data|..] else [])
  }

  /** The bytes from a place on, at most `n`. */
  function From(content: seq<Byte>, pos: nat, n: nat): seq<Byte> {
    if pos >= |content| then [] else content[pos..Min(pos + n, |content|)]
  }

  /** Bytes written one after the other are bytes written at once. */
  lemma OverTwice(content: seq<Byte>, pos: nat, a: seq<Byte>, b: seq<Byte>)
    ensures Over(Over(content, pos, a), pos + |a|, b) == Over(content, pos, a + b)
  {
    if a == [] {
      assert a + b == b;
    } else if b == [] {
      assert a + b == a;
    } else {
      var c := Over(content, pos, a);
      var head := if pos <= |content| then content[..pos] else content + Zeros(pos - |content|);
      assert |head| == pos;
      assert c[..pos + |a|] == head + a;
    }
  }

  lemma FromTwice(content: seq<Byte>, pos: nat, m: nat, n: nat)
    requires m <= n && |From(content, pos, m)| == m
    ensures From(content, pos, n) == From(content, pos, m) + From(content, pos + m, n - m)
  {
  }

  class Raw {
    var content: seq<Byte>
    var pos: nat

    constructor (content: seq<Byte>)
      ensures this.content == content && pos == 0
    {
      this.content, pos := content, 0;
    }

    /** `read`: nothing at the end, or some of what is asked for. */
    method Read(n: nat) returns (data: seq<Byte>)
      modifies this`pos
      ensures data == From(content, old(pos), |data|) && pos == old(pos) + |data| && |data| <= n
      ensures data == [] <==> n == 0 || old(pos) >= |content|
    {
      var most := |From(content, pos, n)|;
      if most == 0 { return []; }
      var k :| 0 < k <= most;
      data := content[pos..pos + k];
      pos := pos + k;
    }

    /** `write`: some of the bytes. */
    method Write(data: seq<Byte>) returns (k: nat)
      modifies this`content, this`pos
      ensures k <= |data| && (k == 0 <==> data == [])
      ensures content == Over(old(content), old(pos), data[..k]) && pos == old(pos) + k
    {
      if data == [] { return 0; }
      k :| 0 < k <= |data|;
      content, pos := Over(content, pos, data[..k]), pos + k;
    }

    /** `lseek`, to a place that is computed already; one before the beginning is refused. */
    method Seek(to: int) returns (r: int)
      modifies this`pos
      ensures if to < 0 then r == -1 && pos == old(pos) else r == to && pos == to
    {
      if to < 0 { return -1; }
      pos := to;
      r := to;
    }
  }

  /** `full_read`: as many bytes as are there. */
  method FullRead(raw: Raw, size: nat) returns (data: seq<Byte>)
    modifies raw`pos
    ensures data == From(raw.content, old(raw.pos), size) && raw.pos == old(raw.pos) + |data|
  {
    data := [];
    while |data| < size
      invariant |data| <= size && data == From(raw.content, old(raw.pos), |data|) && raw.pos == old(raw.pos) + |data|
    {
      var more := raw.Read(size - |data|);
      if more == [] { break; }
      FromTwice(raw.content, old(raw.pos), |data|, |data| + |more|);
      data := data + more;
    }
  }

  /** `full_write`: all the bytes. */
  method FullWrite(raw: Raw, data: seq<Byte>)
    modifies raw`content, raw`pos
    ensures raw.content == Over(old(raw.content), old(raw.pos), data) && raw.pos == old(raw.pos) + |data|
  {
    var n := 0;
    while n < |data|
      invariant n <= |data| && raw.pos == old(raw.pos) + n
      invariant raw.content == Over(old(raw.content), old(raw.pos), data[..n])
    {
      var k := raw.Write(data[n..]);
      OverTwice(old(raw.content), old(raw.pos), data[..n], data[n..][..k]);
      assert data[..n + k] == data[..n] + data[n..][..k];
      n := n + k;
    }
    assert data[..n] == data;
  }
}
