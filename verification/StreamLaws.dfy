/** What runs of stream operations mean: laws on their answers, from any state of a stream. */
module StreamLaws {
  import opened RawFile
  import opened Stream

  // ----- runs in two parts -----

  lemma {:induction false} RunApart(v: View, access: Access, a: seq<Op>, b: seq<Op>)
    ensures ViewAfterAll(v, access, a + b) == ViewAfterAll(ViewAfterAll(v, access, a), access, b)
    ensures AnswersTo(v, access, a + b)
      == AnswersTo(v, access, a) + AnswersTo(ViewAfterAll(v, access, a), access, b)
    decreases |b|
  {
    if b == [] {
      assert a + b == a;
    } else {
      var n := |b| - 1;
      var all := a + b;
      assert all[..|all| - 1] == a + b[..n] && all[|all| - 1] == b[n];
      RunApart(v, access, a, b[..n]);
    }
  }

  lemma OneOp(v: View, access: Access, op: Op)
    ensures ViewAfterAll(v, access, [op]) == ViewAfter(v, access, op)
    ensures AnswersTo(v, access, [op]) == [AnswerTo(v, access, op)]
  {
    var ops := [op];
    assert ops[..|ops| - 1] == [];
    assert ViewAfterAll(v, access, []) == v && AnswersTo(v, access, []) == [];
  }

  lemma TwoOps(v: View, access: Access, a: Op, b: Op)
    ensures ViewAfterAll(v, access, [a, b]) == ViewAfter(ViewAfter(v, access, a), access, b)
    ensures AnswersTo(v, access, [a, b]) == [AnswerTo(v, access, a), AnswerTo(ViewAfter(v, access, a), access, b)]
  {
    assert [a, b] == [a] + [b];
    RunApart(v, access, [a], [b]);
    OneOp(v, access, a);
    OneOp(ViewAfter(v, access, a), access, b);
  }

  lemma ThreeOps(v: View, access: Access, a: Op, b: Op, c: Op)
    ensures ViewAfterAll(v, access, [a, b, c]) == ViewAfter(ViewAfter(ViewAfter(v, access, a), access, b), access, c)
    ensures AnswersTo(v, access, [a, b, c]) == [AnswerTo(v, access, a), AnswerTo(ViewAfter(v, access, a), access, b),
      AnswerTo(ViewAfter(ViewAfter(v, access, a), access, b), access, c)]
  {
    assert [a, b, c] == [a, b] + [c];
    RunApart(v, access, [a, b], [c]);
    TwoOps(v, access, a, b);
    OneOp(ViewAfter(ViewAfter(v, access, a), access, b), access, c);
  }

  // ----- places -----

  /** `ftell` answers where `fseek` went and as many bytes further on as were read from there; it moves
      nothing. */
  lemma TellLaw(v: View, access: Access, k: nat, n: nat)
    ensures var r := AnswersTo(v, access, [Seek(k, SeekSet), Read(1, n), Seek(0, SeekCur)]);
      r[0].value == k && r[2].value == k + |r[1].data|
    ensures AnswerTo(v, access, Seek(0, SeekCur)) == Answer(v.pos, [])
    ensures ViewAfter(v, access, Seek(0, SeekCur)) == v.(eof := false)
  {
    ThreeOps(v, access, Seek(k, SeekSet), Read(1, n), Seek(0, SeekCur));
  }

  /** A place before the beginning is refused, from wherever it is counted, and nothing moves. */
  lemma RefusedLaw(v: View, access: Access, k: int)
    requires k < 0
    ensures var r := AnswersTo(v, access, [Seek(k, SeekSet), Seek(0, SeekCur)]); r[0].value == -1 && r[1].value == v.pos
  {
    TwoOps(v, access, Seek(k, SeekSet), Seek(0, SeekCur));
  }

  /** Steps add up, and going on by `j` is going to the place `j` further on. */
  lemma StepLaw(v: View, access: Access, k: nat, j: nat)
    ensures AnswersTo(v, access, [Seek(k, SeekSet), Seek(j, SeekCur)])[1].value == k + j
    ensures ViewAfterAll(v, access, [Seek(k, SeekSet), Seek(j, SeekCur)]) == ViewAfter(v, access, Seek(k + j, SeekSet))
  {
    TwoOps(v, access, Seek(k, SeekSet), Seek(j, SeekCur));
  }

  /** At the end there is nothing to read, which sets the mark; the place of the end is the number of
      bytes that are read from the beginning, however many more are asked for. */
  lemma EndLaw(v: View, access: Access, n: nat, most: nat)
    requires access.readable && n > 0
    ensures AnswersTo(v, access, [Seek(0, SeekEnd), Read(1, n)])[1] == Answer(0, [])
    ensures ViewAfterAll(v, access, [Seek(0, SeekEnd), Read(1, n)]).eof
    ensures var r := AnswersTo(v, access, [Seek(0, SeekEnd), Seek(0, SeekSet), Read(1, most)]);
      |r[2].data| == if most < r[0].value then most else r[0].value
  {
    TwoOps(v, access, Seek(0, SeekEnd), Read(1, n));
    ThreeOps(v, access, Seek(0, SeekEnd), Seek(0, SeekSet), Read(1, most));
  }

  // ----- bytes -----

  lemma FromOver(content: seq<Byte>, pos: nat, data: seq<Byte>)
    requires data != []
    ensures From(Over(content, pos, data), pos, |data|) == data
  {
    var c := Over(content, pos, data);
    assert c[pos..pos + |data|] == data;
  }

  lemma FromElsewhere(content: seq<Byte>, pos: nat, data: seq<Byte>, k: nat, n: nat)
    requires k + n <= |content| && (k + n <= pos || pos + |data| <= k)
    ensures From(Over(content, pos, data), k, n) == From(content, k, n)
  {
    var c := Over(content, pos, data);
    if data != [] && n > 0 {
      assert k + n <= |c|;
      assert forall i :: k <= i < k + n ==> c[i] == content[i];
      assert c[k..k + n] == content[k..k + n];
    }
  }

  /** What was written is what is read back from there. */
  lemma WriteLaw(v: View, access: Access, d: seq<Byte>)
    requires access.readable && access.writable
    ensures AnswersTo(v, access, [Write(d), Seek(-|d|, SeekCur), Read(1, |d|)])
      == [Answer(|d|, []), Answer(v.pos, []), Answer(|d|, d)]
  {
    ThreeOps(v, access, Write(d), Seek(-|d|, SeekCur), Read(1, |d|));
    if d != [] { FromOver(v.content, v.pos, d); }
  }

  /** And what is elsewhere in the file is what it was. */
  lemma ElsewhereLaw(v: View, access: Access, d: seq<Byte>, k: nat, n: nat)
    requires k + n <= |v.content| && (k + n <= v.pos || v.pos + |d| <= k)
    ensures AnswersTo(v, access, [Write(d), Seek(k, SeekSet), Read(1, n)])[2]
      == AnswersTo(v, access, [Seek(k, SeekSet), Read(1, n)])[1]
  {
    ThreeOps(v, access, Write(d), Seek(k, SeekSet), Read(1, n));
    TwoOps(v, access, Seek(k, SeekSet), Read(1, n));
    FromElsewhere(v.content, v.pos, d, k, n);
  }

  /** Bytes read in two parts are the bytes read at once. */
  lemma ReadLaw(v: View, access: Access, m: nat, n: nat)
    requires m > 0
    ensures var r := AnswersTo(v, access, [Read(1, m), Read(1, n)]);
      r[0].data + r[1].data == AnswerTo(v, access, Read(1, m + n)).data
  {
    var a, b := Read(1, m), Read(1, n);
    TwoOps(v, access, a, b);
    ReadBytes(v, access, m);
    ReadBytes(v, access, m + n);
    ReadBytes(ReadView(v, access, m), access, n);
    ReadTwice(v, access, m, n);
  }

  /** And they leave the same marks. */
  lemma ReadMarks(v: View, access: Access, m: nat, n: nat)
    requires m > 0 && n > 0
    ensures ViewAfterAll(v, access, [Read(1, m), Read(1, n)]) == ViewAfter(v, access, Read(1, m + n))
  {
    var a, b := Read(1, m), Read(1, n);
    TwoOps(v, access, a, b);
    ReadBytes(v, access, m);
    ReadBytes(v, access, m + n);
    ReadBytes(ReadView(v, access, m), access, n);
    ReadTwice(v, access, m, n);
  }

  lemma ReadBytes(v: View, access: Access, n: nat)
    ensures AnswerTo(v, access, Read(1, n)).data == ReadData(v, access, n)
    ensures ViewAfter(v, access, Read(1, n)) == ReadView(v, access, n)
  {
  }

  lemma ReadTwice(v: View, access: Access, m: nat, n: nat)
    requires m > 0
    ensures var w := ReadView(v, access, m);
      && ReadData(v, access, m) + ReadData(w, access, n) == ReadData(v, access, m + n)
      && (n > 0 ==> ReadView(w, access, n) == ReadView(v, access, m + n))
  {
    FromParts(v.content, v.pos, m, n);
  }

  lemma FromParts(content: seq<Byte>, pos: nat, m: nat, n: nat)
    ensures var a := From(content, pos, m);
      var b := From(content, pos + |a|, n);
      && From(content, pos, m + n) == a + b
      && (n > 0 ==> (|a| < m || |b| < n <==> |a + b| < m + n))
  {
    var a := From(content, pos, m);
    if |a| == m {
      FromTwice(content, pos, m, m + n);
    } else {
      assert From(content, pos + |a|, n) == [] && From(content, pos, m + n) == a;
    }
  }

  /** The count answered is that of the whole items among the bytes, and the mark is set exactly if
      fewer bytes came than were asked for. */
  lemma ItemLaw(v: View, access: Access, size: nat, nmemb: nat)
    requires size > 0 && access.readable
    ensures var r := AnswerTo(v, access, Read(size, nmemb));
      && r.value * size <= |r.data| < (r.value + 1) * size && |r.data| <= nmemb * size
      && (ViewAfter(v, access, Read(size, nmemb)).eof <==> v.eof || |r.data| < nmemb * size)
  {
    var n := |ReadData(v, access, nmemb * size)|;
    assert n == n / size * size + n % size;
    assert (n / size + 1) * size == n / size * size + size;
  }

  /** Without the right access nothing is read or written, and the error is marked. */
  lemma AccessLaw(v: View, access: Access, d: seq<Byte>, n: nat)
    ensures !access.readable && n > 0 ==>
      AnswerTo(v, access, Read(1, n)) == Answer(0, []) && ViewAfter(v, access, Read(1, n)) == v.(error := true)
    ensures !access.writable && d != [] ==>
      AnswerTo(v, access, Write(d)).value == 0 && ViewAfter(v, access, Write(d)) == v.(error := true)
  {
  }
}
