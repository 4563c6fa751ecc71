/** Classification of a buffer and of a file (`sceadan_classify_buf`,
    `sceadan_classify_file`), and what the pre-filter decides, stated on the
    bytes themselves. */
module Classifier {
  import opened Streams
  import opened Features
  import opened Registry
  import opened Accumulator
  import opened Decision

  /** The outcome for a stream of bytes; entropy is the normalized unigram
      entropy of the finalizer, which this model does not compute. */
  ghost function StreamOutcome(s: seq<byte>, dump: bool, m: Model, entropy: seq<Ratio> -> real): Outcome
  {
    Decide(UnigramFreqs(s), BigramFreqs(s), entropy(UnigramFreqs(s)), dump, m)
  }

  /** The integer a classification of the stream s returns. */
  ghost function Classification(s: seq<byte>, dump: bool, m: Model, code: FileType -> int,
                                entropy: seq<Ratio> -> real): int
  {
    OutcomeCode(StreamOutcome(s, dump, m, entropy), code)
  }

  /** `sceadan_classify_buf`. */
  method ClassifyBuf(buf: seq<byte>, dump: bool, m: Model, code: FileType -> int,
                     entropy: seq<Ratio> -> real) returns (r: int)
    ensures r == Classification(buf, dump, m, code, entropy)
  {
    var v := new Vectors();
    v.Update(buf);
    assert v.Stream == buf;
    r := FinalizeAndPredict(v, dump, m, code, entropy);
  }

  /** The end of both entry points: `vectors_finalize` on the accumulated
      stream, then `predict_liblin`. */
  method FinalizeAndPredict(v: Vectors, dump: bool, m: Model, code: FileType -> int,
                            entropy: seq<Ratio> -> real) returns (r: int)
    requires v.Valid()
    ensures r == Classification(v.Stream, dump, m, code, entropy)
  {
    var f := v.Finalize(entropy);
    Classified(f, v.Stream, dump, m, code, entropy);
    r := PredictLiblin(f, dump, m, code);
  }

  /** The chunks a read loop consumes: results up to, not including, the first
      that returned nothing (end of file or a read error). */
  function ReadUntilEof(results: seq<seq<byte>>): (r: seq<seq<byte>>)
    ensures |r| <= |results| && r == results[..|r|]
    ensures forall k :: 0 <= k < |r| ==> |r[k]| > 0
    ensures |r| == |results| || |results[|r|]| == 0
  {
    if |results| == 0 || |results[0]| == 0 then []
    else [results[0]] + ReadUntilEof(results[1..])
  }

  /** `sceadan_classify_file`. openOk and closeOk say whether open and
      close succeed; results lists what the successive reads return, an empty chunk
      standing for a result of zero or less. */
  method ClassifyFile(openOk: bool, results: seq<seq<byte>>, closeOk: bool, dump: bool, m: Model,
                      code: FileType -> int, entropy: seq<Ratio> -> real) returns (r: int)
    ensures !openOk || !closeOk ==> r == -1
    ensures openOk && closeOk ==> r == Classification(Flatten(ReadUntilEof(results)), dump, m, code, entropy)
  {
    var v := new Vectors();
    if !openOk {
      return -1;
    }
    var i := 0;
    while i < |results| && |results[i]| > 0
      invariant 0 <= i <= |results|
      invariant v.Valid() && v.Chunks == results[..i]
      invariant forall k :: 0 <= k < i ==> |results[k]| > 0
    {
      v.Update(results[i]);
      TakeSnoc(results, i);
      i := i + 1;
    }
    ReadsConsumed(results, i);
    assert v.Stream == Flatten(ReadUntilEof(results));
    if !closeOk {
      return -1;
    }
    r := FinalizeAndPredict(v, dump, m, code, entropy);
  }

  /** The decision on the finalized features of s is the classification
      of s. */
  lemma Classified(f: Features, s: seq<byte>, dump: bool, m: Model, code: FileType -> int,
                   entropy: seq<Ratio> -> real)
    requires f.WellShaped()
    requires f.ufreq == UnigramFreqs(s) && f.bfreq == BigramFreqs(s) && f.itemEntropy == entropy(f.ufreq)
    ensures OutcomeCode(Decide(f.ufreq, f.bfreq, f.itemEntropy, dump, m), code)
      == Classification(s, dump, m, code, entropy)
  {
  }

  lemma {:induction false} ReadsConsumed(results: seq<seq<byte>>, i: nat)
    requires i <= |results| && (i == |results| || |results[i]| == 0)
    requires forall k :: 0 <= k < i ==> |results[k]| > 0
    ensures ReadUntilEof(results) == results[..i]
  {
    if i > 0 {
      ReadsConsumed(results[1..], i - 1);
      assert results[..i] == [results[0]] + results[1..][..i - 1];
    }
  }

  // =====================================================================
  // What the pre-filter decides, on the bytes

  /** Byte b makes up more than half of s. */
  ghost predicate MajorityByte(s: seq<byte>, b: int)
  {
    2 * Count(s, b) > |s|
  }

  /** The pair (p, q) makes up more than half of the aligned pairs of s. */
  ghost predicate MajorityPair(s: seq<byte>, p: int, q: int)
  {
    2 * PairCount(s, p, q) > |s| / 2
  }

  lemma FrequenciesOfStream(s: seq<byte>)
    ensures Shaped(UnigramFreqs(s), BigramFreqs(s))
    ensures forall b :: 0 <= b < Unigrams ==> (UnigramFreqs(s)[b].ExceedsHalf() <==> MajorityByte(s, b))
    ensures forall p, q :: 0 <= p < Unigrams && 0 <= q < Unigrams ==>
      (BigramFreqs(s)[p][q].ExceedsHalf() <==> MajorityPair(s, p, q))
  {
  }

  /** At most one byte, and at most one pair, can hold a majority. */
  lemma MajoritiesAreUnique(s: seq<byte>)
    ensures forall a, b :: MajorityByte(s, a) && MajorityByte(s, b) ==> a == b
    ensures forall p, q, p', q' :: MajorityPair(s, p, q) && MajorityPair(s, p', q') ==> p == p' && q == q'
  {
    forall a, b | MajorityByte(s, a) && MajorityByte(s, b)
      ensures a == b
    {
      if a != b {
        TwoCountsBound(s, a, b);
      }
    }
    forall p, q, p', q' | MajorityPair(s, p, q) && MajorityPair(s, p', q')
      ensures p == p' && q == q'
    {
      if p != p' || q != q' {
        TwoPairCountsBound(s, p, q, p', q');
      }
    }
  }

  /** The dump switch wins over everything, and returns 0. */
  lemma DumpWins(s: seq<byte>, m: Model, code: FileType -> int, entropy: seq<Ratio> -> real)
    ensures Classification(s, true, m, code, entropy) == 0
  {
  }

  /** Without dumping, the randomness test comes first. */
  lemma RandomWins(s: seq<byte>, m: Model, code: FileType -> int, entropy: seq<Ratio> -> real)
    requires entropy(UnigramFreqs(s)) > RandomnessThreshold
    ensures StreamOutcome(s, false, m, entropy) == Random
    ensures Classification(s, false, m, code, entropy) == code(Rand)
  {
  }

  /** Past the randomness test: a constant unigram is reported exactly when
      some byte holds a majority and no pair starting with a smaller byte
      does; a constant bigram exactly when some pair holds a majority and no
      byte up to the pair's first byte does; the classifier runs exactly
      when there is neither. */
  lemma {:induction false} PreFilter(s: seq<byte>, m: Model, entropy: seq<Ratio> -> real)
    requires entropy(UnigramFreqs(s)) <= RandomnessThreshold
    ensures StreamOutcome(s, false, m, entropy) == UnigramConstant <==>
      exists b :: 0 <= b < Unigrams && MajorityByte(s, b)
        && forall p, q :: 0 <= p < b && 0 <= q < Unigrams ==> !MajorityPair(s, p, q)
    ensures StreamOutcome(s, false, m, entropy) == BigramConstant <==>
      exists p, q :: 0 <= p < Unigrams && 0 <= q < Unigrams && MajorityPair(s, p, q)
        && forall b :: 0 <= b <= p ==> !MajorityByte(s, b)
    ensures StreamOutcome(s, false, m, entropy).Predicted? <==>
      (forall b :: 0 <= b < Unigrams ==> !MajorityByte(s, b))
      && forall p, q :: 0 <= p < Unigrams && 0 <= q < Unigrams ==> !MajorityPair(s, p, q)
  {
    var uf, bf := UnigramFreqs(s), BigramFreqs(s);
    FrequenciesOfStream(s);
    ScanFirstMatch(uf, bf, 0);
    var h := ScanFrom(uf, bf, 0);
    if h.UnigramAt? {
      assert forall p, q :: 0 <= p < h.b && 0 <= q < Unigrams ==> !MajorityPair(s, p, q) by {
        forall p, q | 0 <= p < h.b && 0 <= q < Unigrams
          ensures !MajorityPair(s, p, q)
        {
          assert Clean(uf, bf, p);
        }
      }
      forall p, q | 0 <= p < Unigrams && 0 <= q < Unigrams && MajorityPair(s, p, q)
        ensures exists b :: 0 <= b <= p && MajorityByte(s, b)
      {
        if p >= h.b {
          assert MajorityByte(s, h.b);
        }
      }
    } else if h.BigramAt? {
      forall b | 0 <= b <= h.p
        ensures !MajorityByte(s, b)
      {
        if b < h.p {
          assert Clean(uf, bf, b);
        }
      }
      forall b | 0 <= b < Unigrams && MajorityByte(s, b)
        ensures exists p, q :: 0 <= p < b && 0 <= q < Unigrams && MajorityPair(s, p, q)
      {
        if b > h.p {
          assert MajorityPair(s, h.p, h.q);
        }
      }
    } else {
      forall b | 0 <= b < Unigrams
        ensures !MajorityByte(s, b)
      {
        assert Clean(uf, bf, b);
      }
      forall p, q | 0 <= p < Unigrams && 0 <= q < Unigrams
        ensures !MajorityPair(s, p, q)
      {
        assert Clean(uf, bf, p);
      }
    }
  }

  /** The scan tests a row's bigrams before the unigram of any larger byte:
      in x y x y x y y y, with x < y, the byte y holds a majority, yet the
      pair (x, y), met first, decides. The bound on entropy is no
      restriction of the program: for this block the entropy the finalizer
      computes (src/sceadan.c:416-417) is about 0.12. */
  lemma InterleavedScan(x: byte, y: byte, m: Model, entropy: seq<Ratio> -> real)
    requires x < y && entropy(UnigramFreqs([x, y, x, y, x, y, y, y])) <= RandomnessThreshold
    ensures MajorityByte([x, y, x, y, x, y, y, y], y)
    ensures StreamOutcome([x, y, x, y, x, y, y, y], false, m, entropy) == BigramConstant
  {
    var s := [x, y, x, y, x, y, y, y];
    InterleavedCounts(x, y);
    PreFilter(s, m, entropy);
    assert MajorityPair(s, x, y);
    forall b | 0 <= b <= x
      ensures !MajorityByte(s, b)
    {
      if b != x {
        TwoCountsBound(s, b, y);
      }
    }
  }

  lemma InterleavedCounts(x: byte, y: byte)
    requires x != y
    ensures Count([x, y, x, y, x, y, y, y], y) == 5
    ensures Count([x, y, x, y, x, y, y, y], x) == 3
    ensures PairCount([x, y, x, y, x, y, y, y], x, y) == 3
  {
    InterleavedUnigrams(x, y);
    InterleavedPairs(x, y);
  }

  lemma InterleavedUnigrams(x: byte, y: byte)
    requires x != y
    ensures Count([x, y, x, y, x, y, y, y], y) == 5
    ensures Count([x, y, x, y, x, y, y, y], x) == 3
  {
    var t: seq<byte> := [];
    var u: seq<byte> := [x, y, x, y, x, y, y, y];
    var i := 0;
    while i < 8
      invariant 0 <= i <= 8 && t == u[..i]
      invariant Count(t, x) == (if i < 5 then (i + 1) / 2 else 3)
      invariant Count(t, y) == (if i < 5 then i / 2 else i - 3)
    {
      CountSnoc(t, u[i]);
      assert u[..i + 1] == u[..i] + [u[i]];
      t := t + [u[i]];
      i := i + 1;
    }
    assert t == u;
  }

  lemma InterleavedPairs(x: byte, y: byte)
    requires x != y
    ensures PairCount([x, y, x, y, x, y, y, y], x, y) == 3
  {
    var s := [x, y, x, y, x, y, y, y];
    PairCountIsAligned(s, x, y);
    var t2, t4, t6: seq<byte> := [x, y, x, y, y, y], [x, y, y, y], [y, y];
    assert t6[2..] == [];
    assert AlignedPairs(t6, x, y) == 0;
    assert t4[2..] == t6;
    assert AlignedPairs(t4, x, y) == 1;
    assert t2[2..] == t4;
    assert AlignedPairs(t2, x, y) == 2;
    assert s[2..] == t2;
  }

  /** A stream of one repeated byte is reported as a constant unigram. The
      bound on entropy is no restriction of the program: the finalizer gives
      a constant block entropy 0 (src/sceadan.c:416-417). */
  lemma ConstantIsUnigramConstant(n: nat, b: byte, m: Model, entropy: seq<Ratio> -> real)
    requires n > 0 && entropy(UnigramFreqs(Repeat(n, b))) <= RandomnessThreshold
    ensures StreamOutcome(Repeat(n, b), false, m, entropy) == UnigramConstant
  {
    var s := Repeat(n, b);
    ConstantStream(n, b);
    PreFilter(s, m, entropy);
    assert MajorityByte(s, b);
    assert forall p, q :: 0 <= p < b && 0 <= q < Unigrams ==> !MajorityPair(s, p, q);
  }

  /** The classifier is reached only for an empty stream or one of at least
      four bytes: one to three bytes always show a majority byte or pair.
      The empty stream, whose frequencies are all 0 / 0, reaches it. The
      bound on entropy is no restriction of the program: the finalizer gives
      the empty block entropy 0 and one to three bytes at most log2(3) / 8
      (src/sceadan.c:416-417). */
  lemma {:induction false} ClassifierNeedsFourBytes(s: seq<byte>, m: Model, entropy: seq<Ratio> -> real)
    requires entropy(UnigramFreqs(s)) <= RandomnessThreshold
    ensures StreamOutcome(s, false, m, entropy).Predicted? ==> |s| == 0 || |s| >= 4
    ensures s == [] ==> StreamOutcome(s, false, m, entropy).Predicted?
  {
    PreFilter(s, m, entropy);
    if |s| == 1 {
      assert Init(s) == [];
      assert MajorityByte(s, s[0]);
    } else if |s| == 2 || |s| == 3 {
      assert s[..2][..0] == [] && Init(s[..2]) == [s[0]];
      if |s| == 3 {
        assert Init(s) == s[..2];
      }
      assert MajorityPair(s, s[0], s[1]);
    }
  }

  // =====================================================================
  // Classification that reports its errors

  /** One call of `read`: some bytes, the end of the file (`rd == 0`), or a
      failure (`rd < 0`). */
  datatype ReadResult = Data(bytes: seq<byte>) | EndOfFile | ReadError

  /** The chunk the read loop sees for one result: every result with
      `rd <= 0` is the same empty chunk. */
  function Chunk(r: ReadResult): seq<byte>
  {
    if r.Data? then r.bytes else []
  }

  function Received(results: seq<ReadResult>): seq<seq<byte>>
  {
    seq(|results|, k requires 0 <= k < |results| => Chunk(results[k]))
  }

  /** Why a classification is refused. */
  datatype Refusal = OpenFailed | ReadFailed | CloseFailed | EmptyInput

  /** A type code, or a refusal that no type code can be mistaken for. */
  datatype Verdict = TypeCode(code: int) | Refused(reason: Refusal)

  /** The number of leading results that deliver bytes. */
  function DataReads(results: seq<ReadResult>): (n: nat)
    ensures n <= |results|
    ensures forall k :: 0 <= k < n ==> results[k].Data? && |results[k].bytes| > 0
    ensures n == |results| || !results[n].Data? || |results[n].bytes| == 0
  {
    if |results| == 0 || !results[0].Data? || |results[0].bytes| == 0 then 0
    else 1 + DataReads(results[1..])
  }

  /** Classification of a stream with the empty stream refused. */
  ghost function CheckedClassification(s: seq<byte>, dump: bool, m: Model, code: FileType -> int,
                                       entropy: seq<Ratio> -> real): Verdict
  {
    if |s| == 0 then Refused(EmptyInput) else TypeCode(Classification(s, dump, m, code, entropy))
  }

  /** Classification of a file where a failed read aborts with its own
      refusal instead of ending the input. */
  ghost function CheckedClassifyFile(openOk: bool, results: seq<ReadResult>, closeOk: bool, dump: bool,
                                     m: Model, code: FileType -> int, entropy: seq<Ratio> -> real): Verdict
  {
    var n := DataReads(results);
    if !openOk then Refused(OpenFailed)
    else if n < |results| && results[n] == ReadError then Refused(ReadFailed)
    else if !closeOk then Refused(CloseFailed)
    else CheckedClassification(Flatten(Received(results)[..n]), dump, m, code, entropy)
  }

  /** As written, the read loop consumes exactly the chunks of the leading
      results that deliver bytes. */
  lemma ReceivedConsumed(results: seq<ReadResult>)
    ensures ReadUntilEof(Received(results)) == Received(results)[..DataReads(results)]
  {
    ReadsConsumed(Received(results), DataReads(results));
  }

  /** As written, a failed read ends the input exactly as the end of the
      file would: the file is classified from the bytes read before the
      failure, and a type code is returned. */
  lemma ReadFailureEndsInput(results: seq<ReadResult>, i: nat)
    requires i < |results| && results[i] == ReadError
    requires forall k :: 0 <= k < i ==> results[k].Data? && |results[k].bytes| > 0
    ensures ReadUntilEof(Received(results)) == ReadUntilEof(Received(results[..i] + [EndOfFile]))
    ensures ReadUntilEof(Received(results)) == Received(results[..i])
  {
    var eof := results[..i] + [EndOfFile];
    assert DataReads(results) == i;
    assert eof[i] == EndOfFile && forall k :: 0 <= k < i ==> eof[k] == results[k];
    assert DataReads(eof) == i;
    ReceivedConsumed(results);
    ReceivedConsumed(eof);
    assert Received(results)[..i] == Received(results[..i]) == Received(eof)[..i];
  }

  /** The empty stream is refused and no other is: a nonempty stream gets
      the type code the code as written returns for it. */
  lemma CheckedRefusesEmptyInput(s: seq<byte>, dump: bool, m: Model, code: FileType -> int,
                                 entropy: seq<Ratio> -> real)
    ensures CheckedClassification(s, dump, m, code, entropy).Refused? <==> |s| == 0
    ensures |s| == 0 ==> CheckedClassification(s, dump, m, code, entropy) == Refused(EmptyInput)
    ensures |s| > 0 ==>
      CheckedClassification(s, dump, m, code, entropy) == TypeCode(Classification(s, dump, m, code, entropy))
  {
  }

  /** A read that fails before the end of the file is reported, whatever
      was read before it and whatever close does. */
  lemma CheckedFileReportsReadFailure(results: seq<ReadResult>, i: nat, closeOk: bool, dump: bool,
                                      m: Model, code: FileType -> int, entropy: seq<Ratio> -> real)
    requires i < |results| && results[i] == ReadError
    requires forall k :: 0 <= k < i ==> results[k].Data? && |results[k].bytes| > 0
    ensures CheckedClassifyFile(true, results, closeOk, dump, m, code, entropy) == Refused(ReadFailed)
  {
    assert DataReads(results) == i;
  }

  /** With no failed read, the checked classification of a file agrees with
      ClassifyFile as written, except that a file with no bytes is refused. */
  lemma CheckedFileAgrees(results: seq<ReadResult>, dump: bool, m: Model, code: FileType -> int,
                          entropy: seq<Ratio> -> real)
    requires DataReads(results) == |results| || results[DataReads(results)] != ReadError
    ensures var s := Flatten(ReadUntilEof(Received(results)));
      CheckedClassifyFile(true, results, true, dump, m, code, entropy)
      == (if |s| == 0 then Refused(EmptyInput) else TypeCode(Classification(s, dump, m, code, entropy)))
  {
    ReceivedConsumed(results);
  }
}
