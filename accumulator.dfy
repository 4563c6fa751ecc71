/** The streaming accumulator (`struct sceadan_vectors`, `vectors_update`)
    and the integer and quotient part of `vectors_finalize`. */
module Accumulator {
  import opened Streams
  import opened Features

  /** Running state of one classification. Every counter is tied by Valid()
      to a function of the bytes consumed so far (Stream); contiguity is tied
      to the chunks themselves (Chunks), because it depends on where the
      chunk boundaries fall. */
  class Vectors {
    const ucv: array<nat>          // unigram counts, by byte value
    const bcv: array2<nat>         // bigram counts, by first and second byte
    var uniSz: nat                 // bytes consumed
    var hammingWeight: nat         // zero bits seen
    var byteValue: nat             // sum of byte values
    var stddevByteVal: nat         // sum of squared byte values
    var contiguity: nat            // sum of distances between adjacent bytes
    var maxByteStreak: nat         // longest run so far
    var loAscii: nat               // bytes below 0x20
    var medAscii: nat              // bytes in 0x20 .. 0x7F
    var hiAscii: nat               // bytes from 0x80 up
    var lastCnt: nat               // length of the current run
    var lastVal: byte              // last byte consumed

    ghost var Chunks: seq<seq<byte>>
    ghost var Stream: seq<byte>

    /** The unigram table agrees with the stream s. */
    ghost predicate Counts(s: seq<byte>)
      reads ucv
    {
      && ucv.Length == Unigrams
      && forall v :: 0 <= v < Unigrams ==> ucv[v] == Count(s, v)
    }

    /** The scalar per-byte counters agree with the stream s. */
    ghost predicate Totals(s: seq<byte>)
      reads this`hammingWeight, this`byteValue, this`stddevByteVal, this`maxByteStreak
      reads this`loAscii, this`medAscii, this`hiAscii, this`lastCnt, this`lastVal
    {
      && hammingWeight == ZeroBits(s)
      && byteValue == ByteSum(s)
      && stddevByteVal == SquareSum(s)
      && maxByteStreak == LongestRun(s)
      && loAscii == LowCount(s)
      && medAscii == MidCount(s)
      && hiAscii == HighCount(s)
      && lastCnt == TrailingRun(s)
      && lastVal == LastByte(s)
    }

    /** The bigram table agrees with the aligned pairs of s. */
    ghost predicate Pairs(s: seq<byte>)
      reads bcv
    {
      && bcv.Length0 == Unigrams && bcv.Length1 == Unigrams
      && forall p, q :: 0 <= p < Unigrams && 0 <= q < Unigrams ==> bcv[p, q] == PairCount(s, p, q)
    }

    ghost predicate Valid()
      reads this, ucv, bcv
    {
      && Stream == Flatten(Chunks)
      && uniSz == |Stream|
      && Counts(Stream) && Totals(Stream)
      && Pairs(Stream)
      && contiguity == Contiguity(Chunks)
    }

    /** The zeroed state (`memset (&v, 0, sizeof (v))`). */
    constructor ()
      ensures Valid() && Chunks == [] && Stream == []
      ensures fresh(ucv) && fresh(bcv)
    {
      ucv := new nat[Unigrams](_ => 0);
      bcv := new nat[Unigrams, Unigrams]((_, _) => 0);
      uniSz, hammingWeight, byteValue, stddevByteVal := 0, 0, 0, 0;
      contiguity, maxByteStreak := 0, 0;
      loAscii, medAscii, hiAscii := 0, 0, 0;
      lastCnt, lastVal := 0, 0;
      Chunks, Stream := [], [];
    }

    /** `vectors_update`: consume one chunk. */
    method Update(buf: seq<byte>)
      requires Valid()
      modifies this, ucv, bcv
      ensures Valid()
      ensures Chunks == old(Chunks) + [buf] && Stream == old(Stream) + buf
      ensures uniSz == old(uniSz) + |buf|
      ensures contiguity == old(contiguity) + ContiguityStep(old(uniSz), old(lastVal), buf)
    {
      Scan(Stream, buf);
      uniSz := uniSz + |buf|;
      FlattenSnoc(Chunks, buf);
      Chunks := Chunks + [buf];
      Stream := Stream + buf;
    }

    /** The loop of `vectors_update` over the bytes of one chunk, which
        continues the stream s0 consumed so far. */
    method Scan(ghost s0: seq<byte>, buf: seq<byte>)
      requires uniSz == |s0| && Counts(s0) && Totals(s0) && Pairs(s0)
      modifies this`hammingWeight, this`byteValue, this`stddevByteVal, this`maxByteStreak
      modifies this`loAscii, this`medAscii, this`hiAscii, this`lastCnt, this`lastVal, ucv
      modifies bcv, this`contiguity
      ensures Counts(s0 + buf) && Totals(s0 + buf) && Pairs(s0 + buf)
      ensures contiguity == old(contiguity) + ContiguityStep(|s0|, LastByte(s0), buf)
    {
      ghost var c0 := contiguity;
      var szMod := uniSz % 2;
      var ndx := 0;
      assert s0 + buf[..0] == s0;
      while ndx < |buf|
        invariant 0 <= ndx <= |buf|
        invariant Counts(s0 + buf[..ndx]) && Totals(s0 + buf[..ndx])
        invariant Pairs(s0 + buf[..Lookahead(|s0|, |buf|, ndx)])
        invariant contiguity == c0 + ContiguitySoFar(|s0|, LastByte(s0), buf, ndx)
      {
        Step(s0, buf, ndx, szMod);
        ndx := ndx + 1;
      }
      ContiguitySoFarWhole(|s0|, LastByte(s0), buf);
      assert buf[..|buf|] == buf;
    }

    /** One pass of the `vectors_update` loop body, for the byte at ndx. */
    method Step(ghost s0: seq<byte>, buf: seq<byte>, ndx: nat, szMod: nat)
      requires ndx < |buf| && szMod == |s0| % 2
      requires Counts(s0 + buf[..ndx]) && Totals(s0 + buf[..ndx])
      requires Pairs(s0 + buf[..Lookahead(|s0|, |buf|, ndx)])
      modifies this`hammingWeight, this`byteValue, this`stddevByteVal, this`maxByteStreak
      modifies this`loAscii, this`medAscii, this`hiAscii, this`lastCnt, this`lastVal, ucv
      modifies bcv, this`contiguity
      ensures Counts(s0 + buf[..ndx + 1]) && Totals(s0 + buf[..ndx + 1])
      ensures Pairs(s0 + buf[..Lookahead(|s0|, |buf|, ndx + 1)])
      ensures contiguity + ContiguitySoFar(|s0|, LastByte(s0), buf, ndx)
        == old(contiguity) + ContiguitySoFar(|s0|, LastByte(s0), buf, ndx + 1)
    {
      ghost var seen := s0 + buf[..ndx];
      PrefixSnoc(s0, buf, ndx);
      assert ndx == 0 ==> seen == s0;
      var unigram := buf[ndx];
      CountByte(seen, unigram);
      PairStep(s0, buf, ndx, szMod);
      Tally(seen, unigram);
    }

    /** The pair part of the `vectors_update` loop body for the byte at ndx:
        the pair that straddles the chunk boundary when the bytes consumed
        before the call are odd in number, otherwise the pair this byte
        starts; the distance is added for every pair, the count only for
        pairs that start at an even stream position. */
    method PairStep(ghost s0: seq<byte>, buf: seq<byte>, ndx: nat, szMod: nat)
      requires ndx < |buf| && szMod == |s0| % 2
      requires ndx == 0 ==> lastVal == LastByte(s0)
      requires Pairs(s0 + buf[..Lookahead(|s0|, |buf|, ndx)])
      modifies bcv, this`contiguity
      ensures Pairs(s0 + buf[..Lookahead(|s0|, |buf|, ndx + 1)])
      ensures contiguity + ContiguitySoFar(|s0|, LastByte(s0), buf, ndx)
        == old(contiguity) + ContiguitySoFar(|s0|, LastByte(s0), buf, ndx + 1)
    {
      ghost var before := s0 + buf[..Lookahead(|s0|, |buf|, ndx)];
      ghost var after := s0 + buf[..Lookahead(|s0|, |buf|, ndx + 1)];
      BigramStep(s0, buf, ndx);
      ContiguitySoFarStep(|s0|, LastByte(s0), buf, ndx);
      var unigram := buf[ndx];
      if ndx == 0 && szMod != 0 {
        var prev, next := lastVal, unigram;
        CountPair(before, after, prev, next);
        contiguity := contiguity + Distance(next, prev);
      } else if ndx + 1 < |buf| {
        var prev, next := unigram, buf[ndx + 1];
        contiguity := contiguity + Distance(next, prev);
        if ndx % 2 == szMod {
          CountPair(before, after, prev, next);
        }
      }
    }

    /** `v->bcv[prev][next].tot++`. */
    method CountPair(ghost before: seq<byte>, ghost after: seq<byte>, prev: byte, next: byte)
      requires Pairs(before)
      requires forall p, q ::
        PairCount(after, p, q) == PairCount(before, p, q) + (if p == prev && q == next then 1 else 0)
      modifies bcv
      ensures Pairs(after)
    {
      bcv[prev, next] := bcv[prev, next] + 1;
    }

    /** `v->ucv[unigram].tot++`. */
    method CountByte(ghost pre: seq<byte>, unigram: byte)
      requires Counts(pre)
      modifies ucv
      ensures Counts(pre + [unigram])
    {
      CountSnoc(pre, unigram);
      ucv[unigram] := ucv[unigram] + 1;
    }

    /** The rest of the per-byte part of the `vectors_update` loop body: the
        zero bits, the sums, the run tracker and the ASCII buckets. */
    method Tally(ghost pre: seq<byte>, unigram: byte)
      requires Totals(pre)
      modifies this`hammingWeight, this`byteValue, this`stddevByteVal, this`maxByteStreak
      modifies this`loAscii, this`medAscii, this`hiAscii, this`lastCnt, this`lastVal
      ensures Totals(pre + [unigram])
    {
      TotalsSnoc(pre, unigram);
      RunsSnoc(pre, unigram);
      hammingWeight := hammingWeight + (UnigramBits - PopCount(unigram));
      byteValue := byteValue + unigram;
      stddevByteVal := stddevByteVal + Square(unigram);
      if lastCnt != 0 && lastVal == unigram {
        lastCnt := lastCnt + 1;
      } else {
        lastCnt := 1;
        lastVal := unigram;
      }
      maxByteStreak := Max(lastCnt, maxByteStreak);
      if unigram < AsciiLoVal {
        loAscii := loAscii + 1;
      } else if unigram < AsciiHiVal {
        medAscii := medAscii + 1;
      } else {
        hiAscii := hiAscii + 1;
      }
    }

    /** The integer and quotient part of `vectors_finalize`: every
        normalized feature kept as an exact quotient. An empty stream is
        not rejected: every quotient then has a zero denominator. */
    method Finalize(entropy: seq<Ratio> -> real) returns (f: Features)
      requires Valid()
      ensures f.WellShaped()
      ensures f.ufreq == UnigramFreqs(Stream) && f.bfreq == BigramFreqs(Stream)
      ensures f.itemEntropy == entropy(f.ufreq)
      ensures f.hammingWeight == Ratio(ZeroBits(Stream), UnigramBits * |Stream|)
      ensures f.byteValue == Ratio(ByteSum(Stream), Unigrams * |Stream|)
      ensures f.contiguity == Ratio(Contiguity(Chunks), Unigrams * |Stream|)
      ensures f.maxByteStreak == Ratio(LongestRun(Stream), |Stream|)
      ensures f.loAsciiFreq == Ratio(LowCount(Stream), |Stream|)
      ensures f.medAsciiFreq == Ratio(MidCount(Stream), |Stream|)
      ensures f.hiAsciiFreq == Ratio(HighCount(Stream), |Stream|)
      ensures f.hammingWeight.num <= f.hammingWeight.den
      ensures f.maxByteStreak.num <= f.maxByteStreak.den
      ensures |Stream| > 0 ==> 1 <= f.maxByteStreak.num
      ensures f.loAsciiFreq.num + f.medAsciiFreq.num + f.hiAsciiFreq.num == f.loAsciiFreq.den
    {
      var uf: seq<Ratio> := [];
      var bf: seq<seq<Ratio>> := [];
      var i := 0;
      while i < Unigrams
        invariant 0 <= i <= Unigrams
        invariant |uf| == i && forall k :: 0 <= k < i ==> uf[k] == UnigramFreqs(Stream)[k]
        invariant |bf| == i && forall k :: 0 <= k < i ==> bf[k] == BigramFreqs(Stream)[k]
      {
        uf := uf + [Ratio(ucv[i], uniSz)];
        var row: seq<Ratio> := [];
        var j := 0;
        while j < Unigrams
          invariant 0 <= j <= Unigrams
          invariant |row| == j
          invariant forall k :: 0 <= k < j ==> row[k] == Ratio(PairCount(Stream, i, k), uniSz / 2)
        {
          row := row + [Ratio(bcv[i, j], uniSz / 2)];
          j := j + 1;
        }
        assert row == BigramFreqs(Stream)[i];
        bf := bf + [row];
        i := i + 1;
      }
      assert uf == UnigramFreqs(Stream);
      assert bf == BigramFreqs(Stream);
      ZeroBitsBound(Stream);
      if |Stream| > 0 {
        StreakBounds(Stream);
      }
      BucketsPartition(Stream);
      f := Features(
        uf, bf, entropy(uf),
        Ratio(hammingWeight, uniSz * UnigramBits),
        Ratio(byteValue, uniSz * Unigrams),
        Ratio(contiguity, uniSz * Unigrams),
        Ratio(maxByteStreak, uniSz),
        Ratio(loAscii, uniSz),
        Ratio(medAscii, uniSz),
        Ratio(hiAscii, uniSz));
    }
  }

  // -----------------------------------------------------------------------
  // Loop bookkeeping for Update

  /** How far into the chunk the bigram table has counted after ndx bytes:
      a byte at an even stream position already counted its pair with the
      byte after it, one step ahead. */
  ghost function Lookahead(seen: nat, n: nat, ndx: nat): nat
  {
    if 0 < ndx < n && (seen + ndx) % 2 == 1 then ndx + 1 else ndx
  }

  /** Contiguity added by the first ndx steps of one call. */
  ghost function ContiguitySoFar(seen: nat, last: byte, buf: seq<byte>, ndx: nat): nat
    requires ndx <= |buf|
  {
    var reach := if ndx + 1 < |buf| then ndx + 1 else |buf|;
    if ndx == 0 then 0
    else if seen % 2 == 1 then Distance(buf[0], last) + AdjacentDistance(buf[1..reach])
    else AdjacentDistance(buf[..reach])
  }

  lemma ContiguitySoFarStep(seen: nat, last: byte, buf: seq<byte>, ndx: nat)
    requires ndx < |buf|
    ensures ndx == 0 && seen % 2 == 1 ==>
      ContiguitySoFar(seen, last, buf, ndx + 1) == ContiguitySoFar(seen, last, buf, ndx) + Distance(buf[0], last)
    ensures !(ndx == 0 && seen % 2 == 1) && ndx + 1 < |buf| ==>
      ContiguitySoFar(seen, last, buf, ndx + 1)
      == ContiguitySoFar(seen, last, buf, ndx) + Distance(buf[ndx + 1], buf[ndx])
    ensures !(ndx == 0 && seen % 2 == 1) && ndx + 1 == |buf| ==>
      ContiguitySoFar(seen, last, buf, ndx + 1) == ContiguitySoFar(seen, last, buf, ndx)
  {
    var n := |buf|;
    if ndx == 0 {
      if seen % 2 == 1 {
        assert buf[1..1] == [];
      } else if 1 < n {
        assert buf[..2] == [buf[0]] + [buf[1]];
        AdjacentDistanceSnoc([buf[0]], buf[1]);
      }
    } else if ndx + 1 < n {
      if seen % 2 == 1 {
        assert buf[1..ndx + 2] == buf[1..ndx + 1] + [buf[ndx + 1]];
        AdjacentDistanceSnoc(buf[1..ndx + 1], buf[ndx + 1]);
      } else {
        assert buf[..ndx + 2] == buf[..ndx + 1] + [buf[ndx + 1]];
        AdjacentDistanceSnoc(buf[..ndx + 1], buf[ndx + 1]);
      }
    }
  }

  /** After the whole chunk, the steps add up to the chunk's contiguity. */
  lemma ContiguitySoFarWhole(seen: nat, last: byte, buf: seq<byte>)
    ensures ContiguitySoFar(seen, last, buf, |buf|) == ContiguityStep(seen, last, buf)
  {
    assert buf[..|buf|] == buf;
  }

  /** What one step of Update does to the bigram table. */
  lemma BigramStep(s0: seq<byte>, buf: seq<byte>, ndx: nat)
    requires ndx < |buf|
    ensures ndx == 0 && |s0| % 2 == 1 ==> forall p, q ::
      PairCount(s0 + buf[..Lookahead(|s0|, |buf|, ndx + 1)], p, q)
      == PairCount(s0 + buf[..Lookahead(|s0|, |buf|, ndx)], p, q)
         + (if p == LastByte(s0) && q == buf[0] then 1 else 0)
    ensures !(ndx == 0 && |s0| % 2 == 1) && ndx + 1 < |buf| && ndx % 2 == |s0| % 2 ==> forall p, q ::
      PairCount(s0 + buf[..Lookahead(|s0|, |buf|, ndx + 1)], p, q)
      == PairCount(s0 + buf[..Lookahead(|s0|, |buf|, ndx)], p, q)
         + (if p == buf[ndx] && q == buf[ndx + 1] then 1 else 0)
    ensures !(ndx == 0 && |s0| % 2 == 1) && !(ndx + 1 < |buf| && ndx % 2 == |s0| % 2) ==> forall p, q ::
      PairCount(s0 + buf[..Lookahead(|s0|, |buf|, ndx + 1)], p, q)
      == PairCount(s0 + buf[..Lookahead(|s0|, |buf|, ndx)], p, q)
  {
    if ndx == 0 && |s0| % 2 == 1 {
      forall p, q
        ensures PairCount(s0 + buf[..Lookahead(|s0|, |buf|, ndx + 1)], p, q)
          == PairCount(s0 + buf[..Lookahead(|s0|, |buf|, ndx)], p, q) + (if p == LastByte(s0) && q == buf[0] then 1 else 0)
      {
        BigramStepAt(s0, buf, ndx, p, q);
      }
    } else if ndx + 1 < |buf| && ndx % 2 == |s0| % 2 {
      forall p, q
        ensures PairCount(s0 + buf[..Lookahead(|s0|, |buf|, ndx + 1)], p, q)
          == PairCount(s0 + buf[..Lookahead(|s0|, |buf|, ndx)], p, q) + (if p == buf[ndx] && q == buf[ndx + 1] then 1 else 0)
      {
        BigramStepAt(s0, buf, ndx, p, q);
      }
    } else {
      forall p, q
        ensures PairCount(s0 + buf[..Lookahead(|s0|, |buf|, ndx + 1)], p, q) == PairCount(s0 + buf[..Lookahead(|s0|, |buf|, ndx)], p, q)
      {
        BigramStepAt(s0, buf, ndx, p, q);
      }
    }
  }

  lemma BigramStepAt(s0: seq<byte>, buf: seq<byte>, ndx: nat, p: int, q: int)
    requires ndx < |buf|
    ensures ndx == 0 && |s0| % 2 == 1 ==>
      PairCount(s0 + buf[..Lookahead(|s0|, |buf|, ndx + 1)], p, q)
      == PairCount(s0 + buf[..Lookahead(|s0|, |buf|, ndx)], p, q)
         + (if p == LastByte(s0) && q == buf[0] then 1 else 0)
    ensures !(ndx == 0 && |s0| % 2 == 1) && ndx + 1 < |buf| && ndx % 2 == |s0| % 2 ==>
      PairCount(s0 + buf[..Lookahead(|s0|, |buf|, ndx + 1)], p, q)
      == PairCount(s0 + buf[..Lookahead(|s0|, |buf|, ndx)], p, q)
         + (if p == buf[ndx] && q == buf[ndx + 1] then 1 else 0)
    ensures !(ndx == 0 && |s0| % 2 == 1) && !(ndx + 1 < |buf| && ndx % 2 == |s0| % 2) ==>
      PairCount(s0 + buf[..Lookahead(|s0|, |buf|, ndx + 1)], p, q)
      == PairCount(s0 + buf[..Lookahead(|s0|, |buf|, ndx)], p, q)
  {
    if ndx == 0 && |s0| % 2 == 1 {
      PairAcrossCalls(s0, buf, p, q);
    } else if ndx + 1 < |buf| && ndx % 2 == |s0| % 2 {
      PairWithinCall(s0, buf, ndx, p, q);
    } else {
      NoPairAt(s0, buf, ndx, p, q);
    }
  }

  /** The pair that opens a call when the stream so far has odd length. */
  lemma PairAcrossCalls(s0: seq<byte>, buf: seq<byte>, p: int, q: int)
    requires 0 < |buf| && |s0| % 2 == 1
    ensures PairCount(s0 + buf[..Lookahead(|s0|, |buf|, 1)], p, q)
      == PairCount(s0 + buf[..Lookahead(|s0|, |buf|, 0)], p, q)
         + (if p == LastByte(s0) && q == buf[0] then 1 else 0)
  {
    assert Lookahead(|s0|, |buf|, 0) == 0 && Lookahead(|s0|, |buf|, 1) == 1;
    PrefixPairCount(s0, buf, 0, p, q);
    assert s0 + buf[..0] == s0;
  }

  /** A pair read inside one call's buffer, at an even stream position. */
  lemma PairWithinCall(s0: seq<byte>, buf: seq<byte>, ndx: nat, p: int, q: int)
    requires ndx + 1 < |buf| && ndx % 2 == |s0| % 2
    ensures PairCount(s0 + buf[..Lookahead(|s0|, |buf|, ndx + 1)], p, q)
      == PairCount(s0 + buf[..Lookahead(|s0|, |buf|, ndx)], p, q)
         + (if p == buf[ndx] && q == buf[ndx + 1] then 1 else 0)
  {
    assert Lookahead(|s0|, |buf|, ndx) == ndx;
    assert Lookahead(|s0|, |buf|, ndx + 1) == ndx + 2;
    PrefixPairCount(s0, buf, ndx, p, q);
    PrefixPairCount(s0, buf, ndx + 1, p, q);
    assert LastByte(s0 + buf[..ndx + 1]) == buf[ndx];
  }

  /** Every other step reads no pair. */
  lemma NoPairAt(s0: seq<byte>, buf: seq<byte>, ndx: nat, p: int, q: int)
    requires ndx < |buf|
    requires !(ndx == 0 && |s0| % 2 == 1) && !(ndx + 1 < |buf| && ndx % 2 == |s0| % 2)
    ensures PairCount(s0 + buf[..Lookahead(|s0|, |buf|, ndx + 1)], p, q) == PairCount(s0 + buf[..Lookahead(|s0|, |buf|, ndx)], p, q)
  {
    var l0, l1 := Lookahead(|s0|, |buf|, ndx), Lookahead(|s0|, |buf|, ndx + 1);
    if l1 != l0 {
      assert l0 == ndx && l1 == ndx + 1 && (|s0| + ndx) % 2 == 0;
      PrefixPairCount(s0, buf, ndx, p, q);
    }
  }

  /** One more byte of the call's buffer: a pair closes when it lands at an
      odd position of the stream. */
  lemma PrefixPairCount(s0: seq<byte>, buf: seq<byte>, m: nat, p: int, q: int)
    requires m < |buf|
    ensures PairCount(s0 + buf[..m + 1], p, q)
      == PairCount(s0 + buf[..m], p, q)
         + (if (|s0| + m) % 2 == 1 && LastByte(s0 + buf[..m]) == p && buf[m] == q then 1 else 0)
  {
    PrefixSnoc(s0, buf, m);
    PairCountSnocAt(s0 + buf[..m], buf[m], p, q);
  }
}
