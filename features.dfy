/** The finalized feature set: every quotient the finalizer computes, kept
    exact as a numerator over a denominator instead of a double. */
module Features {
  import opened Streams

  /** num / den. A zero denominator stands for C's 0.0 / 0, a NaN. */
  datatype Ratio = Ratio(num: nat, den: nat)
  {
    /** The `avg > .5` test of the pre-filter, on the exact quotient; false
        for 0 / 0, as every comparison with a NaN is. */
    predicate ExceedsHalf()
    {
      2 * num > den
    }

    function Value(): real
      requires den > 0
    {
      num as real / den as real
    }
  }

  /** For a positive denominator the integer test is the comparison of the
      quotient with one half; 0 / 0 never exceeds it. */
  lemma ExceedsHalfMeansAboveHalf(r: Ratio)
    ensures r.den > 0 ==> (r.ExceedsHalf() <==> r.Value() > 0.5)
    ensures r.den == 0 && r.num == 0 ==> !r.ExceedsHalf()
  {
    if r.den > 0 {
      DivAboveHalf(r.num as real, r.den as real);
    }
  }

  lemma DivAboveHalf(n: real, d: real)
    requires d > 0.0
    ensures n / d > 0.5 <==> 2.0 * n > d
  {
    var v := n / d;
    assert v * d == n;
    if v > 0.5 {
      assert v * d > 0.5 * d;
    }
  }

  datatype Features = Features(
    ufreq: seq<Ratio>,             // unigram frequency, per byte value
    bfreq: seq<seq<Ratio>>,        // bigram frequency, per first byte, per second byte
    itemEntropy: real,             // normalized unigram entropy (computed outside this model)
    hammingWeight: Ratio,
    byteValue: Ratio,
    contiguity: Ratio,
    maxByteStreak: Ratio,
    loAsciiFreq: Ratio,
    medAsciiFreq: Ratio,
    hiAsciiFreq: Ratio)
  {
    /** The table shapes the pre-filter and the feature-vector layout read. */
    ghost predicate WellShaped()
    {
      Shaped(ufreq, bfreq)
    }
  }

  /** A table of 256 unigram frequencies and a 256 x 256 table of bigram
      frequencies. */
  ghost predicate Shaped(uf: seq<Ratio>, bf: seq<seq<Ratio>>)
  {
    |uf| == Unigrams && |bf| == Unigrams && forall p :: 0 <= p < Unigrams ==> |bf[p]| == Unigrams
  }

  /** Unigram frequencies of a stream: count over the number of bytes. */
  ghost function UnigramFreqs(s: seq<byte>): seq<Ratio>
  {
    seq(Unigrams, v => Ratio(Count(s, v), |s|))
  }

  /** Bigram frequencies of a stream: count over the number of pairs,
      `uni_sz / 2` rounded down. */
  ghost function BigramFreqs(s: seq<byte>): seq<seq<Ratio>>
  {
    seq(Unigrams, p => seq(Unigrams, q => Ratio(PairCount(s, p, q), |s| / 2)))
  }
}
