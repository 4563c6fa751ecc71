/** The decision on a finalized feature set (`predict_liblin`): the dump
    switch, the randomness cut-off, the scan for a constant unigram or
    bigram, and otherwise the feature vector handed to the classifier
    (`do_predict`). */
module Decision {
  import opened Streams
  import opened Features
  import opened Registry
  import opened Wrappers

  /** Above this normalized entropy a block is called random. */
  const RandomnessThreshold: real := 0.995

  /** Number of possible bigrams. */
  const Bigrams: nat := Unigrams * Unigrams

  /** Size of the feature-node buffer the decision allocates. */
  const MaxNrAttr: nat := Bigrams + Unigrams + 3

  // ---------------------------------------------------------------------
  // The classifier's input

  /** The value slot of a feature node: a frequency, the model's bias, or
      nothing (the terminator). */
  datatype FeatureValue = Freq(r: Ratio) | Bias(b: real) | Unset

  datatype FeatureNode = Node(index: int, value: FeatureValue)

  /** What the decision reads of a trained model; predict is the trained
      linear classifier, which this model does not describe. */
  datatype Model = Model(nrFeature: int, bias: real, predict: seq<FeatureNode> -> int)

  /** Nodes 1 .. 256: the unigram frequencies. */
  ghost function UnigramNodes(uf: seq<Ratio>): seq<FeatureNode>
    requires |uf| == Unigrams
  {
    seq(Unigrams, k requires 0 <= k < Unigrams => Node(k + 1, Freq(uf[k])))
  }

  /** Nodes 257 .. 65792: the bigram frequencies, row by row. */
  ghost function BigramNodes(bf: seq<seq<Ratio>>): seq<FeatureNode>
    requires |bf| == Unigrams && forall p :: 0 <= p < Unigrams ==> |bf[p]| == Unigrams
  {
    seq(Bigrams, t requires 0 <= t < Bigrams => Node(Unigrams + t + 1, Freq(bf[t / Unigrams][t % Unigrams])))
  }

  /** The bias node, present when the model's bias is not negative. */
  ghost function BiasNodes(m: Model): seq<FeatureNode>
  {
    if m.bias >= 0.0 then [Node(m.nrFeature + 1, Bias(m.bias))] else []
  }

  /** The feature vector of `do_predict`, terminator included. */
  ghost function FeatureVector(uf: seq<Ratio>, bf: seq<seq<Ratio>>, m: Model): seq<FeatureNode>
    requires Shaped(uf, bf)
  {
    UnigramNodes(uf) + BigramNodes(bf) + BiasNodes(m) + [Node(-1, Unset)]
  }

  /** Position Unigrams + 256 * p + q of the bigram part is the pair (p, q). */
  lemma RowColumn(p: nat, q: nat)
    requires p < Unigrams && q < Unigrams
    ensures (Unigrams * p + q) / Unigrams == p && (Unigrams * p + q) % Unigrams == q
    ensures Unigrams * p + q < Bigrams
  {
  }

  /** The layout of the feature vector: where every node sits, which index
      it carries, and that it fits the buffer the decision allocates. */
  lemma {:induction false} FeatureVectorLayout(uf: seq<Ratio>, bf: seq<seq<Ratio>>, m: Model)
    requires Shaped(uf, bf)
    ensures |FeatureVector(uf, bf, m)| == Unigrams + Bigrams + (if m.bias >= 0.0 then 1 else 0) + 1
    ensures |FeatureVector(uf, bf, m)| < MaxNrAttr
    ensures forall k :: 0 <= k < Unigrams ==> FeatureVector(uf, bf, m)[k] == Node(k + 1, Freq(uf[k]))
    ensures forall p, q :: 0 <= p < Unigrams && 0 <= q < Unigrams ==>
      FeatureVector(uf, bf, m)[Unigrams + Unigrams * p + q] == Node(Unigrams + Unigrams * p + q + 1, Freq(bf[p][q]))
    ensures m.bias >= 0.0 ==>
      FeatureVector(uf, bf, m)[Unigrams + Bigrams] == Node(m.nrFeature + 1, Bias(m.bias))
    ensures FeatureVector(uf, bf, m)[|FeatureVector(uf, bf, m)| - 1].index == -1
  {
    var fv := FeatureVector(uf, bf, m);
    forall p, q | 0 <= p < Unigrams && 0 <= q < Unigrams
      ensures fv[Unigrams + Unigrams * p + q] == Node(Unigrams + Unigrams * p + q + 1, Freq(bf[p][q]))
    {
      RowColumn(p, q);
      assert fv[Unigrams + Unigrams * p + q] == BigramNodes(bf)[Unigrams * p + q];
    }
  }

  /** With no bias node, or a bias index above the bigram block, the
      indices before the terminator are positive and strictly ascending, as
      the classifier expects. */
  lemma {:induction false} IndicesAscend(uf: seq<Ratio>, bf: seq<seq<Ratio>>, m: Model)
    requires Shaped(uf, bf)
    requires m.bias < 0.0 || m.nrFeature >= Unigrams + Bigrams
    ensures forall i, j :: 0 <= i < j < |FeatureVector(uf, bf, m)| - 1 ==>
      0 < FeatureVector(uf, bf, m)[i].index < FeatureVector(uf, bf, m)[j].index
  {
    var fv := FeatureVector(uf, bf, m);
    var n := Unigrams + Bigrams;
    forall i | 0 <= i < n
      ensures fv[i].index == i + 1
    {
      if i >= Unigrams {
        assert fv[i] == BigramNodes(bf)[i - Unigrams];
      }
    }
    if m.bias >= 0.0 {
      assert fv[n].index == m.nrFeature + 1;
    }
  }

  /** `do_predict`: fill the buffer with the feature vector and run the
      classifier on it. */
  method DoPredict(m: Model, uf: seq<Ratio>, bf: seq<seq<Ratio>>, x: array<FeatureNode>) returns (r: int)
    requires Shaped(uf, bf)
    requires x.Length >= Unigrams + Bigrams + 2
    modifies x
    ensures x[..|FeatureVector(uf, bf, m)|] == FeatureVector(uf, bf, m)
    ensures r == m.predict(FeatureVector(uf, bf, m))
  {
    var nrFeature := m.nrFeature;
    var n := if m.bias >= 0.0 then nrFeature + 1 else nrFeature;
    var i := 0;
    for k := 0 to Unigrams
      invariant i == k
      invariant forall t :: 0 <= t < i ==> x[t] == UnigramNodes(uf)[t]
    {
      x[i] := Node(i + 1, Freq(uf[k]));
      i := i + 1;
    }
    for k := 0 to Unigrams
      invariant i == Unigrams + Unigrams * k
      invariant forall t :: 0 <= t < Unigrams ==> x[t] == UnigramNodes(uf)[t]
      invariant forall t :: Unigrams <= t < i ==> x[t] == BigramNodes(bf)[t - Unigrams]
    {
      for j := 0 to Unigrams
        invariant i == Unigrams + Unigrams * k + j
        invariant forall t :: 0 <= t < Unigrams ==> x[t] == UnigramNodes(uf)[t]
        invariant forall t :: Unigrams <= t < i ==> x[t] == BigramNodes(bf)[t - Unigrams]
      {
        RowColumn(k, j);
        x[i] := Node(i + 1, Freq(bf[k][j]));
        i := i + 1;
      }
    }
    if m.bias >= 0.0 {
      x[i] := Node(n, Bias(m.bias));
      i := i + 1;
    }
    x[i] := Node(-1, Unset);
    assert x[..i + 1] == FeatureVector(uf, bf, m);
    r := m.predict(x[..i + 1]);
  }

  // ---------------------------------------------------------------------
  // The pre-filter

  /** Where the pre-filter's scan stops: at a unigram frequency above one
      half, at a bigram frequency above one half, or nowhere. */
  datatype Hit = NoHit | UnigramAt(b: nat) | BigramAt(p: nat, q: nat)

  /** Row k passes the scan: neither its unigram nor any of its bigrams is
      above one half. */
  ghost predicate Clean(uf: seq<Ratio>, bf: seq<seq<Ratio>>, k: nat)
    requires Shaped(uf, bf) && k < Unigrams
  {
    !uf[k].ExceedsHalf() && forall q :: 0 <= q < Unigrams ==> !bf[k][q].ExceedsHalf()
  }

  /** The first column from j on whose bigram frequency is above one half. */
  function FirstInRow(row: seq<Ratio>, j: nat): (r: Option<nat>)
    requires j <= |row|
    decreases |row| - j
    ensures r.Some? ==>
      && j <= r.value < |row| && row[r.value].ExceedsHalf()
      && forall q :: j <= q < r.value ==> !row[q].ExceedsHalf()
    ensures r.None? <==> forall q :: j <= q < |row| ==> !row[q].ExceedsHalf()
  {
    if j == |row| then None
    else if row[j].ExceedsHalf() then Some(j)
    else FirstInRow(row, j + 1)
  }

  /** The scan from row i on: the unigram of a row is tested before the
      bigrams of that row, and a row before the next. */
  function ScanFrom(uf: seq<Ratio>, bf: seq<seq<Ratio>>, i: nat): Hit
    requires Shaped(uf, bf) && i <= Unigrams
    decreases Unigrams - i
  {
    if i == Unigrams then NoHit
    else if uf[i].ExceedsHalf() then UnigramAt(i)
    else match FirstInRow(bf[i], 0)
      case Some(q) => BigramAt(i, q)
      case None => ScanFrom(uf, bf, i + 1)
  }

  /** The scan stops at the first frequency above one half, in the order
      row unigram, then row bigrams, row by row; it finds nothing exactly
      when every row is clean. */
  lemma {:induction false} ScanFirstMatch(uf: seq<Ratio>, bf: seq<seq<Ratio>>, i: nat)
    requires Shaped(uf, bf) && i <= Unigrams
    decreases Unigrams - i
    ensures ScanFrom(uf, bf, i) == NoHit <==> forall k :: i <= k < Unigrams ==> Clean(uf, bf, k)
    ensures ScanFrom(uf, bf, i).UnigramAt? ==>
      var b := ScanFrom(uf, bf, i).b;
      && i <= b < Unigrams && uf[b].ExceedsHalf()
      && forall k :: i <= k < b ==> Clean(uf, bf, k)
    ensures ScanFrom(uf, bf, i).BigramAt? ==>
      var p, q := ScanFrom(uf, bf, i).p, ScanFrom(uf, bf, i).q;
      && i <= p < Unigrams && q < Unigrams
      && !uf[p].ExceedsHalf() && bf[p][q].ExceedsHalf()
      && (forall q' :: 0 <= q' < q ==> !bf[p][q'].ExceedsHalf())
      && forall k :: i <= k < p ==> Clean(uf, bf, k)
  {
    if i < Unigrams {
      if uf[i].ExceedsHalf() || FirstInRow(bf[i], 0).Some? {
        assert !Clean(uf, bf, i);
      } else {
        ScanFirstMatch(uf, bf, i + 1);
      }
    }
  }

  /** The scan of row i, whose unigram passed, up to column j: it stops at
      a first bigram above one half, or moves on to the next row. */
  lemma RowStep(uf: seq<Ratio>, bf: seq<seq<Ratio>>, i: nat, j: nat)
    requires Shaped(uf, bf) && i < Unigrams && j <= Unigrams && !uf[i].ExceedsHalf()
    requires forall q :: 0 <= q < j ==> !bf[i][q].ExceedsHalf()
    ensures j == Unigrams ==> ScanFrom(uf, bf, i) == ScanFrom(uf, bf, i + 1)
    ensures j < Unigrams && bf[i][j].ExceedsHalf() ==> ScanFrom(uf, bf, i) == BigramAt(i, j)
  {
  }

  /** What the decision answers. */
  datatype Outcome = Dump | Random | UnigramConstant | BigramConstant | Predicted(answer: int)

  /** The decision on a feature set, as a function. */
  ghost function Decide(uf: seq<Ratio>, bf: seq<seq<Ratio>>, itemEntropy: real, dump: bool, m: Model): Outcome
    requires Shaped(uf, bf)
  {
    if dump then Dump
    else if itemEntropy > RandomnessThreshold then Random
    else match ScanFrom(uf, bf, 0)
      case UnigramAt(_) => UnigramConstant
      case BigramAt(_, _) => BigramConstant
      case NoHit => Predicted(m.predict(FeatureVector(uf, bf, m)))
  }

  /** The integer the decision returns for each outcome; code gives the
      numeric value of each file type. */
  function OutcomeCode(o: Outcome, code: FileType -> int): int
  {
    match o
      case Dump => 0
      case Random => code(Rand)
      case UnigramConstant => code(UcvConst)
      case BigramConstant => code(BcvConst)
      case Predicted(answer) => answer
  }

  /** `predict_liblin`. */
  method PredictLiblin(f: Features, dump: bool, m: Model, code: FileType -> int) returns (r: int)
    requires f.WellShaped()
    ensures r == OutcomeCode(Decide(f.ufreq, f.bfreq, f.itemEntropy, dump, m), code)
  {
    if dump {
      return 0;
    }
    if f.itemEntropy > RandomnessThreshold {
      return code(Rand);
    }
    var uf, bf := f.ufreq, f.bfreq;
    var i := 0;
    while i < Unigrams
      invariant 0 <= i <= Unigrams
      invariant ScanFrom(uf, bf, i) == ScanFrom(uf, bf, 0)
    {
      if uf[i].ExceedsHalf() {
        return code(UcvConst);
      }
      var j := 0;
      while j < Unigrams
        invariant 0 <= j <= Unigrams
        invariant forall q :: 0 <= q < j ==> !bf[i][q].ExceedsHalf()
      {
        if bf[i][j].ExceedsHalf() {
          RowStep(uf, bf, i, j);
          return code(BcvConst);
        }
        j := j + 1;
      }
      RowStep(uf, bf, i, Unigrams);
      i := i + 1;
    }
    r := Predict(m, uf, bf);
  }

  /** The tail of `predict_liblin`: a buffer of MaxNrAttr nodes, filled and
      classified by `do_predict`. */
  method Predict(m: Model, uf: seq<Ratio>, bf: seq<seq<Ratio>>) returns (r: int)
    requires Shaped(uf, bf)
    ensures r == m.predict(FeatureVector(uf, bf, m))
  {
    var x := new FeatureNode[MaxNrAttr](_ => Node(0, Unset));
    r := DoPredict(m, uf, bf, x);
  }
}
