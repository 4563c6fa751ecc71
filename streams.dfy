/** Specification of the statistics the streaming accumulator keeps, as
    functions of the bytes seen so far (and, for contiguity, of how those
    bytes were split into chunks). Every function is defined by extension at
    the back of the stream, the way the accumulator consumes it. */
module Streams {

  type byte = b: int | 0 <= b < 256

  /** Bits in a unigram (`nbit_unigram`). */
  const UnigramBits: nat := 8
  /** Number of possible unigrams (`n_unigram`). */
  const Unigrams: nat := 256
  /** Low ASCII is below this value, medium ASCII from here up (`ASCII_LO_VAL`). */
  const AsciiLoVal: nat := 0x20
  /** High ASCII starts here (`ASCII_HI_VAL`). */
  const AsciiHiVal: nat := 0x80

  function Abs(x: int): (r: nat)
    ensures r == x || r == -x
  {
    if x < 0 then -x else x
  }

  /** `abs (next - prev)` on two bytes promoted to int. */
  function Distance(next: byte, prev: byte): (r: nat)
    ensures r <= 255
    ensures r == 0 <==> next == prev
  {
    Abs(next as int - prev as int)
  }

  /** `__builtin_powi (b, 2)`, exact for a byte. */
  function Square(b: byte): (r: nat)
    ensures r <= 255 * 255
  {
    (b as int) * (b as int)
  }

  /** The larger of two accumulator values. */
  function Max(a: nat, b: nat): (r: nat)
    ensures r >= a && r >= b
    ensures r == a || r == b
  {
    if a > b then a else b
  }

  /** Set bits among the lowest k bits of n. */
  function PopCountBits(n: nat, k: nat): (r: nat)
    ensures r <= k
    ensures n == 0 ==> r == 0
  {
    if k == 0 then 0 else n % 2 + PopCountBits(n / 2, k - 1)
  }

  /** `__builtin_popcount` of a byte. */
  function PopCount(b: byte): (r: nat)
    ensures r <= UnigramBits
  {
    PopCountBits(b, UnigramBits)
  }

  /** The byte last consumed, 0 before any byte (the zeroed `last_val`). */
  function LastByte(s: seq<byte>): byte
  {
    if |s| == 0 then 0 else s[|s| - 1]
  }

  function Init(s: seq<byte>): seq<byte>
    requires |s| > 0
  {
    s[..|s| - 1]
  }

  // ---------------------------------------------------------------------
  // Counts

  /** Occurrences of v in s. */
  ghost function Count(s: seq<byte>, v: int): nat
  {
    if |s| == 0 then 0
    else Count(Init(s), v) + (if s[|s| - 1] == v then 1 else 0)
  }

  /** Occurrences of the pair (p, q) among the non-overlapping pairs
      (s[2k], s[2k+1]) of s: a byte at an odd position closes the pair
      opened by the byte before it. */
  ghost function PairCount(s: seq<byte>, p: int, q: int): nat
  {
    if |s| < 2 then 0
    else PairCount(Init(s), p, q)
         + (if |s| % 2 == 0 && s[|s| - 2] == p && s[|s| - 1] == q then 1 else 0)
  }

  /** The same pairs read from the front: a reference definition that makes
      the alignment to even positions evident. */
  ghost function AlignedPairs(s: seq<byte>, p: int, q: int): nat
  {
    if |s| < 2 then 0
    else (if s[0] == p && s[1] == q then 1 else 0) + AlignedPairs(s[2..], p, q)
  }

  /** Total number of zero bits (the source's "hamming weight"). */
  ghost function ZeroBits(s: seq<byte>): nat
  {
    if |s| == 0 then 0 else ZeroBits(Init(s)) + (UnigramBits - PopCount(s[|s| - 1]))
  }

  ghost function ByteSum(s: seq<byte>): nat
  {
    if |s| == 0 then 0 else ByteSum(Init(s)) + s[|s| - 1]
  }

  ghost function SquareSum(s: seq<byte>): nat
  {
    if |s| == 0 then 0 else SquareSum(Init(s)) + Square(s[|s| - 1])
  }

  ghost function LowCount(s: seq<byte>): nat
  {
    if |s| == 0 then 0 else LowCount(Init(s)) + (if s[|s| - 1] < AsciiLoVal then 1 else 0)
  }

  ghost function MidCount(s: seq<byte>): nat
  {
    if |s| == 0 then 0
    else MidCount(Init(s)) + (if AsciiLoVal <= s[|s| - 1] < AsciiHiVal then 1 else 0)
  }

  ghost function HighCount(s: seq<byte>): nat
  {
    if |s| == 0 then 0 else HighCount(Init(s)) + (if AsciiHiVal <= s[|s| - 1] then 1 else 0)
  }

  // ---------------------------------------------------------------------
  // Runs

  /** s[i..j] is a nonempty run of one repeated byte value. */
  ghost predicate IsRun(s: seq<byte>, i: int, j: int)
  {
    0 <= i < j <= |s| && forall k :: i <= k < j ==> s[k] == s[i]
  }

  /** Length of the run of equal bytes at the end of s (`last_cnt`). */
  ghost function TrailingRun(s: seq<byte>): nat
  {
    if |s| == 0 then 0
    else if |s| >= 2 && s[|s| - 2] == s[|s| - 1] then TrailingRun(Init(s)) + 1
    else 1
  }

  /** The running maximum of the trailing run (`max_byte_streak`). */
  ghost function LongestRun(s: seq<byte>): nat
  {
    if |s| == 0 then 0 else Max(TrailingRun(s), LongestRun(Init(s)))
  }

  // ---------------------------------------------------------------------
  // Contiguity and chunks

  /** Sum of |s[i+1] - s[i]| over every adjacent pair of s. */
  ghost function AdjacentDistance(s: seq<byte>): nat
  {
    if |s| < 2 then 0
    else AdjacentDistance(Init(s)) + Distance(s[|s| - 1], s[|s| - 2])
  }

  ghost function Flatten(chunks: seq<seq<byte>>): seq<byte>
  {
    if |chunks| == 0 then [] else Flatten(chunks[..|chunks| - 1]) + chunks[|chunks| - 1]
  }

  /** What one call of the accumulator adds to contiguity, given the number
      of bytes seen before it and the last of them: when that number is odd
      the distance from the carried byte to the first byte counts and the
      chunk's own first pair does not; when it is even no pair across the
      boundary counts. */
  ghost function ContiguityStep(seen: nat, last: byte, chunk: seq<byte>): nat
  {
    if |chunk| == 0 then 0
    else if seen % 2 == 1 then Distance(chunk[0], last) + AdjacentDistance(chunk[1..])
    else AdjacentDistance(chunk)
  }

  /** Contiguity total after feeding the chunks in order to the zeroed state. */
  ghost function Contiguity(chunks: seq<seq<byte>>): nat
  {
    if |chunks| == 0 then 0
    else
      var before := Flatten(chunks[..|chunks| - 1]);
      Contiguity(chunks[..|chunks| - 1])
      + ContiguityStep(|before|, LastByte(before), chunks[|chunks| - 1])
  }

  // =====================================================================
  // Lemmas: one byte more

  /** A prefix one element longer. */
  lemma TakeSnoc<T>(s: seq<T>, n: nat)
    requires n < |s|
    ensures s[..n + 1] == s[..n] + [s[n]]
  {
  }

  /** One byte more of a chunk is one byte more of the stream. */
  lemma PrefixSnoc(s: seq<byte>, buf: seq<byte>, n: nat)
    requires n < |buf|
    ensures s + buf[..n + 1] == (s + buf[..n]) + [buf[n]]
  {
    assert buf[..n + 1] == buf[..n] + [buf[n]];
  }

  lemma InitSnoc(s: seq<byte>, x: byte)
    ensures Init(s + [x]) == s
  {
    assert (s + [x])[..|s|] == s;
  }

  lemma CountSnoc(s: seq<byte>, x: byte)
    ensures forall v :: Count(s + [x], v) == Count(s, v) + (if x == v then 1 else 0)
  {
    InitSnoc(s, x);
  }

  lemma PairCountSnoc(s: seq<byte>, x: byte)
    ensures forall p, q ::
      PairCount(s + [x], p, q)
      == PairCount(s, p, q) + (if |s| % 2 == 1 && s[|s| - 1] == p && x == q then 1 else 0)
  {
    forall p, q {
      PairCountSnocAt(s, x, p, q);
    }
  }

  lemma PairCountSnocAt(s: seq<byte>, x: byte, p: int, q: int)
    ensures PairCount(s + [x], p, q)
      == PairCount(s, p, q) + (if |s| % 2 == 1 && s[|s| - 1] == p && x == q then 1 else 0)
  {
    InitSnoc(s, x);
    var t := s + [x];
    if |t| >= 2 {
      assert t[|t| - 2] == s[|s| - 1];
    }
  }

  lemma TotalsSnoc(s: seq<byte>, x: byte)
    ensures ZeroBits(s + [x]) == ZeroBits(s) + (UnigramBits - PopCount(x))
    ensures ByteSum(s + [x]) == ByteSum(s) + x
    ensures SquareSum(s + [x]) == SquareSum(s) + Square(x)
    ensures LowCount(s + [x]) == LowCount(s) + (if x < AsciiLoVal then 1 else 0)
    ensures MidCount(s + [x]) == MidCount(s) + (if AsciiLoVal <= x < AsciiHiVal then 1 else 0)
    ensures HighCount(s + [x]) == HighCount(s) + (if AsciiHiVal <= x then 1 else 0)
  {
    InitSnoc(s, x);
  }

  lemma RunsSnoc(s: seq<byte>, x: byte)
    ensures TrailingRun(s + [x])
      == if |s| > 0 && LastByte(s) == x then TrailingRun(s) + 1 else 1
    ensures LongestRun(s + [x]) == Max(TrailingRun(s + [x]), LongestRun(s))
    ensures LastByte(s + [x]) == x
  {
    InitSnoc(s, x);
    var t := s + [x];
    if |s| > 0 {
      assert t[|t| - 2] == s[|s| - 1];
    }
  }

  lemma AdjacentDistanceSnoc(s: seq<byte>, x: byte)
    requires |s| > 0
    ensures AdjacentDistance(s + [x]) == AdjacentDistance(s) + Distance(x, s[|s| - 1])
  {
    InitSnoc(s, x);
    var t := s + [x];
    assert t[|t| - 2] == s[|s| - 1];
  }

  lemma FlattenSnoc(chunks: seq<seq<byte>>, c: seq<byte>)
    ensures Flatten(chunks + [c]) == Flatten(chunks) + c
    ensures Contiguity(chunks + [c])
      == Contiguity(chunks) + ContiguityStep(|Flatten(chunks)|, LastByte(Flatten(chunks)), c)
  {
    assert (chunks + [c])[..|chunks|] == chunks;
  }

  // =====================================================================
  // Lemmas: what the totals mean

  /** Count is the multiplicity of v in the multiset of the stream. */
  lemma {:induction false} CountIsMultiplicity(s: seq<byte>, v: byte)
    ensures Count(s, v) == multiset(s)[v]
  {
    if |s| > 0 {
      CountIsMultiplicity(Init(s), v);
      assert s == Init(s) + [s[|s| - 1]];
      assert multiset(s) == multiset(Init(s)) + multiset{s[|s| - 1]};
    }
  }

  /** Two distinct byte values occur at most |s| times together; hence at
      most one byte value can fill more than half of a stream. */
  lemma {:induction false} TwoCountsBound(s: seq<byte>, a: int, b: int)
    requires a != b
    ensures Count(s, a) + Count(s, b) <= |s|
  {
    if |s| > 0 {
      TwoCountsBound(Init(s), a, b);
    }
  }

  /** Sum of Count(s, v) over v < n. */
  ghost function CountsBelow(s: seq<byte>, n: nat): nat
  {
    if n == 0 then 0 else CountsBelow(s, n - 1) + Count(s, n - 1)
  }

  lemma {:induction false} CountsBelowSnoc(s: seq<byte>, x: byte, n: nat)
    ensures CountsBelow(s + [x], n) == CountsBelow(s, n) + (if x < n then 1 else 0)
  {
    if n > 0 {
      CountsBelowSnoc(s, x, n - 1);
      CountSnoc(s, x);
    }
  }

  /** The unigram table sums to the number of bytes seen. */
  lemma {:induction false} UnigramTotal(s: seq<byte>)
    ensures CountsBelow(s, Unigrams) == |s|
  {
    if |s| == 0 {
      CountsBelowEmpty(Unigrams);
    } else {
      UnigramTotal(Init(s));
      assert s == Init(s) + [s[|s| - 1]];
      CountsBelowSnoc(Init(s), s[|s| - 1], Unigrams);
    }
  }

  lemma {:induction false} CountsBelowEmpty(n: nat)
    ensures CountsBelow([], n) == 0
  {
    if n > 0 {
      CountsBelowEmpty(n - 1);
    }
  }

  /** Sum of PairCount(s, p, q) over q < n. */
  ghost function RowBelow(s: seq<byte>, p: int, n: nat): nat
  {
    if n == 0 then 0 else RowBelow(s, p, n - 1) + PairCount(s, p, n - 1)
  }

  /** Sum of the full rows p < n of the pair table. */
  ghost function PairsBelow(s: seq<byte>, n: nat): nat
  {
    if n == 0 then 0 else PairsBelow(s, n - 1) + RowBelow(s, n - 1, Unigrams)
  }

  lemma {:induction false} RowBelowSnoc(s: seq<byte>, x: byte, p: int, n: nat)
    ensures RowBelow(s + [x], p, n)
      == RowBelow(s, p, n) + (if |s| % 2 == 1 && s[|s| - 1] == p && x < n then 1 else 0)
  {
    if n > 0 {
      RowBelowSnoc(s, x, p, n - 1);
      PairCountSnoc(s, x);
    }
  }

  lemma {:induction false} PairsBelowSnoc(s: seq<byte>, x: byte, n: nat)
    ensures PairsBelow(s + [x], n)
      == PairsBelow(s, n) + (if |s| % 2 == 1 && s[|s| - 1] < n then 1 else 0)
  {
    if n > 0 {
      PairsBelowSnoc(s, x, n - 1);
      RowBelowSnoc(s, x, n - 1, Unigrams);
    }
  }

  lemma {:induction false} PairsBelowEmpty(n: nat)
    ensures PairsBelow([], n) == 0
  {
    if n > 0 {
      PairsBelowEmpty(n - 1);
      RowBelowEmpty(n - 1, Unigrams);
    }
  }

  lemma {:induction false} RowBelowEmpty(p: int, n: nat)
    ensures RowBelow([], p, n) == 0
  {
    if n > 0 {
      RowBelowEmpty(p, n - 1);
    }
  }

  /** The bigram table sums to floor(|s| / 2): every byte at an odd
      position closes exactly one pair. */
  lemma {:induction false} BigramTotal(s: seq<byte>)
    ensures PairsBelow(s, Unigrams) == |s| / 2
  {
    if |s| == 0 {
      PairsBelowEmpty(Unigrams);
    } else {
      BigramTotal(Init(s));
      assert s == Init(s) + [s[|s| - 1]];
      PairsBelowSnoc(Init(s), s[|s| - 1], Unigrams);
    }
  }

  /** Two distinct cells of the pair table hold at most |s| / 2 pairs
      together; hence at most one pair can fill more than half of them. */
  lemma {:induction false} TwoPairCountsBound(s: seq<byte>, p: int, q: int, p': int, q': int)
    requires p != p' || q != q'
    ensures PairCount(s, p, q) + PairCount(s, p', q') <= |s| / 2
  {
    if |s| >= 2 {
      TwoPairCountsBound(Init(s), p, q, p', q');
    }
  }

  /** Counting pairs at the back agrees with reading aligned pairs from the
      front: the table holds exactly the pairs at positions (2k, 2k+1). */
  lemma {:induction false} PairCountIsAligned(s: seq<byte>, p: int, q: int)
    ensures PairCount(s, p, q) == AlignedPairs(s, p, q)
    decreases |s|
  {
    if |s| >= 2 {
      var t := s[2..];
      PairCountIsAligned(t, p, q);
      AlignedAppend(s[..2], t, p, q);
      assert s == s[..2] + t;
      PairCountAppendEven(s[..2], t, p, q);
      assert PairCount(s[..2], p, q) == (if s[0] == p && s[1] == q then 1 else 0) by {
        assert Init(s[..2]) == [s[0]];
      }
      assert AlignedPairs(s[..2], p, q) == (if s[0] == p && s[1] == q then 1 else 0) by {
        assert s[..2][2..] == [];
      }
    }
  }

  /** AlignedPairs over a concatenation whose first part has even length. */
  lemma {:induction false} AlignedAppend(a: seq<byte>, b: seq<byte>, p: int, q: int)
    requires |a| % 2 == 0
    ensures AlignedPairs(a + b, p, q) == AlignedPairs(a, p, q) + AlignedPairs(b, p, q)
    decreases |a|
  {
    if |a| >= 2 {
      assert (a + b)[2..] == a[2..] + b;
      AlignedAppend(a[2..], b, p, q);
    } else {
      assert a + b == b;
    }
  }

  /** PairCount over a concatenation whose first part has even length: the
      pairs of each part, and no pair across the seam. */
  lemma {:induction false} PairCountAppendEven(a: seq<byte>, b: seq<byte>, p: int, q: int)
    requires |a| % 2 == 0
    ensures PairCount(a + b, p, q) == PairCount(a, p, q) + PairCount(b, p, q)
    decreases |b|
  {
    if |b| == 0 {
      assert a + b == a;
    } else {
      var c, x := Init(b), b[|b| - 1];
      var ac := a + c;
      assert a + b == ac + [x];
      assert b == c + [x];
      PairCountAppendEven(a, c, p, q);
      PairCountSnocAt(ac, x, p, q);
      PairCountSnocAt(c, x, p, q);
      EvenPlus(|a|, |c|);
      if |c| > 0 {
        assert ac[|ac| - 1] == c[|c| - 1];
      }
    }
  }

  lemma EvenPlus(m: nat, n: nat)
    requires m % 2 == 0
    ensures (m + n) % 2 == n % 2
  {
    var h := m / 2;
    assert m == 2 * h;
    assert m + n == 2 * h + n;
  }

  /** The zero-bit total never exceeds 8 bits per byte. */
  lemma {:induction false} ZeroBitsBound(s: seq<byte>)
    ensures ZeroBits(s) <= UnigramBits * |s|
  {
    if |s| > 0 {
      ZeroBitsBound(Init(s));
    }
  }

  /** Every byte lands in exactly one ASCII bucket. */
  lemma {:induction false} BucketsPartition(s: seq<byte>)
    ensures LowCount(s) + MidCount(s) + HighCount(s) == |s|
  {
    if |s| > 0 {
      BucketsPartition(Init(s));
    }
  }

  /** The trailing run is a run, and no longer run ends at the end of s. */
  lemma {:induction false} TrailingRunIsMaximal(s: seq<byte>)
    requires |s| > 0
    ensures 1 <= TrailingRun(s) <= |s|
    ensures IsRun(s, |s| - TrailingRun(s), |s|)
    ensures forall i :: IsRun(s, i, |s|) ==> |s| - i <= TrailingRun(s)
  {
    var n := |s|;
    if n >= 2 && s[n - 2] == s[n - 1] {
      var t := Init(s);
      TrailingRunIsMaximal(t);
      assert IsRun(s, n - TrailingRun(s), n) by {
        forall k | n - TrailingRun(s) <= k < n
          ensures s[k] == s[n - TrailingRun(s)]
        {
          if k < n - 1 {
            assert t[k] == t[n - TrailingRun(s)];
          } else {
            assert t[n - 2] == t[n - TrailingRun(s)];
          }
        }
      }
      forall i | IsRun(s, i, n)
        ensures n - i <= TrailingRun(s)
      {
        if i < n - 1 {
          assert IsRun(t, i, n - 1);
        }
      }
    } else {
      forall i | IsRun(s, i, n)
        ensures n - i <= TrailingRun(s)
      {
      }
    }
  }

  /** The streak total is the length of a longest run of the stream. */
  lemma {:induction false} LongestRunIsLongest(s: seq<byte>)
    ensures forall i, j :: IsRun(s, i, j) ==> j - i <= LongestRun(s)
    ensures |s| > 0 ==> exists i, j :: IsRun(s, i, j) && j - i == LongestRun(s)
  {
    var n := |s|;
    if n > 0 {
      var t := Init(s);
      LongestRunIsLongest(t);
      TrailingRunIsMaximal(s);
      forall i, j | IsRun(s, i, j)
        ensures j - i <= LongestRun(s)
      {
        if j < n {
          assert IsRun(t, i, j);
        }
      }
      if LongestRun(s) == TrailingRun(s) {
        assert IsRun(s, n - TrailingRun(s), n);
      } else {
        var i, j :| IsRun(t, i, j) && j - i == LongestRun(t);
        assert IsRun(s, i, j);
      }
    }
  }

  /** Consequently the streak of a nonempty stream lies in 1..|s|. */
  lemma StreakBounds(s: seq<byte>)
    requires |s| > 0
    ensures 1 <= LongestRun(s) <= |s|
  {
    LongestRunIsLongest(s);
    TrailingRunIsMaximal(s);
    assert IsRun(s, |s| - TrailingRun(s), |s|);
  }

  /** AdjacentDistance over a concatenation of two nonempty parts adds the
      distance across the seam. */
  lemma {:induction false} AdjacentDistanceAppend(a: seq<byte>, b: seq<byte>)
    requires |a| > 0
    ensures |b| > 0 ==>
      AdjacentDistance(a + b) == AdjacentDistance(a) + Distance(b[0], a[|a| - 1]) + AdjacentDistance(b)
    ensures |b| == 0 ==> AdjacentDistance(a + b) == AdjacentDistance(a)
    decreases |b|
  {
    if |b| == 0 {
      assert a + b == a;
    } else if |b| == 1 {
      AdjacentDistanceSnoc(a, b[0]);
      assert a + b == a + [b[0]];
    } else {
      var x := b[|b| - 1];
      assert a + b == (a + Init(b)) + [x];
      assert b == Init(b) + [x];
      AdjacentDistanceAppend(a, Init(b));
      AdjacentDistanceSnoc(a + Init(b), x);
      AdjacentDistanceSnoc(Init(b), x);
      assert (a + Init(b))[|a + Init(b)| - 1] == Init(b)[|Init(b)| - 1];
    }
  }

  /** AdjacentDistance of a sequence of at least two bytes, split after its
      first byte. */
  lemma AdjacentDistanceFront(b: seq<byte>)
    requires |b| >= 2
    ensures AdjacentDistance(b) == Distance(b[1], b[0]) + AdjacentDistance(b[1..])
  {
    assert b == [b[0]] + b[1..];
    AdjacentDistanceAppend([b[0]], b[1..]);
  }

  /** One chunk fed to the zeroed state: contiguity is the sum of the
      distances of every adjacent pair of that chunk. */
  lemma SingleChunkContiguity(c: seq<byte>)
    ensures Contiguity([c]) == AdjacentDistance(c)
  {
    FlattenSnoc([], c);
    assert [] + [c] == [c];
  }

  /** Two chunks: the accumulated contiguity misses exactly one distance of
      the concatenated stream, the one across the seam if the first chunk
      has even length, otherwise the second chunk's own first pair. */
  lemma TwoChunkContiguity(a: seq<byte>, b: seq<byte>)
    requires |a| > 0 && |b| > 0
    ensures |a| % 2 == 0 ==>
      Contiguity([a, b]) + Distance(b[0], a[|a| - 1]) == AdjacentDistance(a + b)
    ensures |a| % 2 == 1 && |b| >= 2 ==>
      Contiguity([a, b]) + Distance(b[1], b[0]) == AdjacentDistance(a + b)
    ensures |a| % 2 == 1 && |b| == 1 ==>
      Contiguity([a, b]) == AdjacentDistance(a + b)
  {
    SingleChunkContiguity(a);
    FlattenSnoc([], a);
    assert [] + [a] == [a];
    FlattenSnoc([a], b);
    assert [a] + [b] == [a, b];
    AdjacentDistanceAppend(a, b);
    if |b| >= 2 {
      AdjacentDistanceFront(b);
    } else {
      assert b[1..] == [];
    }
  }

  /** Contiguity depends on how the stream is chunked: the bytes 0, 5, 9
      give 9 in one call and 5 when split after the first byte. */
  lemma ContiguityDependsOnChunking()
    ensures Contiguity([[0, 5, 9]]) == 9
    ensures Contiguity([[0], [5, 9]]) == 5
    ensures Flatten([[0], [5, 9]]) == [0, 5, 9]
  {
    SingleChunkContiguity([0, 5, 9]);
    AdjacentDistanceFront([0, 5, 9]);
    assert [0, 5, 9][1..] == [5, 9];
    AdjacentDistanceFront([5, 9]);
    assert [5, 9][1..] == [9];
    TwoChunkContiguity([0], [5, 9]);
    assert [0] + [5, 9] == [0, 5, 9];
    FlattenSnoc([], [0]);
    assert [] + [[0]] == [[0]];
    FlattenSnoc([[0]], [5, 9]);
    assert [[0]] + [[5, 9]] == [[0], [5, 9]];
  }

  /** What one call adds when every adjacent pair counts: the distance from
      the last byte seen before it to its first byte, if any byte was seen,
      and the distances of all its own pairs. */
  ghost function PairwiseStep(seen: nat, last: byte, chunk: seq<byte>): nat
  {
    if |chunk| == 0 then 0
    else if seen > 0 then Distance(chunk[0], last) + AdjacentDistance(chunk)
    else AdjacentDistance(chunk)
  }

  /** The contiguity total with PairwiseStep in place of ContiguityStep. */
  ghost function PairwiseContiguity(chunks: seq<seq<byte>>): nat
  {
    if |chunks| == 0 then 0
    else
      var before := Flatten(chunks[..|chunks| - 1]);
      PairwiseContiguity(chunks[..|chunks| - 1])
      + PairwiseStep(|before|, LastByte(before), chunks[|chunks| - 1])
  }

  /** Counting every pair makes the total the sum of the distances of all
      adjacent pairs of the whole stream, however it is chunked. */
  lemma {:induction false} PairwiseContiguityIsChunkInvariant(chunks: seq<seq<byte>>)
    ensures PairwiseContiguity(chunks) == AdjacentDistance(Flatten(chunks))
  {
    if |chunks| > 0 {
      var init, c := chunks[..|chunks| - 1], chunks[|chunks| - 1];
      var before := Flatten(init);
      PairwiseContiguityIsChunkInvariant(init);
      assert Flatten(chunks) == before + c;
      if |before| == 0 {
        assert before + c == c;
      } else {
        AdjacentDistanceAppend(before, c);
      }
    }
  }

  // =====================================================================
  // A buffer of one repeated value

  /** n copies of b. */
  function Repeat(n: nat, b: byte): (r: seq<byte>)
    ensures |r| == n
    ensures forall i :: 0 <= i < n ==> r[i] == b
  {
    seq(n, _ => b)
  }

  lemma {:induction false} ConstantStream(n: nat, b: byte)
    ensures Count(Repeat(n, b), b) == n
    ensures forall v :: v != b ==> Count(Repeat(n, b), v) == 0
    ensures PairCount(Repeat(n, b), b, b) == n / 2
    ensures forall p, q :: (p != b || q != b) ==> PairCount(Repeat(n, b), p, q) == 0
    ensures TrailingRun(Repeat(n, b)) == n
    ensures LongestRun(Repeat(n, b)) == n
  {
    var s := Repeat(n, b);
    if n > 0 {
      var t := Repeat(n - 1, b);
      ConstantStream(n - 1, b);
      assert s == t + [b];
      CountSnoc(t, b);
      PairCountSnoc(t, b);
      RunsSnoc(t, b);
    }
  }
}
