/**
 * The single-protocol revision's tube planning: how many mastermix tubes a
 * run needs, how the samples are split over them in multiples of eight, the
 * sample-to-tube index list built from that split, and how one tube's share
 * is spread over the eight wells of its strip.
 */
module TubeSplit {
  /** Mastermix per sample, in microlitres. */
  const MmPerSample: nat := 20
  /** Extra mastermix over the whole run, in microlitres. */
  const LiquidHeadroom: real := 1.6
  /** Capacity of one strip well, in microlitres. */
  const MmStripsCapacity: nat := 180
  /** Capacity of one tube before the strip cap, in microlitres. */
  const MmTubeMaxVolume: nat := 1800

  /** A tube is never planned to hold more than its strip of eight wells can take. */
  function TubeCapacity(stripCapacity: nat, tubeMaxVolume: nat): (c: nat)
    ensures c <= 8 * stripCapacity && c <= tubeMaxVolume
    ensures c == 8 * stripCapacity || c == tubeMaxVolume
  {
    if 8 * stripCapacity < tubeMaxVolume then 8 * stripCapacity else tubeMaxVolume
  }

  /** The tube capacity the protocol plans with. */
  const MmTubeCapacity: nat := TubeCapacity(MmStripsCapacity, MmTubeMaxVolume)

  /** Sum of a sequence of counts, front first. */
  function SumNat(s: seq<nat>): nat
  {
    if s == [] then 0 else s[0] + SumNat(s[1..])
  }

  lemma {:induction false} SumNatAppend(s: seq<nat>, x: nat)
    ensures SumNat(s + [x]) == SumNat(s) + x
  {
    if s == [] {
      assert [] + [x] == [x];
    } else {
      assert (s + [x])[1..] == s[1..] + [x];
      SumNatAppend(s[1..], x);
    }
  }

  lemma SumNatPrefix(s: seq<nat>, j: nat)
    requires j < |s|
    ensures SumNat(s[..j + 1]) == SumNat(s[..j]) + s[j]
  {
    assert s[..j + 1] == s[..j] + [s[j]];
    SumNatAppend(s[..j], s[j]);
  }

  /** `math.ceil` of a real number. */
  function Ceil(x: real): (r: int)
    ensures r as real - 1.0 < x <= r as real
  {
    if x.Floor as real == x then x.Floor else x.Floor + 1
  }

  /** `math.ceil(a / b)` for counts, as integer arithmetic. */
  function CeilDiv(a: nat, b: nat): (r: nat)
    requires b > 0
    ensures a <= r * b
    ensures r == 0 || (r - 1) * b < a
  {
    var q := (a + b - 1) / b;
    assert (a + b - 1) == q * b + (a + b - 1) % b;
    q
  }

  /** The mastermix the tubes must hold: every sample's volume plus the headroom. */
  function TubeDemand(numSamples: nat): (r: real)
    ensures r >= LiquidHeadroom
    ensures r - LiquidHeadroom == MmPerSample as real * numSamples as real
  {
    (MmPerSample * numSamples) as real + LiquidHeadroom
  }

  /**
   * `num_mm_tubes`: the fewest tubes of `MmTubeCapacity` that hold the demand;
   * there is always at least one.
   */
  function NumMmTubes(numSamples: nat): (r: nat)
    ensures r >= 1
    ensures (r - 1) as real * MmTubeCapacity as real < TubeDemand(numSamples)
    ensures TubeDemand(numSamples) <= r as real * MmTubeCapacity as real
  {
    var cap := MmTubeCapacity as real;
    var x := TubeDemand(numSamples) / cap;
    var c := Ceil(x);
    CeilBounds(TubeDemand(numSamples), cap);
    c as nat
  }

  lemma CeilBounds(d: real, cap: real)
    requires d > 0.0 && cap > 0.0
    ensures Ceil(d / cap) >= 1
    ensures (Ceil(d / cap) - 1) as real * cap < d <= Ceil(d / cap) as real * cap
  {
    var x := d / cap;
    var c := Ceil(x);
    assert x * cap == d;
    PositiveProduct(x, cap);
    var lo := (c - 1) as real;
    assert lo == c as real - 1.0 < x;
    PositiveProduct(x - lo, cap);
    assert d - lo * cap == (x - lo) * cap;
    NonnegativeProduct(c as real - x, cap);
    assert c as real * cap - d == (c as real - x) * cap;
    assert lo * cap < d;
    assert d <= c as real * cap;
  }

  lemma PositiveProduct(a: real, b: real)
    requires b > 0.0
    ensures a > 0.0 <==> a * b > 0.0
  {
  }

  lemma NonnegativeProduct(a: real, b: real)
    requires a >= 0.0 && b >= 0.0
    ensures a * b >= 0.0
  {
  }

  /** `num_cols`: the plate columns `numSamples` samples fill, eight to a column. */
  function NumCols(numSamples: nat): (r: nat)
    ensures numSamples <= 8 * r && (r == 0 || 8 * (r - 1) < numSamples)
  {
    CeilDiv(numSamples, 8)
  }

  /**
   * The share the split gives the next tube when `tubesLeft` tubes are still
   * to be given one and `remaining` samples are left: the ceiling of an even
   * split, rounded up to a multiple of eight, but never more than remain.
   */
  function Share(remaining: nat, tubesLeft: nat): (s: nat)
    requires tubesLeft >= 1
    ensures s <= remaining
    ensures s % 8 == 0 || s == remaining
    ensures tubesLeft == 1 ==> s == remaining
  {
    var rounded := 8 * CeilDiv(remaining, 8 * tubesLeft);
    if rounded < remaining then rounded else remaining
  }

  /** The shares of `tubesLeft` tubes over `remaining` samples, first tube first. */
  function Split(remaining: nat, tubesLeft: nat): (shares: seq<nat>)
    ensures |shares| == tubesLeft
    decreases tubesLeft
  {
    if tubesLeft == 0 then []
    else
      var s := Share(remaining, tubesLeft);
      [s] + Split(remaining - s, tubesLeft - 1)
  }

  lemma MulMonotoneNat(a: nat, b: nat, c: nat)
    requires a <= b
    ensures a * c <= b * c
  {
  }

  /**
   * The next tube's share is never more than eight samples per tube above
   * an even split: when `c` columns per tube hold every remaining sample,
   * the share is at most `8 * c`, and what is left still fits `c` columns
   * per tube over the tubes after it.
   */
  lemma ShareBoundedBy(remaining: nat, tubesLeft: nat, c: nat)
    requires tubesLeft >= 1 && remaining <= 8 * tubesLeft * c
    ensures Share(remaining, tubesLeft) <= 8 * c
    ensures remaining - Share(remaining, tubesLeft) <= 8 * (tubesLeft - 1) * c
  {
    var b := 8 * tubesLeft;
    var r := CeilDiv(remaining, b);
    // r columns per tube are the fewest that hold the remaining samples, so r <= c
    if r > c {
      MulMonotoneNat(c, r - 1, b);
      assert false;
    }
    var s := Share(remaining, tubesLeft);
    if s < remaining {
      assert s == 8 * r;
      assert remaining <= r * b == 8 * r + 8 * (tubesLeft - 1) * r;
      MulMonotoneNat(r, c, 8 * (tubesLeft - 1));
    }
  }

  /** When `c` columns per tube hold every sample, no tube's share is more than `8 * c`. */
  lemma {:induction false} SplitBoundedBy(remaining: nat, tubesLeft: nat, c: nat)
    requires remaining <= 8 * tubesLeft * c
    ensures forall j :: 0 <= j < tubesLeft ==> Split(remaining, tubesLeft)[j] <= 8 * c
    decreases tubesLeft
  {
    if tubesLeft > 0 {
      var s := Share(remaining, tubesLeft);
      ShareBoundedBy(remaining, tubesLeft, c);
      SplitBoundedBy(remaining - s, tubesLeft - 1, c);
      var shares := Split(remaining, tubesLeft);
      assert forall j :: 1 <= j < tubesLeft ==> shares[j] == Split(remaining - s, tubesLeft - 1)[j - 1];
    }
  }

  /**
   * No tube's share is more than the even split of the samples over the
   * tubes, rounded up to whole columns of eight.
   */
  lemma SplitBounded(numSamples: nat, numMmTubes: nat)
    requires numMmTubes >= 1
    ensures forall j :: 0 <= j < numMmTubes ==>
      Split(numSamples, numMmTubes)[j] <= 8 * CeilDiv(numSamples, 8 * numMmTubes)
  {
    var c := CeilDiv(numSamples, 8 * numMmTubes);
    EvenColumnsHoldAll(numSamples, numMmTubes);
    SplitBoundedBy(numSamples, numMmTubes, c);
  }

  /** Rounding the even split up to whole columns leaves room for every sample. */
  lemma EvenColumnsHoldAll(remaining: nat, tubesLeft: nat)
    requires tubesLeft >= 1
    ensures remaining <= 8 * tubesLeft * CeilDiv(remaining, 8 * tubesLeft)
  {
    var c := CeilDiv(remaining, 8 * tubesLeft);
    assert remaining <= c * (8 * tubesLeft) == 8 * tubesLeft * c;
  }

  /** No later tube's share is more than the first tube's. */
  lemma SplitHeadBound(remaining: nat, tubesLeft: nat)
    requires tubesLeft >= 1
    ensures forall j :: 1 <= j < tubesLeft ==> Split(remaining, tubesLeft)[j] <= Split(remaining, tubesLeft)[0]
  {
    var shares := Split(remaining, tubesLeft);
    var s := Share(remaining, tubesLeft);
    var rest := Split(remaining - s, tubesLeft - 1);
    assert shares == [s] + rest;
    if s == remaining {
      SplitBoundedBy(0, tubesLeft - 1, 0);
    } else {
      var r := CeilDiv(remaining, 8 * tubesLeft);
      EvenColumnsHoldAll(remaining, tubesLeft);
      ShareBoundedBy(remaining, tubesLeft, r);
      SplitBoundedBy(remaining - s, tubesLeft - 1, r);
      assert s == 8 * r;
    }
    assert forall j :: 1 <= j < tubesLeft ==> shares[j] == rest[j - 1];
  }

  /** The shares never grow from one tube to the next. */
  lemma {:induction false} SplitNonincreasing(remaining: nat, tubesLeft: nat)
    ensures forall j :: 1 <= j < tubesLeft ==> Split(remaining, tubesLeft)[j] <= Split(remaining, tubesLeft)[j - 1]
    decreases tubesLeft
  {
    if tubesLeft > 0 {
      var shares := Split(remaining, tubesLeft);
      var s := Share(remaining, tubesLeft);
      var rest := Split(remaining - s, tubesLeft - 1);
      assert shares == [s] + rest;
      SplitHeadBound(remaining, tubesLeft);
      SplitNonincreasing(remaining - s, tubesLeft - 1);
      forall j | 1 <= j < tubesLeft
        ensures shares[j] <= shares[j - 1]
      {
        if 1 < j {
          assert shares[j] == rest[j - 1] && shares[j - 1] == rest[j - 2];
          assert rest[j - 1] <= rest[j - 2];
        } else {
          assert shares[1] <= shares[0];
        }
      }
    }
  }

  /**
   * The loop that builds `samples_per_mm_tube`: each turn takes the samples
   * not yet assigned and appends the next tube's share.
   */
  method SamplesPerMmTube(numSamples: nat, numMmTubes: nat) returns (shares: seq<nat>)
    ensures shares == Split(numSamples, numMmTubes)
  {
    shares := [];
    var i := 0;
    while i < numMmTubes
      invariant i <= numMmTubes
      invariant |shares| == i
      invariant SumNat(shares) <= numSamples
      invariant shares + Split(numSamples - SumNat(shares), numMmTubes - i) == Split(numSamples, numMmTubes)
    {
      var remainingSamples := numSamples - SumNat(shares);
      var share := Share(remainingSamples, numMmTubes - i);
      SplitStep(shares, share, numSamples, numMmTubes, i);
      shares := shares + [share];
      i := i + 1;
    }
  }

  /**
   * One turn of that loop: appending the next share keeps the shares so far,
   * followed by the split of the samples still unassigned, equal to the whole split.
   */
  lemma SplitStep(shares: seq<nat>, share: nat, numSamples: nat, numMmTubes: nat, i: nat)
    requires i < numMmTubes && SumNat(shares) <= numSamples
    requires share == Share(numSamples - SumNat(shares), numMmTubes - i)
    requires shares + Split(numSamples - SumNat(shares), numMmTubes - i) == Split(numSamples, numMmTubes)
    ensures SumNat(shares + [share]) <= numSamples
    ensures (shares + [share]) + Split(numSamples - SumNat(shares + [share]), numMmTubes - (i + 1)) ==
            Split(numSamples, numMmTubes)
  {
    var remaining := numSamples - SumNat(shares);
    var next := shares + [share];
    SumNatAppend(shares, share);
    assert numSamples - SumNat(next) == remaining - share;
    assert Split(remaining, numMmTubes - i) == [share] + Split(remaining - share, numMmTubes - i - 1);
    assert shares + ([share] + Split(remaining - share, numMmTubes - i - 1)) ==
           next + Split(remaining - share, numMmTubes - i - 1);
  }

  /** With at least one tube, the shares account for every sample exactly once. */
  lemma {:induction false} SplitSum(remaining: nat, tubesLeft: nat)
    requires tubesLeft >= 1
    ensures SumNat(Split(remaining, tubesLeft)) == remaining
    decreases tubesLeft
  {
    var s := Share(remaining, tubesLeft);
    var shares := Split(remaining, tubesLeft);
    assert shares[1..] == Split(remaining - s, tubesLeft - 1);
    if tubesLeft > 1 {
      SplitSum(remaining - s, tubesLeft - 1);
    }
  }

  /**
   * Entry `j` of the split, against the samples still unassigned before it:
   * it takes at most those, it is a multiple of eight unless it takes all of
   * them, and once none are left it is 0.
   */
  lemma {:induction false} SplitEntry(remaining: nat, tubesLeft: nat, j: nat)
    requires j < tubesLeft
    ensures SumNat(Split(remaining, tubesLeft)[..j]) <= remaining
    ensures var shares := Split(remaining, tubesLeft);
      var before := remaining - SumNat(shares[..j]);
      && shares[j] <= before
      && (shares[j] % 8 == 0 || shares[j] == before)
      && (before == 0 ==> shares[j] == 0)
    decreases j
  {
    var shares := Split(remaining, tubesLeft);
    var s := Share(remaining, tubesLeft);
    var rest := Split(remaining - s, tubesLeft - 1);
    assert shares == [s] + rest;
    if j > 0 {
      SplitEntry(remaining - s, tubesLeft - 1, j - 1);
      assert shares[..j] == [s] + rest[..j - 1];
      assert SumNat(shares[..j]) == s + SumNat(rest[..j - 1]);
      assert shares[j] == rest[j - 1];
    } else {
      assert shares[..0] == [];
    }
  }

  /**
   * Every prefix of the split, with at least one tube, ends on a multiple of
   * eight samples or on the last sample.
   */
  lemma {:induction false} SplitPrefixAligned(remaining: nat, tubesLeft: nat, j: nat)
    requires 1 <= tubesLeft && j <= tubesLeft
    ensures var p := SumNat(Split(remaining, tubesLeft)[..j]); p % 8 == 0 || p == remaining
    decreases j
  {
    var shares := Split(remaining, tubesLeft);
    if j == 0 {
      assert shares[..0] == [];
    } else if j == tubesLeft {
      assert shares[..j] == shares;
      SplitSum(remaining, tubesLeft);
    } else {
      SplitPrefixAligned(remaining, tubesLeft, j - 1);
      SplitEntry(remaining, tubesLeft, j - 1);
      SumNatPrefix(shares, j - 1);
      var before := SumNat(shares[..j - 1]);
      var x := shares[j - 1];
      assert SumNat(shares[..j]) == before + x;
      var unassigned := remaining - before;
      assert x <= unassigned && (x % 8 == 0 || x == unassigned) && (unassigned == 0 ==> x == 0);
      if before == remaining {
        assert before + x == remaining;
      } else if x == unassigned {
        assert before + x == remaining;
      } else {
        MultiplesOfEight(before, x);
      }
    }
  }

  lemma MultiplesOfEight(a: nat, b: nat)
    requires a % 8 == 0 && b % 8 == 0
    ensures (a + b) % 8 == 0
  {
    assert a == 8 * (a / 8) && b == 8 * (b / 8);
    assert a + b == 8 * (a / 8 + b / 8);
  }

  /** A multiple of eight lies on the same side of two samples of one column. */
  lemma AlignedSide(m: nat, p: nat, q: nat)
    requires m % 8 == 0 && p / 8 == q / 8
    ensures m <= p ==> m <= q
    ensures p < m ==> q < m
  {
    assert m == 8 * (m / 8);
    assert 8 * (p / 8) <= p < 8 * (p / 8) + 8;
    assert 8 * (q / 8) <= q < 8 * (q / 8) + 8;
  }

  /** `repeat(x, n)`: `n` copies of `x`. */
  function Repeat(x: nat, n: nat): (r: seq<nat>)
    ensures |r| == n
    ensures forall k :: 0 <= k < n ==> r[k] == x
  {
    if n == 0 then [] else [x] + Repeat(x, n - 1)
  }

  /** The tube index of every sample, tubes numbered from `first`, tube by tube. */
  function IndicesFrom(shares: seq<nat>, first: nat): (r: seq<nat>)
    ensures |r| == SumNat(shares)
    ensures forall k :: 0 <= k < |r| ==> first <= r[k] < first + |shares|
    decreases |shares|
  {
    if shares == [] then []
    else Repeat(first, shares[0]) + IndicesFrom(shares[1..], first + 1)
  }

  /** `mm_indices`: for each sample in order, the index of the tube it draws from. */
  function MmIndices(shares: seq<nat>): (r: seq<nat>)
    ensures |r| == SumNat(shares)
    ensures forall k :: 0 <= k < |r| ==> r[k] < |shares|
  {
    IndicesFrom(shares, 0)
  }

  /** Tube indices never go down along the sample order. */
  lemma {:induction false} IndicesSorted(shares: seq<nat>, first: nat, p: nat, q: nat)
    requires p <= q < SumNat(shares)
    ensures IndicesFrom(shares, first)[p] <= IndicesFrom(shares, first)[q]
    decreases |shares|
  {
    var s := shares[0];
    var r := IndicesFrom(shares, first);
    var rest := IndicesFrom(shares[1..], first + 1);
    assert r == Repeat(first, s) + rest;
    if s <= p {
      IndicesSorted(shares[1..], first + 1, p - s, q - s);
    }
  }

  /** Sample `p` draws from tube `t` exactly when it lies in tube `t`'s block of the split. */
  lemma {:induction false} IndexAt(shares: seq<nat>, first: nat, p: nat, t: nat)
    requires p < SumNat(shares) && t < |shares|
    ensures IndicesFrom(shares, first)[p] == first + t <==>
            SumNat(shares[..t]) <= p < SumNat(shares[..t + 1])
    decreases |shares|
  {
    var s := shares[0];
    var r := IndicesFrom(shares, first);
    var rest := IndicesFrom(shares[1..], first + 1);
    assert r == Repeat(first, s) + rest;
    if p < s {
      assert r[p] == first;
    } else {
      assert r[p] == rest[p - s];
    }
    SumNatCons(s, shares[1..][..t]);
    assert shares[..t + 1] == [s] + shares[1..][..t];
    if t > 0 {
      SumNatCons(s, shares[1..][..t - 1]);
      assert shares[..t] == [s] + shares[1..][..t - 1];
      if s <= p {
        IndexAt(shares[1..], first + 1, p - s, t - 1);
      }
    } else {
      assert shares[..0] == [] && shares[1..][..0] == [];
    }
  }

  lemma SumNatCons(x: nat, s: seq<nat>)
    ensures SumNat([x] + s) == x + SumNat(s)
  {
    assert ([x] + s)[1..] == s;
  }

  /** How many times `x` occurs in `s`. */
  function Count(s: seq<nat>, x: nat): nat
  {
    if s == [] then 0 else (if s[0] == x then 1 else 0) + Count(s[1..], x)
  }

  lemma {:induction false} CountAppend(a: seq<nat>, b: seq<nat>, x: nat)
    ensures Count(a + b, x) == Count(a, x) + Count(b, x)
  {
    if a == [] {
      assert a + b == b;
    } else {
      assert (a + b)[1..] == a[1..] + b;
      CountAppend(a[1..], b, x);
    }
  }

  lemma {:induction false} CountRepeat(y: nat, n: nat, x: nat)
    ensures Count(Repeat(y, n), x) == if x == y then n else 0
  {
    if n > 0 {
      assert Repeat(y, n)[1..] == Repeat(y, n - 1);
      CountRepeat(y, n - 1, x);
    }
  }

  lemma {:induction false} CountAbsent(s: seq<nat>, x: nat)
    requires forall k :: 0 <= k < |s| ==> s[k] != x
    ensures Count(s, x) == 0
  {
    if s != [] {
      CountAbsent(s[1..], x);
    }
  }

  /** Tube `t` appears in `mm_indices` exactly as often as its share. */
  lemma {:induction false} IndicesCount(shares: seq<nat>, first: nat, t: nat)
    requires t < |shares|
    ensures Count(IndicesFrom(shares, first), first + t) == shares[t]
    decreases |shares|
  {
    var head := Repeat(first, shares[0]);
    var rest := IndicesFrom(shares[1..], first + 1);
    assert IndicesFrom(shares, first) == head + rest;
    CountAppend(head, rest, first + t);
    CountRepeat(first, shares[0], first + t);
    if t == 0 {
      CountAbsent(rest, first);
    } else {
      IndicesCount(shares[1..], first + 1, t - 1);
    }
  }

  /** The split ends each tube's block on a multiple of eight samples or on the last sample. */
  ghost predicate ColumnAligned(shares: seq<nat>)
  {
    forall t :: 0 <= t <= |shares| ==> SumNat(shares[..t]) % 8 == 0 || SumNat(shares[..t]) == SumNat(shares)
  }

  lemma SplitColumnAligned(numSamples: nat, numMmTubes: nat)
    requires numMmTubes >= 1
    ensures ColumnAligned(Split(numSamples, numMmTubes))
  {
    SplitSum(numSamples, numMmTubes);
    forall t | 0 <= t <= numMmTubes
      ensures var p := SumNat(Split(numSamples, numMmTubes)[..t]); p % 8 == 0 || p == numSamples
    {
      SplitPrefixAligned(numSamples, numMmTubes, t);
    }
  }

  /** Under an aligned split, the eight samples of one plate column share a tube. */
  lemma ColumnFromOneTube(shares: seq<nat>, p: nat, q: nat)
    requires ColumnAligned(shares)
    requires p < SumNat(shares) && q < SumNat(shares) && p / 8 == q / 8
    ensures MmIndices(shares)[p] == MmIndices(shares)[q]
  {
    var t := MmIndices(shares)[p];
    IndexAt(shares, 0, p, t);
    var lo := SumNat(shares[..t]);
    var hi := SumNat(shares[..t + 1]);
    assert lo <= p < hi;
    assert lo % 8 == 0 || lo == SumNat(shares);
    assert hi % 8 == 0 || hi == SumNat(shares);
    if lo % 8 == 0 {
      AlignedSide(lo, p, q);
    }
    if hi % 8 == 0 {
      AlignedSide(hi, p, q);
    }
    IndexAt(shares, 0, q, t);
  }

  /** `s[::8]`: every eighth entry, starting with the first. */
  function EveryEighth(s: seq<nat>): (r: seq<nat>)
    ensures |r| == NumCols(|s|)
    ensures forall c :: 0 <= c < |r| ==> 8 * c < |s| && r[c] == s[8 * c]
  {
    seq(NumCols(|s|), c requires 0 <= c < NumCols(|s|) => s[8 * c])
  }

  /**
   * The pairing of `mm_indices[::8]` with the destination columns: there is
   * one tube index per plate column, and it is the tube of every sample in
   * that column.
   */
  lemma ColumnTubes(numSamples: nat, numMmTubes: nat)
    requires numMmTubes >= 1
    ensures var idx := MmIndices(Split(numSamples, numMmTubes));
      && |EveryEighth(idx)| == NumCols(numSamples)
      && forall p :: 0 <= p < |idx| ==> p / 8 < |EveryEighth(idx)| && idx[p] == EveryEighth(idx)[p / 8]
  {
    var shares := Split(numSamples, numMmTubes);
    var idx := MmIndices(shares);
    SplitSum(numSamples, numMmTubes);
    SplitColumnAligned(numSamples, numMmTubes);
    forall p | 0 <= p < numSamples
      ensures p / 8 < |EveryEighth(idx)| && idx[p] == EveryEighth(idx)[p / 8]
    {
      assert 8 * (p / 8) <= p;
      assert p / 8 < NumCols(numSamples);
      ColumnFromOneTube(shares, p, 8 * (p / 8));
    }
  }

  /** The samples one strip well `i` receives from a tube share of `ns` samples. */
  function StripWellShare(ns: nat, i: nat): (r: nat)
    ensures ns / 8 <= r <= ns / 8 + 1
    ensures r == ns / 8 + 1 <==> i < ns % 8
  {
    ns / 8 + (if i < ns % 8 then 1 else 0)
  }

  /** The first `k` strip wells' shares, in well order. */
  function StripShares(ns: nat, k: nat): (r: seq<nat>)
    ensures |r| == k
    ensures forall i :: 0 <= i < k ==> r[i] == StripWellShare(ns, i)
  {
    seq(k, i requires 0 <= i => StripWellShare(ns, i))
  }

  lemma {:induction false} StripSharesSum(ns: nat, k: nat)
    requires k <= 8
    ensures SumNat(StripShares(ns, k)) == k * (ns / 8) + (if k < ns % 8 then k else ns % 8)
  {
    if k > 0 {
      StripSharesSum(ns, k - 1);
      var q := ns / 8;
      assert k * q == (k - 1) * q + q;
      assert StripShares(ns, k) == StripShares(ns, k - 1) + [StripWellShare(ns, k - 1)];
      SumNatAppend(StripShares(ns, k - 1), StripWellShare(ns, k - 1));
    } else {
      assert StripShares(ns, 0) == [];
    }
  }

  /** The eight strip wells together receive the whole share, and no two differ by more than one sample. */
  lemma StripSharesBalanced(ns: nat)
    ensures SumNat(StripShares(ns, 8)) == ns
    ensures forall i, j :: 0 <= i < 8 && 0 <= j < 8 ==> StripWellShare(ns, i) <= StripWellShare(ns, j) + 1
  {
    StripSharesSum(ns, 8);
  }

  /**
   * The eight-channel pipette draws one sample volume from every strip well
   * for each plate column the tube serves. Strip well `i` holds a sample
   * volume for each of those columns exactly when the share fills whole
   * columns or row `i` is occupied in the share's last column; otherwise it
   * holds one fewer.
   */
  lemma StripWellCoversColumns(ns: nat, i: nat)
    requires i < 8
    ensures StripWellShare(ns, i) <= NumCols(ns)
    ensures StripWellShare(ns, i) == NumCols(ns) <==> ns % 8 == 0 || i < ns % 8
  {
  }
}
