/** R-7 percentiles over sorted samples, and the in-place selection that replaces the sort. */
module OrderStatistics {
  import opened Reals
  import opened Sorting
  import opened Wrappers

  datatype PercentileError = NoSamples | LevelOutsideUnitInterval

  lemma ProductNonNegative(a: real, b: real)
    requires 0.0 <= a && 0.0 <= b
    ensures 0.0 <= a * b
  {
  }

  /** The point a fraction `w` of the way from `x` to `y`. */
  function Blend(x: real, y: real, w: real): real {
    x + w * (y - x)
  }

  /** The value read at the fractional position `h` of a sorted sequence. */
  function Interpolate(sorted: seq<real>, h: real): real
    requires 0.0 <= h <= (|sorted| - 1) as real
  {
    Blend(sorted[h.Floor], sorted[Ceiling(h)], h - h.Floor as real)
  }

  /** The fractional position `(n - 1) * p` that level `p` reads. */
  function Position(n: nat, p: real): (h: real)
    requires n > 0 && 0.0 <= p <= 1.0
    ensures 0.0 <= h <= (n - 1) as real
  {
    ProductNonNegative((n - 1) as real, p);
    ProductNonNegative((n - 1) as real, 1.0 - p);
    assert (n - 1) as real * p == (n - 1) as real - (n - 1) as real * (1.0 - p);
    (n - 1) as real * p
  }

  /** R-7 linear interpolation between the two order statistics around `(n - 1) * p`. */
  function Percentile(sorted: seq<real>, p: real): real
    requires sorted != [] && 0.0 <= p <= 1.0
  {
    Interpolate(sorted, Position(|sorted|, p))
  }

  function PercentileOf(samples: seq<real>, p: real): Result<real, PercentileError> {
    if samples == [] then Err(NoSamples)
    else if !(0.0 <= p <= 1.0) then Err(LevelOutsideUnitInterval)
    else Ok(Percentile(Sort(samples), p))
  }

  /** `percentileOf(samples, 0.5)`. */
  function Median(samples: seq<real>): real
    requires samples != []
  {
    Percentile(Sort(samples), 0.5)
  }

  /** `sandboxMedians`: one summary per replicate. */
  function SandboxMedians(replicates: seq<seq<real>>): (r: seq<real>)
    requires [] !in replicates
    ensures |r| == |replicates|
    ensures forall i :: 0 <= i < |replicates| ==> replicates[i] != [] && r[i] == Median(replicates[i])
  {
    assert forall i :: 0 <= i < |replicates| ==> replicates[i] in replicates;
    seq(|replicates|, i requires 0 <= i < |replicates| => assert replicates[i] in replicates; Median(replicates[i]))
  }

  // ----- interpolation between neighbours

  lemma BlendBetween(x: real, y: real, w: real)
    requires x <= y && 0.0 <= w <= 1.0
    ensures x <= Blend(x, y, w) <= y
  {
    ProductNonNegative(w, y - x);
    ProductNonNegative(1.0 - w, y - x);
    assert y - Blend(x, y, w) == (1.0 - w) * (y - x);
  }

  lemma BlendMonotone(x: real, y: real, w: real, w': real)
    requires x <= y && w <= w'
    ensures Blend(x, y, w) <= Blend(x, y, w')
  {
    ProductNonNegative(w' - w, y - x);
  }

  /** A reading lies between the order statistics it interpolates. */
  lemma InterpolateBetween(sorted: seq<real>, h: real)
    requires Sorted(sorted) && 0.0 <= h <= (|sorted| - 1) as real
    ensures sorted[h.Floor] <= Interpolate(sorted, h) <= sorted[Ceiling(h)]
  {
    BlendBetween(sorted[h.Floor], sorted[Ceiling(h)], h - h.Floor as real);
  }

  lemma InterpolateMonotone(sorted: seq<real>, h: real, g: real)
    requires Sorted(sorted) && 0.0 <= h <= g <= (|sorted| - 1) as real
    ensures Interpolate(sorted, h) <= Interpolate(sorted, g)
  {
    var lo := h.Floor;
    if g.Floor != lo {
      InterpolateBetween(sorted, h);
      InterpolateBetween(sorted, g);
    } else if lo as real != h {
      BlendMonotone(sorted[lo], sorted[lo + 1], h - lo as real, g - lo as real);
    } else {
      InterpolateBetween(sorted, g);
      InterpolateBetween(sorted, h);
    }
  }

  lemma PositionMonotone(n: nat, p: real, q: real)
    requires n > 0 && 0.0 <= p <= q <= 1.0
    ensures Position(n, p) <= Position(n, q)
  {
    ProductNonNegative((n - 1) as real, q - p);
  }

  /** No percentile leaves the range of its samples. */
  lemma PercentileInRange(sorted: seq<real>, p: real)
    requires sorted != [] && Sorted(sorted) && 0.0 <= p <= 1.0
    ensures sorted[0] <= Percentile(sorted, p) <= sorted[|sorted| - 1]
  {
    InterpolateBetween(sorted, Position(|sorted|, p));
  }

  /** A higher level never reads a lower value. */
  lemma PercentileMonotone(sorted: seq<real>, p: real, q: real)
    requires sorted != [] && Sorted(sorted) && 0.0 <= p <= q <= 1.0
    ensures Percentile(sorted, p) <= Percentile(sorted, q)
  {
    PositionMonotone(|sorted|, p, q);
    InterpolateMonotone(sorted, Position(|sorted|, p), Position(|sorted|, q));
  }

  /** The R-7 rule in numbers: between the order statistics `k` and `k + 1` a percentile moves in
      proportion to its position `(n - 1) * p`. */
  lemma PercentileInterpolates(sorted: seq<real>, p: real, k: nat)
    requires 0.0 <= p <= 1.0 && k + 1 < |sorted|
    requires k as real <= (|sorted| - 1) as real * p <= (k + 1) as real
    ensures Percentile(sorted, p)
            == sorted[k] + ((|sorted| - 1) as real * p - k as real) * (sorted[k + 1] - sorted[k])
  {
    var h := Position(|sorted|, p);
    assert h == (|sorted| - 1) as real * p;
    ReadFrom(sorted, h, k);
  }

  lemma ReadFrom(sorted: seq<real>, h: real, k: nat)
    requires k + 1 < |sorted| && k as real <= h <= (k + 1) as real
    ensures Interpolate(sorted, h) == sorted[k] + (h - k as real) * (sorted[k + 1] - sorted[k])
  {
    if h == (k + 1) as real {
      assert h.Floor == k + 1;
    } else {
      assert h.Floor == k;
    }
  }

  /** The same rule for samples in any order; a single sample is every percentile of itself. */
  lemma PercentileOfReads(samples: seq<real>, p: real, k: nat)
    requires 0.0 <= p <= 1.0 && k < |samples|
    requires k as real <= (|samples| - 1) as real * p <= (k + 1) as real
    ensures var sorted, h := Sort(samples), (|samples| - 1) as real * p;
            PercentileOf(samples, p).Ok?
            && PercentileOf(samples, p).value
               == if k + 1 == |samples| then sorted[k]
                  else sorted[k] + (h - k as real) * (sorted[k + 1] - sorted[k])
  {
    hide Sort, Interpolate;
    var n, sorted := |samples|, Sort(samples);
    var h := Position(n, p);
    assert PercentileOf(samples, p) == Ok(Interpolate(sorted, h));
    assert h == (n - 1) as real * p;
    if k + 1 < n {
      ReadFrom(sorted, h, k);
    } else {
      ReadAtIndex(sorted, h, k);
    }
  }

  /** Levels 0 and 1 read the minimum and the maximum. */
  lemma PercentileEnds(sorted: seq<real>)
    requires sorted != []
    ensures Percentile(sorted, 0.0) == sorted[0]
    ensures Percentile(sorted, 1.0) == sorted[|sorted| - 1]
  {
    var last := |sorted| - 1;
    assert last as real * 0.0 == 0.0;
    assert last as real * 1.0 == last as real;
  }

  /** The error exits, and a value that depends on the samples as a multiset only. */
  lemma PercentileOfIgnoresOrder(samples: seq<real>, shuffled: seq<real>, p: real)
    requires multiset(samples) == multiset(shuffled)
    ensures PercentileOf(samples, p) == PercentileOf(shuffled, p)
    ensures PercentileOf(samples, p).Ok? <==> samples != [] && 0.0 <= p <= 1.0
    ensures PercentileOf(samples, p) == Err(NoSamples) <==> samples == []
  {
    assert |multiset(samples)| == |multiset(shuffled)|;
    SortIgnoresOrder(samples, shuffled);
  }

  // ----- selection

  /** Everything before `k` is at most `s[k]` and everything after is at least `s[k]`. */
  ghost predicate PartitionedAt(s: seq<real>, k: int) {
    0 <= k < |s|
    && (forall i :: 0 <= i < k ==> s[i] <= s[k])
    && (forall i :: k < i < |s| ==> s[k] <= s[i])
  }

  /** An arrangement partitioned at `k` has its k-th order statistic at `k`. */
  lemma PartitionSelects(s: seq<real>, k: int)
    requires PartitionedAt(s, k)
    ensures Sort(s)[k] == s[k]
  {
    var low, high := Sort(s[..k]), Sort(s[k + 1..]);
    PartitionSorts(s, k, low, high);
    SortedUnique(low + [s[k]] + high, Sort(s));
  }

  lemma PartitionSorts(s: seq<real>, k: int, low: seq<real>, high: seq<real>)
    requires PartitionedAt(s, k) && Sorted(low) && Sorted(high)
    requires multiset(low) == multiset(s[..k]) && multiset(high) == multiset(s[k + 1..])
    ensures |low| == k && Sorted(low + [s[k]] + high)
    ensures multiset(low + [s[k]] + high) == multiset(s)
  {
    assert s == s[..k] + [s[k]] + s[k + 1..];
    assert |multiset(low)| == |multiset(s[..k])|;
    forall i | 0 <= i < |low| ensures low[i] <= s[k] {
      assert low[i] in multiset(s[..k]);
    }
    forall i | 0 <= i < |high| ensures s[k] <= high[i] {
      assert high[i] in multiset(s[k + 1..]);
    }
  }

  lemma SwapKeepsElements(s: seq<real>, i: int, j: int)
    requires 0 <= i < |s| && 0 <= j < |s|
    ensures multiset(s[i := s[j]][j := s[i]]) == multiset(s)
  {
  }

  /** In an arrangement partitioned at `k`, the smallest element of the tail is the next order
      statistic, wherever in the tail it sits. */
  lemma TailMinimumSelects(s: seq<real>, k: int, m: int)
    requires PartitionedAt(s, k) && k < m < |s|
    requires forall i :: k < i < |s| ==> s[m] <= s[i]
    ensures Sort(s)[k + 1] == s[m]
  {
    hide Sort, PartitionedAt;
    var t := BringForward(s, k, m);
    SortIgnoresOrder(s, t);
    PartitionSelects(t, k + 1);
  }

  lemma BringForward(s: seq<real>, k: int, m: int) returns (t: seq<real>)
    requires PartitionedAt(s, k) && k < m < |s|
    requires forall i :: k < i < |s| ==> s[m] <= s[i]
    ensures PartitionedAt(t, k + 1) && t[k + 1] == s[m] && multiset(t) == multiset(s)
  {
    t := s[k + 1 := s[m]][m := s[k + 1]];
    SwapKeepsElements(s, k + 1, m);
    forall i | k + 1 < i < |t| ensures t[k + 1] <= t[i] {
      assert t[i] == s[i] || t[i] == s[k + 1];
    }
  }

  /** The pivot selection: the middle of three, so always one of them. */
  function MedianOfThree(x: real, y: real, z: real): (pivot: real)
    ensures pivot == x || pivot == y || pivot == z
    ensures (x <= pivot || y <= pivot) && (x <= pivot || z <= pivot) && (y <= pivot || z <= pivot)
    ensures (pivot <= x || pivot <= y) && (pivot <= x || pivot <= z) && (pivot <= y || pivot <= z)
  {
    if x < y then (if y < z then y else if x < z then z else x)
    else if x < z then x else if y < z then z else y
  }

  /** Inside `s[..length]`, the window `[lo, hi]` still being partitioned is separated from the rest. */
  ghost predicate Window(s: seq<real>, length: int, lo: int, hi: int) {
    0 <= lo && hi < length <= |s|
    && (forall i, j :: 0 <= i < lo <= j < length ==> s[i] <= s[j])
    && (forall i, j :: 0 <= i <= hi < j < length ==> s[i] <= s[j])
  }

  /** Three-way partition of `[lo, hi]` around `pivot`, as far as the cursor `i` has got. */
  ghost predicate Split(s: seq<real>, lo: int, lt: int, i: int, gt: int, hi: int, pivot: real) {
    0 <= lo <= lt <= i <= gt + 1 <= hi + 1 <= |s|
    && (forall p :: lo <= p < lt ==> s[p] < pivot)
    && (forall p :: lt <= p < i ==> s[p] == pivot)
    && (forall p :: gt < p <= hi ==> s[p] > pivot)
  }

  /** `a` and `b` hold the same elements and agree outside `[lo, hi]`. */
  ghost predicate Shuffled(a: seq<real>, b: seq<real>, lo: int, hi: int) {
    0 <= lo <= hi + 1 <= |a| == |b|
    && multiset(a) == multiset(b)
    && (forall i :: 0 <= i < |a| && !(lo <= i <= hi) ==> a[i] == b[i])
  }

  lemma ShuffledSwap(a: seq<real>, b: seq<real>, lo: int, hi: int, i: int, j: int)
    requires Shuffled(a, b, lo, hi) && lo <= i <= hi && lo <= j <= hi
    ensures Shuffled(a, b[i := b[j]][j := b[i]], lo, hi)
  {
    SwapKeepsElements(b, i, j);
  }

  /** A shuffle of a window holds the same elements in that window. */
  lemma ShuffledSlice(a: seq<real>, b: seq<real>, lo: int, hi: int)
    requires Shuffled(a, b, lo, hi)
    ensures multiset(a[lo..hi + 1]) == multiset(b[lo..hi + 1])
  {
    SliceElements(a, lo, hi + 1);
    SliceElements(b, lo, hi + 1);
    assert a[..lo] == b[..lo] && a[hi + 1..] == b[hi + 1..];
    MultisetCancel(multiset(a[..lo]), multiset(a[lo..hi + 1]), multiset(b[lo..hi + 1]), multiset(a[hi + 1..]));
  }

  lemma MultisetCancel(p: multiset<real>, x: multiset<real>, y: multiset<real>, q: multiset<real>)
    requires p + x + q == p + y + q
    ensures x == y
  {
    forall e ensures x[e] == y[e] {
      assert (p + x + q)[e] == (p + y + q)[e];
    }
  }

  lemma SliceElements(s: seq<real>, from: int, to: int)
    requires 0 <= from <= to <= |s|
    ensures multiset(s) == multiset(s[..from]) + multiset(s[from..to]) + multiset(s[to..])
  {
    assert s == s[..from] + s[from..to] + s[to..];
  }

  /** Rearranging inside a window does not disturb the window's separation. */
  lemma ShuffledKeepsWindow(a: seq<real>, b: seq<real>, length: int, lo: int, hi: int)
    requires Shuffled(a, b, lo, hi) && Window(a, length, lo, hi)
    ensures Window(b, length, lo, hi)
  {
    ShuffledSlice(a, b, lo, hi);
    forall j | lo <= j <= hi ensures exists j' :: lo <= j' <= hi && a[j'] == b[j] {
      assert b[lo..hi + 1][j - lo] == b[j];
      assert b[j] in multiset(a[lo..hi + 1]);
      var m :| 0 <= m < |a[lo..hi + 1]| && a[lo..hi + 1][m] == b[j];
      assert a[lo + m] == b[j];
    }
  }

  /** One three-way partition pass of `buffer[lo..hi]`. */
  method Partition(buffer: array<real>, lo: int, hi: int, pivot: real) returns (lt: int, gt: int)
    requires 0 <= lo <= hi < buffer.Length
    requires pivot in buffer[lo..hi + 1]
    modifies buffer
    ensures Shuffled(old(buffer[..]), buffer[..], lo, hi)
    ensures Split(buffer[..], lo, lt, gt + 1, gt, hi, pivot) && lt <= gt
  {
    hide Shuffled, Split;
    ghost var before := buffer[..];
    lt, gt := lo, hi;
    var i := lo;
    SplitStarts(before, lo, hi, pivot);
    while i <= gt
      invariant lo <= lt <= i <= gt + 1 <= hi + 1
      invariant Split(buffer[..], lo, lt, i, gt, hi, pivot) && Shuffled(before, buffer[..], lo, hi)
      decreases gt + 1 - i
    {
      var v := buffer[i];
      ghost var now := buffer[..];
      if v < pivot {
        SwapLow(before, now, lo, lt, i, gt, hi, pivot);
        buffer[i] := buffer[lt];
        buffer[lt] := v;
        assert buffer[..] == now[i := now[lt]][lt := now[i]];
        lt := lt + 1;
        i := i + 1;
      } else if v > pivot {
        SwapHigh(before, now, lo, lt, i, gt, hi, pivot);
        buffer[i] := buffer[gt];
        buffer[gt] := v;
        assert buffer[..] == now[i := now[gt]][gt := now[i]];
        gt := gt - 1;
      } else {
        SkipEqual(now, lo, lt, i, gt, hi, pivot);
        i := i + 1;
      }
    }
    PivotSettled(before, buffer[..], lo, lt, gt, hi, pivot);
  }

  lemma SplitStarts(s: seq<real>, lo: int, hi: int, pivot: real)
    requires 0 <= lo <= hi < |s|
    ensures Split(s, lo, lo, lo, hi, hi, pivot) && Shuffled(s, s, lo, hi)
  {
  }

  lemma SwapLow(
    before: seq<real>, s: seq<real>, lo: int, lt: int, i: int, gt: int, hi: int, pivot: real)
    requires Split(s, lo, lt, i, gt, hi, pivot) && Shuffled(before, s, lo, hi)
    requires i <= gt && s[i] < pivot
    ensures var t := s[i := s[lt]][lt := s[i]];
            Split(t, lo, lt + 1, i + 1, gt, hi, pivot) && Shuffled(before, t, lo, hi)
  {
    ShuffledSwap(before, s, lo, hi, i, lt);
  }

  lemma SwapHigh(
    before: seq<real>, s: seq<real>, lo: int, lt: int, i: int, gt: int, hi: int, pivot: real)
    requires Split(s, lo, lt, i, gt, hi, pivot) && Shuffled(before, s, lo, hi)
    requires i <= gt && s[i] > pivot
    ensures var t := s[i := s[gt]][gt := s[i]];
            Split(t, lo, lt, i, gt - 1, hi, pivot) && Shuffled(before, t, lo, hi)
  {
    ShuffledSwap(before, s, lo, hi, i, gt);
  }

  lemma SkipEqual(s: seq<real>, lo: int, lt: int, i: int, gt: int, hi: int, pivot: real)
    requires Split(s, lo, lt, i, gt, hi, pivot) && i <= gt && s[i] == pivot
    ensures Split(s, lo, lt, i + 1, gt, hi, pivot)
  {
  }

  /** The pivot came from the window, so the middle part of the split is not empty. */
  lemma PivotSettled(
    before: seq<real>, s: seq<real>, lo: int, lt: int, gt: int, hi: int, pivot: real)
    requires Shuffled(before, s, lo, hi) && Split(s, lo, lt, gt + 1, gt, hi, pivot)
    requires pivot in before[lo..hi + 1]
    ensures lt <= gt
  {
    ShuffledSlice(before, s, lo, hi);
    assert pivot in multiset(s[lo..hi + 1]);
    var m :| 0 <= m < |s[lo..hi + 1]| && s[lo..hi + 1][m] == pivot;
    assert s[lo + m] == pivot;
  }

  /** The k-th smallest of `buffer[0, length)`, selected in place. */
  method SelectNth(buffer: array<real>, length: nat, k: nat) returns (r: real)
    requires k < length <= buffer.Length
    modifies buffer
    ensures buffer[length..] == old(buffer[length..])
    ensures multiset(buffer[..length]) == multiset(old(buffer[..length]))
    ensures PartitionedAt(buffer[..length], k) && r == buffer[k]
    ensures r == Sort(old(buffer[..length]))[k]
  {
    hide Sort, Window, Split, Shuffled, PartitionedAt;
    ghost var before := buffer[..];
    var lo, hi := 0, length - 1;
    WholeWindow(before, length);
    while lo < hi
      invariant 0 <= lo <= k <= hi < length
      invariant Window(buffer[..], length, lo, hi) && Shuffled(before, buffer[..], 0, length - 1)
      decreases hi - lo
    {
      var mid := (lo + hi) / 2;
      var pivot := MedianOfThree(buffer[lo], buffer[mid], buffer[hi]);
      ghost var now := buffer[..];
      PivotInWindow(now, lo, mid, hi, pivot);
      var lt, gt := Partition(buffer, lo, hi, pivot);
      PassNarrows(before, now, buffer[..], length, lo, lt, gt, hi, pivot);
      if k < lt {
        hi := lt - 1;
      } else if k > gt {
        lo := gt + 1;
      } else {
        Selected(before, buffer[..], length, k);
        return pivot;
      }
    }
    r := buffer[k];
    Selected(before, buffer[..], length, k);
  }

  lemma WholeWindow(s: seq<real>, length: nat)
    requires 0 < length <= |s|
    ensures Window(s, length, 0, length - 1) && Shuffled(s, s, 0, length - 1)
  {
  }

  lemma PivotInWindow(s: seq<real>, lo: int, mid: int, hi: int, pivot: real)
    requires 0 <= lo <= mid <= hi < |s| && (pivot == s[lo] || pivot == s[mid] || pivot == s[hi])
    ensures pivot in s[lo..hi + 1]
  {
    var w := s[lo..hi + 1];
    assert w[0] == s[lo] && w[mid - lo] == s[mid] && w[hi - lo] == s[hi];
  }

  /** After a pass the window can shrink to either side of the pivot, and on an index in between it
      closes: that index holds the pivot. */
  lemma PassNarrows(
    before: seq<real>, a: seq<real>, b: seq<real>, length: nat,
    lo: int, lt: int, gt: int, hi: int, pivot: real)
    requires Shuffled(before, a, 0, length - 1) && Shuffled(a, b, lo, hi)
    requires Window(a, length, lo, hi) && Split(b, lo, lt, gt + 1, gt, hi, pivot) && lt <= gt
    ensures Shuffled(before, b, 0, length - 1)
    ensures lo <= lt && gt <= hi && Window(b, length, lo, lt - 1) && Window(b, length, gt + 1, hi)
    ensures forall k :: lt <= k <= gt ==> Window(b, length, k, k) && b[k] == pivot
  {
    ShuffledKeepsWindow(a, b, length, lo, hi);
  }

  /** A closed window at `k` makes it the k-th order statistic of the selected prefix. */
  lemma Selected(before: seq<real>, s: seq<real>, length: nat, k: nat)
    requires Shuffled(before, s, 0, length - 1) && Window(s, length, k, k) && k < length
    ensures PartitionedAt(s[..length], k) && s[k] == Sort(before[..length])[k]
    ensures multiset(s[..length]) == multiset(before[..length]) && s[length..] == before[length..]
  {
    hide Sort;
    ShuffledSlice(before, s, 0, length - 1);
    assert s[..length] == s[0..length] && before[..length] == before[0..length];
    assert PartitionedAt(s[..length], k);
    PartitionSelects(s[..length], k);
    SortIgnoresOrder(s[..length], before[..length]);
  }

  /** The scan for the smallest element of `buffer[first, length)`, with a witness of where it sits. */
  method TailMinimum(buffer: array<real>, first: nat, length: nat) returns (least: real, ghost m: nat)
    requires first < length <= buffer.Length
    ensures first <= m < length && least == buffer[m]
    ensures forall j :: first <= j < length ==> least <= buffer[j]
  {
    least, m := buffer[first], first;
    for i := first + 1 to length
      invariant first <= m < i && least == buffer[m]
      invariant forall j :: first <= j < i ==> least <= buffer[j]
    {
      if buffer[i] < least {
        least, m := buffer[i], i;
      }
    }
  }

  /** The median of `buffer[0, length)`, computed in place: the value `percentile(sorted, 0.5)` gives. */
  method MedianInPlace(buffer: array<real>, length: nat) returns (r: real)
    requires 0 < length <= buffer.Length
    modifies buffer
    ensures r == Median(old(buffer[..length]))
    ensures var sorted, m := Sort(old(buffer[..length])), (length - 1) / 2;
            r == if length == 2 * m + 1 then sorted[m] else (sorted[m] + sorted[m + 1]) / 2.0
    ensures buffer[length..] == old(buffer[length..])
    ensures multiset(buffer[..length]) == multiset(old(buffer[..length]))
  {
    hide Median, Sort, PartitionedAt;
    ghost var before := buffer[..length];
    var h := (length - 1) as real * 0.5;
    var lo := h.Floor;
    MiddlePosition(length, h, lo);
    MedianInNumbers(before);
    r := SelectNth(buffer, length, lo);
    if h == lo as real {
      MedianOfOddLength(before, lo);
    } else {
      var hiValue, m := TailMinimum(buffer, lo + 1, length);
      MedianFromSelection(before, buffer[..length], lo, m);
      r := Blend(r, hiValue, h - lo as real);
    }
  }

  /** The middle position is an index for an odd length and half-way past one for an even length. */
  lemma MiddlePosition(length: nat, h: real, lo: int)
    requires length > 0 && h == (length - 1) as real * 0.5 && lo == h.Floor
    ensures 0 <= lo && if h == lo as real then length == 2 * lo + 1 else length == 2 * lo + 2
    ensures h - lo as real == if length == 2 * lo + 1 then 0.0 else 0.5
  {
    var m := (length - 1) / 2;
    if length % 2 == 1 {
      assert length - 1 == 2 * m;
    } else {
      assert length - 1 == 2 * m + 1;
    }
  }

  lemma ReadAtIndex(sorted: seq<real>, h: real, m: nat)
    requires m < |sorted| && h == m as real
    ensures Interpolate(sorted, h) == sorted[m]
  {
  }

  lemma ReadBetween(sorted: seq<real>, h: real, m: nat)
    requires m + 1 < |sorted| && h == m as real + 0.5
    ensures Interpolate(sorted, h) == Blend(sorted[m], sorted[m + 1], 0.5)
  {
    assert h.Floor == m && Ceiling(h) == m + 1;
  }

  /** An odd number of samples has its middle order statistic as median. */
  lemma MedianOfOddLength(s: seq<real>, m: nat)
    requires |s| == 2 * m + 1
    ensures Median(s) == Sort(s)[m]
  {
    hide Interpolate, Position, Sort;
    OddPosition(m);
    ReadAtIndex(Sort(s), Position(|s|, 0.5), m);
  }

  lemma OddPosition(m: nat)
    ensures Position(2 * m + 1, 0.5) == m as real
  {
    var n := 2 * m;
    assert n as real == 2.0 * m as real;
  }

  lemma EvenPosition(m: nat)
    ensures Position(2 * m + 2, 0.5) == m as real + 0.5
  {
    var n := 2 * m + 1;
    assert n as real == 2.0 * m as real + 1.0;
  }

  /** An even number of samples has the midpoint of its two middle order statistics as median. */
  lemma MedianOfEvenLength(s: seq<real>, m: nat)
    requires |s| == 2 * m + 2
    ensures Median(s) == (Sort(s)[m] + Sort(s)[m + 1]) / 2.0
  {
    hide Interpolate, Position, Sort;
    EvenPosition(m);
    ReadBetween(Sort(s), Position(|s|, 0.5), m);
  }

  lemma MedianOfOne(samples: seq<real>)
    requires |samples| == 1
    ensures Median(samples) == samples[0]
  {
    hide Median, Sort;
    MedianOfOddLength(samples, 0);
    SortOfOne(samples);
  }

  lemma SortOfOne(samples: seq<real>)
    requires |samples| == 1
    ensures Sort(samples) == samples
  {
    assert samples == [samples[0]];
    assert samples[1..] == [];
  }

  lemma MedianInNumbers(s: seq<real>)
    requires s != []
    ensures var sorted, m := Sort(s), (|s| - 1) / 2;
            Median(s) == if |s| == 2 * m + 1 then sorted[m] else (sorted[m] + sorted[m + 1]) / 2.0
  {
    hide Sort, Median;
    var m := (|s| - 1) / 2;
    if |s| == 2 * m + 1 {
      MedianOfOddLength(s, m);
    } else {
      MedianOfEvenLength(s, m);
    }
  }

  /** The lower middle order statistic and the minimum of the tail above it give an even-length median. */
  lemma MedianFromSelection(s: seq<real>, t: seq<real>, lo: nat, m: nat)
    requires |s| == |t| == 2 * lo + 2 && multiset(t) == multiset(s)
    requires PartitionedAt(t, lo) && lo < m < |t|
    requires forall i :: lo < i < |t| ==> t[m] <= t[i]
    ensures Median(s) == (t[lo] + t[m]) / 2.0
  {
    SortIgnoresOrder(s, t);
    PartitionSelects(t, lo);
    TailMinimumSelects(t, lo, m);
    MedianOfEvenLength(s, lo);
  }
}
