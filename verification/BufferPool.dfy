/** The self-calibrating pool of byte buffers, used by one goroutine at a time. */
module BufferPool {
  import opened Bins
  import opened Buffers

  const DEFAULT_MIN_BIT_SIZE := 6
  const CALIBRATE_CALLS_THRESHOLD := 42000

  predicate SortedByCalls(t: seq<CallSize>) {
    forall i, j :: 0 <= i < j < |t| ==> t[i].calls >= t[j].calls
  }

  /** sort.Sort: descending by calls, ties in any order. */
  method SortByCalls(a: array<CallSize>)
    modifies a
    ensures SortedByCalls(a[..]) && multiset(a[..]) == multiset(old(a[..]))
  {
    for i := 0 to a.Length
      invariant SortedByCalls(a[..i])
      invariant multiset(a[..]) == multiset(old(a[..]))
    {
      Insert(a, i);
    }
    assert a[..a.Length] == a[..];
  }

  method Swap(a: array<CallSize>, i: nat, j: nat)
    requires i < j < a.Length
    modifies a
    ensures a[i] == old(a[j]) && a[j] == old(a[i])
    ensures forall k :: 0 <= k < a.Length && k != i && k != j ==> a[k] == old(a[k])
    ensures multiset(a[..]) == old(multiset(a[..]))
  {
    a[i], a[j] := a[j], a[i];
  }

  /** Moves `a[i]` down to its place in the sorted prefix before it. */
  method Insert(a: array<CallSize>, i: nat)
    requires i < a.Length && SortedByCalls(a[..i])
    modifies a
    ensures SortedByCalls(a[..i + 1]) && multiset(a[..]) == multiset(old(a[..]))
  {
    var j := i;
    while j > 0 && a[j - 1].calls < a[j].calls
      invariant 0 <= j <= i
      invariant multiset(a[..]) == multiset(old(a[..]))
      invariant forall k, l :: 0 <= k < l <= i && l != j ==> a[k].calls >= a[l].calls
    {
      Swap(a, j - 1, j);
      j := j - 1;
    }
  }

  /** The 95th percentile of a sum as computed in floating point: the exact floor or one less. */
  predicate IsPercentile(p: int, sum: nat) {
    19 * sum / 20 - 1 <= p <= 19 * sum / 20
  }

  method Percentile(sum: nat) returns (p: nat)
    ensures IsPercentile(p, sum)
  {
    p := 19 * sum / 20;
  }

  // ---- The cut ----

  lemma PrefixSumAtMost(t: seq<CallSize>, i: nat, w: CallSize -> nat)
    requires i <= |t|
    ensures SumBy(t[..i], w) <= SumBy(t, w)
  {
    assert t == t[..i] + t[i..];
    SumByAppend(t[..i], t[i..], w);
  }

  lemma NextPrefix(t: seq<CallSize>, i: nat, w: CallSize -> nat)
    requires i < |t|
    ensures SumBy(t[..i + 1], w) == SumBy(t[..i], w) + w(t[i])
  {
    assert t[..i + 1][..i] == t[..i];
  }

  lemma {:induction false} SumOfZeros(t: seq<CallSize>, w: CallSize -> nat)
    requires forall c :: c in t ==> w(c) == 0
    ensures SumBy(t, w) == 0
  {
    if t != [] {
      SumOfZeros(t[..|t| - 1], w);
    }
  }

  /** The bins called more often than bin `p` all come before it. */
  lemma BusierBinsComeFirst(t: seq<CallSize>, p: nat)
    requires SortedByCalls(t) && p < |t|
    ensures SumBy(t, CallsAbove(t[p].calls)) <= SumBy(t[..p], AllCalls())
  {
    var w := CallsAbove(t[p].calls);
    assert t == t[..p] + t[p..];
    SumByAppend(t[..p], t[p..], w);
    SumOfZeros(t[p..], w);
    SumByAtMost(t[..p], w, AllCalls());
  }

  /** Bins up to the cut are within the largest size among them. */
  lemma CutCovers(t: seq<CallSize>, i: nat, limit: nat)
    requires i <= |t| && forall k :: 0 <= k < i ==> t[k].size <= limit
    ensures SumBy(t, CallsWithin(limit)) >= SumBy(t[..i], AllCalls())
  {
    SumByAtMost(t[..i], AllCalls(), CallsWithin(limit));
    PrefixSumAtMost(t, i, CallsWithin(limit));
  }

  /** Goes through the bins, most called first, until their calls exceed `maxSum`. */
  method Cut(a: array<CallSize>, maxSum: nat) returns (defaultSize: nat, maxSize: nat, ghost last: nat)
    requires a.Length == STEPS && SortedByCalls(a[..]) && SumBy(a[..], AllCalls()) > maxSum
    ensures defaultSize == a[0].size <= maxSize
    ensures SumBy(a[..], CallsWithin(maxSize)) > maxSum
    ensures last < STEPS && maxSize == a[last].size && SumBy(a[..], CallsAbove(a[last].calls)) <= maxSum
  {
    assert SumBy(a[..0], AllCalls()) == 0;
    hide SumBy, CallsWithin, CallsAbove;
    defaultSize := a[0].size;
    maxSize := defaultSize;
    last := 0;
    var callsSum, i := 0, 0;
    while i < STEPS
      invariant 0 <= i <= STEPS && last < STEPS
      invariant callsSum == SumBy(a[..i], AllCalls())
      invariant defaultSize <= maxSize == a[last].size
      invariant forall k :: 0 <= k < i ==> a[k].size <= maxSize
      invariant SumBy(a[..last], AllCalls()) <= maxSum
    {
      if callsSum > maxSum {
        break;
      }
      NextPrefix(a[..], i, AllCalls());
      assert a[..][..i + 1] == a[..i + 1] && a[..][..i] == a[..i];
      callsSum := callsSum + a[i].calls;
      var size := a[i].size;
      if size > maxSize {
        maxSize := size;
        last := i;
      }
      i := i + 1;
    }
    assert a[..][..i] == a[..i] && a[..][..last] == a[..last] && a[..][..STEPS] == a[..];
    CutCovers(a[..], i, maxSize);
    BusierBinsComeFirst(a[..], last);
  }

  // ---- What calibration promises ----

  /**
   * The first bin's new width: up if more of the puts were in the last bin than in the first, down
   * if there were some in the first and none in the last two.
   */
  function NextMinBitSize(log: seq<int>, m: nat): nat {
    if m < 12 && Above(log, Pow2(m + 18)) > AtMost(log, Pow2(m)) then m + 1
    else if m > 6 && AtMost(log, Pow2(m)) > 0 && Above(log, Pow2(m + 17)) == 0 then m - 1
    else m
  }

  ghost predicate IsMostCalled(log: seq<int>, m: nat, i: nat) {
    i < STEPS && forall j: nat :: j < STEPS ==> Count(log, m, j) <= Count(log, m, i)
  }

  /** The bins called more often than bin `i` do not reach the percentile on their own. */
  ghost predicate IsNeeded(log: seq<int>, m: nat, maxSum: nat, i: nat) {
    i < STEPS && PutsIn(log, m, Busier(log, m, i, STEPS)) <= maxSum
  }

  /** The sizes that fit the puts of `log`, counted in bins of first width `m`. */
  ghost predicate Fits(log: seq<int>, m: nat, defaultSize: nat, maxSize: nat, maxSum: nat) {
    && IsPercentile(maxSum, |log|)
    && PutsWithin(log, m, maxSize) > maxSum
    && (exists i: nat :: IsMostCalled(log, m, i) && defaultSize == BinSize(m, i))
    && (exists i: nat :: IsNeeded(log, m, maxSum, i) && maxSize == BinSize(m, i))
    && defaultSize <= maxSize
  }

  lemma {:induction false} AllWithinLastBin(log: seq<int>, m: nat)
    ensures PutsWithin(log, m, BinSize(m, STEPS - 1)) == |log|
  {
    if log != [] {
      AllWithinLastBin(log[..|log| - 1], m);
      BinSizeMonotone(m, Index(m, log[|log| - 1]), STEPS - 1);
    }
  }

  lemma SameSums(t: seq<CallSize>, limit: nat)
    requires forall c :: c in t ==> c.size <= limit
    ensures SumBy(t, AllCalls()) == SumBy(t, CallsWithin(limit))
  {
    SumByAtMost(t, AllCalls(), CallsWithin(limit));
    SumByAtMost(t, CallsWithin(limit), AllCalls());
  }

  /** The histogram's total is the number of puts. */
  lemma TableTotal(log: seq<int>, m: nat)
    ensures SumBy(Table(Tally(log, m), Pow2(m)), AllCalls()) == |log|
  {
    var t := Table(Tally(log, m), Pow2(m));
    var limit := BinSize(m, STEPS - 1);
    forall c | c in t ensures c.size <= limit {
      var i :| 0 <= i < STEPS && c == t[i];
      Pow2Add(m, i);
      BinSizeMonotone(m, i, STEPS - 1);
    }
    SameSums(t, limit);
    TableCountsPuts(log, m, limit);
    AllWithinLastBin(log, m);
  }

  /** A sorted table's cut, said of the puts that the table counts. */
  lemma CutFits(log: seq<int>, m: nat, t: seq<CallSize>, last: nat, maxSum: nat)
    requires IsPercentile(maxSum, |log|)
    requires SortedByCalls(t) && multiset(t) == multiset(Table(Tally(log, m), Pow2(m))) && |t| == STEPS
    requires last < STEPS && t[0].size <= t[last].size
    requires SumBy(t, CallsWithin(t[last].size)) > maxSum
    requires SumBy(t, CallsAbove(t[last].calls)) <= maxSum
    ensures Fits(log, m, t[0].size, t[last].size, maxSum)
  {
    var table := Table(Tally(log, m), Pow2(m));
    SumByPermutation(t, table, CallsWithin(t[last].size));
    SumByPermutation(t, table, CallsAbove(t[last].calls));
    TableCountsPuts(log, m, t[last].size);
    var i := BinOf(log, m, t, 0);
    var j := BinOf(log, m, t, last);
    MostCalledFirst(log, m, t, i);
    BusierCalls(log, m, j, STEPS);
    assert table[..STEPS] == table;
    assert IsNeeded(log, m, maxSum, j);
  }

  lemma MostCalledFirst(log: seq<int>, m: nat, t: seq<CallSize>, i: nat)
    requires SortedByCalls(t) && multiset(t) == multiset(Table(Tally(log, m), Pow2(m))) && |t| == STEPS
    requires i < STEPS && t[0].calls == Count(log, m, i)
    ensures IsMostCalled(log, m, i)
  {
    var table := Table(Tally(log, m), Pow2(m));
    forall k: nat | k < STEPS ensures Count(log, m, k) <= Count(log, m, i) {
      assert table[k] in multiset(table);
      var l :| 0 <= l < STEPS && t[l] == table[k];
    }
  }

  lemma BinOf(log: seq<int>, m: nat, t: seq<CallSize>, k: nat) returns (i: nat)
    requires multiset(t) == multiset(Table(Tally(log, m), Pow2(m))) && k < |t|
    ensures i < STEPS && t[k] == CallSize(Count(log, m, i), BinSize(m, i))
  {
    var table := Table(Tally(log, m), Pow2(m));
    assert t[k] in multiset(t);
    i :| 0 <= i < STEPS && table[i] == t[k];
    Pow2Add(m, i);
  }

  /** How many of the logged lengths fit in `limit` bytes, or are beyond the last bin. */
  function PutsFitting(log: seq<int>, m: nat, limit: nat): nat {
    if log == [] then 0
    else
      var n := log[|log| - 1];
      PutsFitting(log[..|log| - 1], m, limit) + if n <= limit || n > BinSize(m, STEPS - 1) then 1 else 0
  }

  lemma {:induction false} CoveredPutsFit(log: seq<int>, m: nat, limit: nat)
    ensures PutsWithin(log, m, limit) <= PutsFitting(log, m, limit)
  {
    if log != [] {
      CoveredPutsFit(log[..|log| - 1], m, limit);
      var n := log[|log| - 1];
      if BinSize(m, Index(m, n)) <= limit {
        CoveredPutFits(m, n, limit);
      }
    }
  }

  /**
   * Calibration keeps what is used: of the puts it was based on, more than the 95th percentile
   * have lengths that fit a buffer of the new maximum size, not counting those beyond the last bin.
   */
  lemma CalibrationKeepsWhatIsUsed(log: seq<int>, m: nat, defaultSize: nat, maxSize: nat, maxSum: nat)
    requires Fits(log, m, defaultSize, maxSize, maxSum)
    ensures PutsFitting(log, m, maxSize) > maxSum && 19 * |log| / 20 - 1 <= maxSum <= 19 * |log| / 20
  {
    CoveredPutsFit(log, m, maxSize);
  }

  // ---- The pool ----

  ghost predicate IsPooledSize(size: nat) {
    exists k: nat :: IsPooledBits(k) && size == Pow2(k)
  }

  predicate IsPooledBits(k: nat) {
    6 <= k <= 31
  }

  lemma BinSizesArePooled(m: nat, i: nat)
    requires 6 <= m <= 12 && i < STEPS
    ensures IsPooledSize(BinSize(m, i))
  {
    assert IsPooledBits(m + i);
  }

  class Pool {
    const calls: array<nat>
    var calibrating: nat
    var defaultSize: nat
    var maxSize: nat
    var minBitSize: nat
    var minSize: nat
    /** What sync.Pool holds; Get may give any of it, or nothing. */
    var bag: set<ByteBuffer>
    /** The lengths put since the last calibration. */
    ghost var log: seq<int>

    constructor ()
      ensures Valid() && fresh(calls) && log == [] && minBitSize == 0 && bag == {}
    {
      calls := new nat[STEPS](i => 0);
      calibrating, defaultSize, maxSize, minBitSize, minSize := 0, 0, 0, 0, 0;
      bag, log := {}, [];
      new;
      assert calls[..] == Tally([], 0);
    }

    ghost predicate Valid()
      reads this, calls
    {
      && calls.Length == STEPS && calibrating == 0
      && calls[..] == Tally(log, minBitSize)
      && (forall i :: 0 <= i < STEPS ==> calls[i] <= CALIBRATE_CALLS_THRESHOLD)
      && (minBitSize == 0 ==> minSize == 0 && log == [])
      && (minBitSize != 0 ==> Initialised())
      && (maxSize == 0 ==> defaultSize == 0)
      && (maxSize != 0 ==> IsPooledSize(defaultSize) && IsPooledSize(maxSize) && defaultSize <= maxSize)
    }

    ghost predicate Initialised()
      reads this
    {
      6 <= minBitSize <= 12 && minSize == Pow2(minBitSize)
    }

    /** Get, when sync.Pool gives `pick`. */
    method Get(pick: ByteBuffer?) returns (b: ByteBuffer)
      requires Valid() && (pick != null ==> pick in bag)
      modifies this`bag, pick
      ensures Valid() && b.Valid() && b.len == 0 && bag == old(bag) - {b}
      ensures if pick == null then fresh(b) && b.data.Length == defaultSize else b == pick && b.data == old(pick.data)
    {
      if pick != null {
        bag := bag - {pick};
        b := pick;
        b.Reset();
        return;
      }
      b := new ByteBuffer(0, defaultSize);
    }

    /** GetLen, when sync.Pool gives `pick`: a buffer of exactly the length asked for. */
    method GetLen(s: nat, pick: ByteBuffer?) returns (b: ByteBuffer)
      requires Valid() && (pick != null ==> pick in bag)
      modifies this`bag, pick
      ensures Valid() && b.Valid() && b.len == s <= b.data.Length && bag == old(bag) - {b}
      ensures b == pick <==> pick != null && s <= old(pick.data.Length)
      ensures b != pick ==> fresh(b) && b.data.Length == AllocationSize(minSize, minBitSize, s)
      ensures pick != null ==> pick.data == old(pick.data) && (b != pick ==> pick.len == old(pick.len))
    {
      if pick != null && pick.data.Length >= s {
        bag := bag - {pick};
        b := pick;
        b.len := s;
        return;
      }
      var idx := ComputeIndex(minBitSize, s);
      var size := minSize * Pow2(idx);
      if size < s {
        size := s;
      }
      b := new ByteBuffer(s, size);
    }

    /**
     * Put counts the length, calibrates once a bin is called too often, and keeps the buffer
     * unless it is above the maximum size.
     */
    method Put(b: ByteBuffer)
      requires Valid() && b.Valid()
      modifies this, calls
      ensures Valid() && minBitSize != 0
      ensures var m := if old(minBitSize) == 0 then 6 else old(minBitSize);
              var puts := old(log) + [b.len as int];
              if Count(puts, m, Index(m, b.len)) <= 42000 then
                log == puts && minBitSize == m && defaultSize == old(defaultSize) && maxSize == old(maxSize)
              else
                && log == [] && minBitSize == NextMinBitSize(puts, m)
                && exists maxSum: nat :: Fits(puts, m, defaultSize, maxSize, maxSum)
      ensures bag == old(bag) + if maxSize == 0 || b.data.Length <= maxSize then {b} else {}
    {
      hide Fits, Index, NextMinBitSize;
      if minBitSize == 0 {
        InitBins();
        assert Tally([], DEFAULT_MIN_BIT_SIZE) == Tally([], 0);
      }
      RecordCall(b.len);
      if maxSize == 0 || b.data.Length <= maxSize {
        bag := bag + {b};
      }
    }

    /** Counts one call in its bin, and calibrates when that is one too many. */
    method RecordCall(n: nat)
      requires Valid() && Initialised()
      modifies this`calibrating, this`defaultSize, this`maxSize, this`minBitSize, this`minSize, this`log, calls
      ensures Valid() && Initialised()
      ensures var m := old(minBitSize);
              var puts := old(log) + [n as int];
              if Count(puts, m, Index(m, n)) <= 42000 then
                log == puts && minBitSize == m && defaultSize == old(defaultSize) && maxSize == old(maxSize)
              else
                && log == [] && minBitSize == NextMinBitSize(puts, m)
                && exists maxSum: nat :: Fits(puts, m, defaultSize, maxSize, maxSum)
    {
      hide Fits, Index, Count;
      var idx := ComputeIndex(minBitSize, n);
      TallyAfterPut(log, minBitSize, n);
      calls[idx] := calls[idx] + 1;
      log := log + [n as int];
      assert calls[..] == Tally(log, minBitSize);
      assert calls[idx] == Count(log, minBitSize, idx);
      if calls[idx] > CALIBRATE_CALLS_THRESHOLD {
        var maxSum := Calibrate();
      }
    }

    method InitBins()
      modifies this`minBitSize, this`minSize
      ensures minBitSize == DEFAULT_MIN_BIT_SIZE && minSize == Pow2(DEFAULT_MIN_BIT_SIZE)
    {
      ResizeBins(DEFAULT_MIN_BIT_SIZE);
    }

    method ResizeBins(m: nat)
      modifies this`minBitSize, this`minSize
      ensures minBitSize == m && minSize == Pow2(m)
    {
      minBitSize, minSize := m, Pow2(m);
    }

    /** Empties the histogram into a table. */
    method TakeCalls() returns (a: array<CallSize>, callsSum: nat)
      requires calls.Length == STEPS
      modifies calls
      ensures fresh(a) && a[..] == Table(old(calls[..]), minSize)
      ensures callsSum == SumBy(a[..], AllCalls())
      ensures forall i :: 0 <= i < STEPS ==> calls[i] == 0
    {
      a := new CallSize[STEPS](i => CallSize(0, 0));
      callsSum := 0;
      ghost var table := Table(calls[..], minSize);
      for i := 0 to STEPS
        invariant a[..i] == table[..i] && callsSum == SumBy(table[..i], AllCalls())
        invariant forall j :: 0 <= j < i ==> calls[j] == 0
        invariant forall j :: i <= j < STEPS ==> calls[j] == old(calls[j])
      {
        var n := calls[i];
        calls[i] := 0;
        callsSum := callsSum + n;
        a[i] := CallSize(n, minSize * Pow2(i));
        NextPrefix(table, i, AllCalls());
        assert a[..i + 1] == a[..i] + [a[i]] && table[..i + 1] == table[..i] + [table[i]];
      }
      assert a[..STEPS] == a[..] && table[..STEPS] == table;
    }

    method Calibrate() returns (ghost maxSum: nat)
      requires calls.Length == STEPS && calibrating == 0 && Initialised()
      requires calls[..] == Tally(log, minBitSize) && log != []
      modifies this`calibrating, this`defaultSize, this`maxSize, this`minBitSize, this`minSize, this`log, calls
      ensures Valid() && Initialised() && log == []
      ensures Fits(old(log), old(minBitSize), defaultSize, maxSize, maxSum)
      ensures var puts, m := old(log), old(minBitSize);
              minBitSize == if m < 12 && Above(puts, Pow2(m + 18)) > AtMost(puts, Pow2(m)) then m + 1
                            else if m > 6 && AtMost(puts, Pow2(m)) > 0 && Above(puts, Pow2(m + 17)) == 0 then m - 1
                            else m
    {
      hide Fits, Pow2, Above, AtMost, Count, Tally, Table;
      calibrating := 1;
      ghost var puts, m := log, minBitSize;
      OuterCalls(puts, m);
      var a, callsSum := TakeCalls();
      AdjustBins(a);
      var d, s;
      d, s, maxSum := ChooseSizes(a, callsSum, puts, m);
      defaultSize, maxSize := d, s;
      log := [];
      calibrating := 0;
      FitsArePooled(puts, m, d, s, maxSum);
      NoCalls(calls[..], minBitSize);
    }

    /** Moves the bins up or down by one, by where the calls of the table lie. */
    method AdjustBins(a: array<CallSize>)
      requires a.Length == STEPS && Initialised()
      modifies this`minBitSize, this`minSize
      ensures Initialised()
      ensures var m := old(minBitSize);
              minBitSize == if m < 12 && a[19].calls > a[0].calls then m + 1
                            else if m > 6 && a[0].calls > 0 && a[18].calls == 0 && a[19].calls == 0 then m - 1
                            else m
    {
      if minBitSize + STEPS < 32 && a[STEPS - 1].calls > a[0].calls {
        ResizeBins(minBitSize + 1);
      } else if minBitSize > DEFAULT_MIN_BIT_SIZE && a[0].calls > 0
             && a[STEPS - 2].calls == 0 && a[STEPS - 1].calls == 0 {
        ResizeBins(minBitSize - 1);
      }
    }
  }

  /** The outer bins of the table, said of the puts. */
  lemma OuterCalls(log: seq<int>, m: nat)
    ensures var t := Table(Tally(log, m), Pow2(m));
            && t[0].calls == AtMost(log, Pow2(m)) && t[19].calls == Above(log, Pow2(m + 18))
            && t[18].calls + t[19].calls == Above(log, Pow2(m + 17))
  {
    OuterBins(log, m);
  }

  lemma NoCalls(calls: seq<nat>, m: nat)
    requires |calls| == STEPS && forall i :: 0 <= i < STEPS ==> calls[i] == 0
    ensures calls == Tally([], m)
  {}

  /** Sorts the table by calls and cuts it at the 95th percentile. */
  method ChooseSizes(a: array<CallSize>, callsSum: nat, ghost puts: seq<int>, ghost m: nat)
    returns (defaultSize: nat, maxSize: nat, ghost maxSum: nat)
    requires a[..] == Table(Tally(puts, m), Pow2(m)) && callsSum == SumBy(a[..], AllCalls()) && puts != []
    modifies a
    ensures Fits(puts, m, defaultSize, maxSize, maxSum)
  {
    ghost var table := a[..];
    TableTotal(puts, m);
    SortByCalls(a);
    SumByPermutation(a[..], table, AllCalls());
    var cut := Percentile(callsSum);
    ghost var last;
    defaultSize, maxSize, last := Cut(a, cut);
    CutFits(puts, m, a[..], last, cut);
    maxSum := cut;
  }

  lemma FitsArePooled(log: seq<int>, m: nat, d: nat, s: nat, maxSum: nat)
    requires Fits(log, m, d, s, maxSum) && 6 <= m <= 12
    ensures IsPooledSize(d) && IsPooledSize(s) && s > 0
  {
    var i: nat :| IsMostCalled(log, m, i) && d == BinSize(m, i);
    var j: nat :| IsNeeded(log, m, maxSum, j) && s == BinSize(m, j);
    BinSizesArePooled(m, i);
    BinSizesArePooled(m, j);
  }
}
