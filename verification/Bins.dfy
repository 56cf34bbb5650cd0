/** The pool's power-of-two bins: which bin a length falls in, and how a histogram counts lengths. */
module Bins {

  const STEPS := 20

  function Pow2(k: nat): (p: nat)
    ensures p > 0
  {
    if k == 0 then 1 else 2 * Pow2(k - 1)
  }

  /** How many times `v` can be halved before nothing is left. */
  function BitLength(v: int): nat
    decreases if v > 0 then v else 0
  {
    if v <= 0 then 0 else 1 + BitLength(v / 2)
  }

  /** The bin of a length, the last bin taking everything above it. */
  function Index(minBitSize: nat, n: int): (i: nat)
    ensures i < STEPS
  {
    var l := BitLength((n - 1) / Pow2(minBitSize));
    if l >= STEPS then STEPS - 1 else l
  }

  method ComputeIndex(minBitSize: nat, n: int) returns (idx: nat)
    ensures idx == Index(minBitSize, n)
  {
    var v := n - 1;
    v := v / Pow2(minBitSize);
    idx := 0;
    while v > 0
      invariant idx + BitLength(v) == BitLength((n - 1) / Pow2(minBitSize))
    {
      v := v / 2;
      idx := idx + 1;
    }
    if idx >= STEPS {
      idx := STEPS - 1;
    }
  }

  lemma {:induction false} Pow2Add(a: nat, b: nat)
    ensures Pow2(a + b) == Pow2(a) * Pow2(b)
  {
    if a > 0 {
      Pow2Add(a - 1, b);
      assert Pow2(a) * Pow2(b) == 2 * (Pow2(a - 1) * Pow2(b));
    }
  }

  lemma {:induction false} Pow2Monotone(a: nat, b: nat)
    requires a <= b
    ensures Pow2(a) <= Pow2(b)
    decreases b - a
  {
    if a < b {
      Pow2Monotone(a, b - 1);
    }
  }

  lemma {:induction false} BitLengthLeast(v: int)
    ensures v < Pow2(BitLength(v))
    ensures v > 0 ==> Pow2(BitLength(v) - 1) <= v
    decreases if v > 0 then v else 0
  {
    if v > 0 {
      BitLengthLeast(v / 2);
    }
  }

  lemma QuotientBelow(a: int, d: nat, q: nat)
    requires d > 0
    ensures a / d < q <==> a < d * q
  {
    var x := a / d;
    if x < q {
      assert d * (x + 1) <= d * q;
      assert d * (x + 1) == d * x + d;
    } else {
      assert d * x >= d * q;
    }
  }

  /** The largest length bin `i` holds. */
  function BinSize(m: nat, i: nat): nat {
    Pow2(m + i)
  }

  lemma BinSizeMonotone(m: nat, i: nat, j: nat)
    requires i <= j
    ensures BinSize(m, i) <= BinSize(m, j)
  {
    Pow2Monotone(m + i, m + j);
  }

  /** Halving `l` times leaves nothing exactly when the length fits bin `l`. */
  lemma ShiftedBelow(n: int, m: nat, l: nat)
    ensures (n - 1) / Pow2(m) < Pow2(l) <==> n <= BinSize(m, l)
  {
    Pow2Add(m, l);
    QuotientBelow(n - 1, Pow2(m), Pow2(l));
  }

  /** The unclamped bin of a length holds it, and no smaller bin does. */
  lemma UnclampedBin(m: nat, n: int)
    ensures var l := BitLength((n - 1) / Pow2(m));
            n <= BinSize(m, l) && forall i: nat :: i < l ==> BinSize(m, i) < n
  {
    hide BinSize;
    var v := (n - 1) / Pow2(m);
    var l := BitLength(v);
    BitLengthLeast(v);
    ShiftedBelow(n, m, l);
    forall i: nat | i < l ensures BinSize(m, i) < n {
      Pow2Monotone(i, l - 1);
      ShiftedBelow(n, m, i);
    }
  }

  /**
   * A length falls in the smallest bin that holds it: every smaller bin is too small, and the
   * bin itself is large enough unless even the last one is not.
   */
  lemma IndexIsLeast(m: nat, n: int)
    ensures forall i: nat :: i < Index(m, n) ==> BinSize(m, i) < n
    ensures n <= BinSize(m, Index(m, n)) <==> n <= BinSize(m, STEPS - 1)
    ensures Index(m, n) < STEPS - 1 ==> n <= BinSize(m, Index(m, n))
  {
    hide BinSize, Pow2, BitLength;
    UnclampedBin(m, n);
    BinSizeMonotone(m, Index(m, n), STEPS - 1);
  }

  lemma IndexMonotone(m: nat, a: int, b: int)
    requires a <= b
    ensures Index(m, a) <= Index(m, b)
  {
    hide BinSize, Index;
    IndexIsLeast(m, a);
    IndexIsLeast(m, b);
  }

  /** The capacity GetLen allocates: the bin of the length, or the length itself if that is more. */
  function AllocationSize(minSize: nat, m: nat, s: nat): (size: nat)
    ensures size >= s
  {
    var size := minSize * Pow2(Index(m, s));
    if size < s then s else size
  }

  /** A length that the bins can hold never costs twice what was asked for, beyond the first bin. */
  lemma AllocationIsTight(m: nat, s: nat)
    requires s <= BinSize(m, STEPS - 1)
    ensures AllocationSize(Pow2(m), m, s) <= Pow2(m) || AllocationSize(Pow2(m), m, s) <= 2 * s - 1
  {
    hide Index;
    var i := Index(m, s);
    IndexIsLeast(m, s);
    Pow2Add(m, i);
    if i > 0 {
      assert BinSize(m, i - 1) < s;
      assert Pow2(m + i) == 2 * Pow2(m + (i - 1));
    }
  }

  /** Up to any bin but the last the index says which lengths the bins hold. */
  lemma IndexAtMost(m: nat, n: int, i: nat)
    requires i < STEPS - 1
    ensures Index(m, n) <= i <==> n <= BinSize(m, i)
  {
    hide Index, BinSize;
    IndexIsLeast(m, n);
    if Index(m, n) <= i {
      BinSizeMonotone(m, Index(m, n), i);
    }
  }

  /**
   * A length that the bins can hold is given the least power of two that holds it and is not below
   * the first bin; a longer one, or any length while there are no bins, is given just what it is.
   */
  lemma AllocationIsLeast(m: nat, s: nat)
    ensures s <= BinSize(m, STEPS - 1) ==>
              && (exists k: nat :: AllocationSize(Pow2(m), m, s) == Pow2(k))
              && AllocationSize(Pow2(m), m, s) >= s && AllocationSize(Pow2(m), m, s) >= Pow2(m)
              && forall k: nat :: Pow2(k) >= s && Pow2(k) >= Pow2(m) ==> AllocationSize(Pow2(m), m, s) <= Pow2(k)
    ensures s > BinSize(m, STEPS - 1) ==> AllocationSize(Pow2(m), m, s) == s
    ensures AllocationSize(0, m, s) == s
  {
    hide AllocationSize, Index, BinSize, Pow2;
    var i := Index(m, s);
    AllocationInBin(m, s);
    IndexIsLeast(m, s);
    Pow2Monotone(m, m + i);
    forall k: nat | s <= BinSize(m, STEPS - 1) && Pow2(k) >= s && Pow2(k) >= Pow2(m) ensures Pow2(m + i) <= Pow2(k) {
      if k < m {
        Pow2Monotone(k, m - 1);
        Pow2Double(m);
      } else if k < m + i {
        BinSizeAt(m, k);
      } else {
        Pow2Monotone(m + i, k);
      }
    }
  }

  lemma BinSizeAt(m: nat, k: nat)
    requires m <= k
    ensures BinSize(m, k - m) == Pow2(k)
  {}

  lemma AllocationInBin(m: nat, s: nat)
    ensures AllocationSize(Pow2(m), m, s) == if s <= BinSize(m, STEPS - 1) then Pow2(m + Index(m, s)) else s
    ensures AllocationSize(0, m, s) == s
  {
    hide Index, Pow2;
    IndexIsLeast(m, s);
    Pow2Add(m, Index(m, s));
    BinSizeMonotone(m, Index(m, s), STEPS - 1);
  }

  lemma Pow2Double(k: nat)
    requires k > 0
    ensures Pow2(k) == 2 * Pow2(k - 1) && Pow2(k - 1) < Pow2(k)
  {}

  /** The sizes in literal terms: bins from 64 bytes to 32 MiB at first. */
  lemma DefaultBins()
    ensures Pow2(6) == 64 && BinSize(6, STEPS - 1) == 0x200_0000
  {
    assert Pow2(5) == 32 && Pow2(10) == 1024 && Pow2(15) == 32768 && Pow2(20) == 0x10_0000;
  }

  // ---- The histogram ----

  datatype CallSize = CallSize(calls: nat, size: nat)

  /** How many of the logged lengths fell in bin `i`. */
  function Count(log: seq<int>, m: nat, i: nat): nat {
    if log == [] then 0
    else Count(log[..|log| - 1], m, i) + if Index(m, log[|log| - 1]) == i then 1 else 0
  }

  /** How many of the logged lengths are at most `x`. */
  function AtMost(log: seq<int>, x: int): nat {
    if log == [] then 0 else AtMost(log[..|log| - 1], x) + if log[|log| - 1] <= x then 1 else 0
  }

  /** How many of the logged lengths are above `x`. */
  function Above(log: seq<int>, x: int): nat {
    if log == [] then 0 else Above(log[..|log| - 1], x) + if log[|log| - 1] > x then 1 else 0
  }

  /** The first bin has the lengths up to its size, the last two those above the bin before them. */
  lemma {:induction false} OuterBins(log: seq<int>, m: nat)
    ensures Count(log, m, 0) == AtMost(log, Pow2(m))
    ensures Count(log, m, STEPS - 1) == Above(log, Pow2(m + 18))
    ensures Count(log, m, STEPS - 2) + Count(log, m, STEPS - 1) == Above(log, Pow2(m + 17))
  {
    if log != [] {
      hide Index, Pow2;
      var n := log[|log| - 1];
      OuterBins(log[..|log| - 1], m);
      IndexAtMost(m, n, 0);
      IndexAtMost(m, n, 17);
      IndexAtMost(m, n, 18);
    }
  }

  /** How many of the logged lengths fell in one of `bins`. */
  function PutsIn(log: seq<int>, m: nat, bins: set<nat>): nat {
    if log == [] then 0
    else PutsIn(log[..|log| - 1], m, bins) + if Index(m, log[|log| - 1]) in bins then 1 else 0
  }

  lemma {:induction false} PutsInOneMore(log: seq<int>, m: nat, bins: set<nat>, k: nat)
    requires k !in bins
    ensures PutsIn(log, m, bins + {k}) == PutsIn(log, m, bins) + Count(log, m, k)
  {
    if log != [] {
      hide Index;
      PutsInOneMore(log[..|log| - 1], m, bins, k);
    }
  }

  lemma {:induction false} PutsInNone(log: seq<int>, m: nat)
    ensures PutsIn(log, m, {}) == 0
  {
    if log != [] {
      PutsInNone(log[..|log| - 1], m);
    }
  }

  function Tally(log: seq<int>, m: nat): (calls: seq<nat>)
    ensures |calls| == STEPS
  {
    seq(STEPS, i requires 0 <= i < STEPS => Count(log, m, i))
  }

  /** The histogram as the table that calibration sorts. */
  function Table(calls: seq<nat>, minSize: nat): (t: seq<CallSize>)
    requires |calls| == STEPS
    ensures |t| == STEPS
  {
    seq(STEPS, i requires 0 <= i < STEPS => CallSize(calls[i], minSize * Pow2(i)))
  }

  function SumBy(t: seq<CallSize>, w: CallSize -> nat): nat {
    if t == [] then 0 else SumBy(t[..|t| - 1], w) + w(t[|t| - 1])
  }

  function AllCalls(): CallSize -> nat {
    (c: CallSize) => c.calls
  }

  /** The calls of bins no larger than `limit`. */
  function CallsWithin(limit: nat): CallSize -> nat {
    (c: CallSize) => if c.size <= limit then c.calls else 0
  }

  /** The calls of bins called more than `n` times. */
  function CallsAbove(n: nat): CallSize -> nat {
    (c: CallSize) => if c.calls > n then c.calls else 0
  }

  lemma {:induction false} SumByAppend(s: seq<CallSize>, t: seq<CallSize>, w: CallSize -> nat)
    ensures SumBy(s + t, w) == SumBy(s, w) + SumBy(t, w)
  {
    if t == [] {
      assert s + t == s;
    } else {
      assert (s + t)[..|s + t| - 1] == s + t[..|t| - 1];
      SumByAppend(s, t[..|t| - 1], w);
    }
  }

  lemma Middle<T>(front: seq<T>, x: T, back: seq<T>)
    ensures multiset(front + ([x] + back)) == multiset(front + back) + multiset{x}
  {}

  /** A reordering, with one occurrence of the last element taken out on both sides. */
  lemma TakeOut<T>(s: seq<T>, x: T, t: seq<T>) returns (front: seq<T>, back: seq<T>)
    requires multiset(s + [x]) == multiset(t)
    ensures t == front + ([x] + back)
    ensures multiset(s) == multiset(front + back)
  {
    Middle(s, x, []);
    assert s + ([x] + []) == s + [x] && s + [] == s;
    assert x in multiset(t);
    var j :| 0 <= j < |t| && t[j] == x;
    front, back := t[..j], t[j + 1..];
    assert t == front + ([x] + back);
    Middle(front, x, back);
    assert multiset(s) == multiset(t) - multiset{x};
  }

  /** Reordering a table changes no sum over it. */
  lemma {:induction false} SumByPermutation(s: seq<CallSize>, t: seq<CallSize>, w: CallSize -> nat)
    requires multiset(s) == multiset(t)
    ensures SumBy(s, w) == SumBy(t, w)
    decreases |s|
  {
    if s == [] {
      assert |multiset(t)| == 0;
    } else {
      assert s[..|s| - 1] + [s[|s| - 1]] == s;
      var front, back := TakeOut(s[..|s| - 1], s[|s| - 1], t);
      SumByPermutation(s[..|s| - 1], front + back, w);
      SumByAppend(front, back, w);
      SumByAppend(front, [s[|s| - 1]] + back, w);
      SumByAppend([s[|s| - 1]], back, w);
      assert [s[|s| - 1]][..0] == [];
    }
  }

  lemma {:induction false} SumByAtMost(t: seq<CallSize>, v: CallSize -> nat, w: CallSize -> nat)
    requires forall c :: c in t ==> v(c) <= w(c)
    ensures SumBy(t, v) <= SumBy(t, w)
  {
    if t != [] {
      SumByAtMost(t[..|t| - 1], v, w);
    }
  }

  /** How many of the logged lengths fell in a bin no larger than `limit`. */
  function PutsWithin(log: seq<int>, m: nat, limit: nat): nat {
    if log == [] then 0
    else PutsWithin(log[..|log| - 1], m, limit)
         + if BinSize(m, Index(m, log[|log| - 1])) <= limit then 1 else 0
  }

  /** One more call in one bin moves the sum over the table by that bin's share. */
  lemma {:induction false} SumAfterCall(calls: seq<nat>, minSize: nat, j: nat, limit: nat, k: nat)
    requires |calls| == STEPS && j < STEPS && k <= STEPS
    ensures SumBy(Table(calls[j := calls[j] + 1], minSize)[..k], CallsWithin(limit))
            == SumBy(Table(calls, minSize)[..k], CallsWithin(limit))
               + if j < k && minSize * Pow2(j) <= limit then 1 else 0
  {
    if k > 0 {
      var s, t := Table(calls[j := calls[j] + 1], minSize), Table(calls, minSize);
      assert s[..k][..k - 1] == s[..k - 1] && t[..k][..k - 1] == t[..k - 1];
      SumAfterCall(calls, minSize, j, limit, k - 1);
    }
  }

  lemma {:induction false} SumOfNothing(minSize: nat, limit: nat, k: nat)
    requires k <= STEPS
    ensures SumBy(Table(Tally([], 0), minSize)[..k], CallsWithin(limit)) == 0
  {
    if k > 0 {
      var t := Table(Tally([], 0), minSize);
      assert t[..k][..k - 1] == t[..k - 1];
      SumOfNothing(minSize, limit, k - 1);
    }
  }

  lemma TallyAfterPut(log: seq<int>, m: nat, n: int)
    ensures var j := Index(m, n); Tally(log + [n], m) == Tally(log, m)[j := Tally(log, m)[j] + 1]
  {
    assert (log + [n])[..|log|] == log;
  }

  /** The table counts the lengths that were put: summing bins is counting log entries. */
  lemma {:induction false} TableCountsPuts(log: seq<int>, m: nat, limit: nat)
    ensures SumBy(Table(Tally(log, m), Pow2(m)), CallsWithin(limit)) == PutsWithin(log, m, limit)
  {
    var t := Table(Tally(log, m), Pow2(m));
    assert t == t[..STEPS];
    if log == [] {
      assert Tally(log, m) == Tally([], 0);
      SumOfNothing(Pow2(m), limit, STEPS);
    } else {
      var front, n := log[..|log| - 1], log[|log| - 1];
      assert log == front + [n];
      var j := Index(m, n);
      TallyAfterPut(front, m, n);
      SumAfterCall(Tally(front, m), Pow2(m), j, limit, STEPS);
      Pow2Add(m, j);
      var u := Table(Tally(front, m), Pow2(m));
      assert u == u[..STEPS];
      TableCountsPuts(front, m, limit);
    }
  }

  ghost function Busier(log: seq<int>, m: nat, i: nat, k: nat): set<nat> {
    set j: nat | j < k && Count(log, m, j) > Count(log, m, i)
  }

  /** The calls of the bins called more often than bin `i` are the puts that fell in them. */
  lemma {:induction false} BusierCalls(log: seq<int>, m: nat, i: nat, k: nat)
    requires i < STEPS && k <= STEPS
    ensures SumBy(Table(Tally(log, m), Pow2(m))[..k], CallsAbove(Count(log, m, i)))
            == PutsIn(log, m, Busier(log, m, i, k))
  {
    var t := Table(Tally(log, m), Pow2(m));
    if k == 0 {
      assert Busier(log, m, i, k) == {};
      PutsInNone(log, m);
    } else {
      BusierCalls(log, m, i, k - 1);
      assert t[..k][..k - 1] == t[..k - 1] && t[k - 1].calls == Count(log, m, k - 1);
      if Count(log, m, k - 1) > Count(log, m, i) {
        assert Busier(log, m, i, k) == Busier(log, m, i, k - 1) + {k - 1};
        PutsInOneMore(log, m, Busier(log, m, i, k - 1), k - 1);
      } else {
        assert Busier(log, m, i, k) == Busier(log, m, i, k - 1);
      }
    }
  }

  /** A put that the cut covers fits it, unless it was beyond the last bin. */
  lemma CoveredPutFits(m: nat, n: int, limit: nat)
    requires BinSize(m, Index(m, n)) <= limit
    ensures n <= BinSize(m, STEPS - 1) ==> n <= limit
  {
    IndexIsLeast(m, n);
  }
}
