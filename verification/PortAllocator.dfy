/** First-fit allocation of contiguous port ranges: `allocateRangeN` of internal/instances/repo.go. */
module PortAllocator {
  import opened Wrappers
  import Collections
  import Sorting

  /** A closed range of ports, `first..last`. */
  datatype Range = Range(first: int, last: int)

  datatype PortPool = PortPool(start: int, end: int, portsPerInstance: int)

  datatype AllocError = BadCount | PoolEmpty

  function Min(a: int, b: int): int {
    if a < b then a else b
  }

  function Max(a: int, b: int): int {
    if a < b then b else a
  }

  predicate Meets(a: Range, b: Range) {
    a.first <= b.last && b.first <= a.last
  }

  function Window(c: int, n: int): Range {
    Range(c, c + n - 1)
  }

  predicate Free(used: set<Range>, w: Range) {
    forall u | u in used :: !Meets(u, w)
  }

  predicate WellFormed(used: set<Range>) {
    forall u | u in used :: u.first <= u.last
  }

  predicate InPool(pool: PortPool, r: Range) {
    pool.start <= r.first <= r.last <= pool.end
  }

  /** No window of `n` ports that starts in `lo..hi - 1` is free. */
  ghost predicate Blocked(used: set<Range>, lo: int, hi: int, n: int) {
    forall d | lo <= d < hi :: !Free(used, Window(d, n))
  }

  /** `c` starts the leftmost free window of `n` ports at or after `from`, with no upper end in sight. */
  ghost predicate Leftmost(used: set<Range>, from: int, n: int, c: int) {
    from <= c && Free(used, Window(c, n)) && Blocked(used, from, c, n)
  }

  /** What an allocation answers. The leftmost free window is handed out when it ends inside the pool, and
      also, because the scan does not look at the pool's end between two stored ranges, when some stored
      range starts after it. */
  ghost predicate Allocates(used: set<Range>, pool: PortPool, n: int, r: Result<Range, AllocError>) {
    if n <= 0 then r == Failure(BadCount)
    else exists c :: Leftmost(used, pool.start, n, c) && r == Answer(used, pool, Window(c, n))
  }

  function Answer(used: set<Range>, pool: PortPool, w: Range): Result<Range, AllocError> {
    if w.last <= pool.end || exists u | u in used :: w.last < u.first then Success(w) else Failure(PoolEmpty)
  }

  predicate StartsNoLater(a: Range, b: Range) {
    a.first <= b.first
  }

  predicate SortedByFirst(s: seq<Range>) {
    forall i, j | 0 <= i < j < |s| :: StartsNoLater(s[i], s[j])
  }

  /** The scan's invariant: no window that starts before the cursor is free, and a stored range that does not
      end before the cursor still lies ahead. */
  ghost predicate Scanned(stored: set<Range>, ahead: seq<Range>, start: int, cursor: int, n: int) {
    && start <= cursor
    && Blocked(stored, start, cursor, n)
    && SortedByFirst(ahead)
    && (forall u | u in ahead :: u in stored)
    && (forall u | u in stored :: u.last < cursor || u in ahead)
  }

  lemma ScanPasses(stored: set<Range>, ahead: seq<Range>, start: int, cursor: int, n: int)
    requires n > 0 && ahead != [] && ahead[0].first - cursor < n && Scanned(stored, ahead, start, cursor, n)
    ensures Scanned(stored, ahead[1..], start, Max(cursor, ahead[0].last + 1), n)
  {
    var u := ahead[0];
    assert ahead == [u] + ahead[1..];
    forall d | cursor <= d <= u.last ensures !Free(stored, Window(d, n)) {
      assert Meets(u, Window(d, n));
    }
  }

  /** Where the scan stops, the window at the cursor is the leftmost free one: it is handed out before a range
      ahead, and after the last range if the pool still holds it. */
  lemma ScanLands(stored: set<Range>, ahead: seq<Range>, pool: PortPool, cursor: int, n: int)
    requires n > 0 && WellFormed(stored) && Scanned(stored, ahead, pool.start, cursor, n)
    requires ahead == [] || ahead[0].first - cursor >= n
    ensures Allocates(stored, pool, n,
                      if ahead != [] || pool.end - cursor + 1 >= n then Success(Window(cursor, n))
                      else Failure(PoolEmpty))
  {
    assert Leftmost(stored, pool.start, n, cursor);
    if ahead != [] {
      assert ahead[0] in ahead;
    }
  }

  /** sort.Slice by start. */
  method SortByFirst(rows: seq<Range>) returns (used: seq<Range>)
    ensures SortedByFirst(used) && |used| == |rows| && forall u :: u in used <==> u in rows
  {
    used := Sorting.Sorted(StartsNoLater, rows);
    forall i, j | 0 <= i < j < |used| ensures StartsNoLater(used[i], used[j]) {
      Sorting.InOrderAllPairs(StartsNoLater, used, i, j);
    }
  }

  /** The scan, over the stored ranges in whatever order the table yields them. */
  method AllocateRange(rows: seq<Range>, pool: PortPool, n: int) returns (r: Result<Range, AllocError>)
    requires WellFormed(set u | u in rows)
    ensures Allocates((set u | u in rows), pool, n, r)
  {
    if n <= 0 {
      return Failure(BadCount);
    }
    ghost var stored := set u | u in rows;
    var used := SortByFirst(rows);
    var cursor := pool.start;
    for i := 0 to |used|
      invariant Scanned(stored, used[i..], pool.start, cursor, n)
    {
      var u := used[i];
      if u.first - cursor >= n {
        ScanLands(stored, used[i..], pool, cursor, n);
        return Success(Range(cursor, cursor + n - 1));
      }
      ScanPasses(stored, used[i..], pool.start, cursor, n);
      assert used[i..][1..] == used[i + 1..];
      if u.last + 1 > cursor {
        cursor := u.last + 1;
      }
    }
    ScanLands(stored, used[|used|..], pool, cursor, n);
    if pool.end - cursor + 1 >= n {
      return Success(Range(cursor, cursor + n - 1));
    }
    return Failure(PoolEmpty);
  }

  /** The answer depends only on which ranges are stored: not on the order or number of the rows. */
  lemma AllocationIsUnique(used: set<Range>, pool: PortPool, n: int,
                           r1: Result<Range, AllocError>, r2: Result<Range, AllocError>)
    requires Allocates(used, pool, n, r1) && Allocates(used, pool, n, r2)
    ensures r1 == r2
  {
    if n > 0 {
      var c1 :| Leftmost(used, pool.start, n, c1) && r1 == Answer(used, pool, Window(c1, n));
      var c2 :| Leftmost(used, pool.start, n, c2) && r2 == Answer(used, pool, Window(c2, n));
    }
  }

  /** No stored range starts past the port just after the pool. */
  predicate StartsByEnd(used: set<Range>, pool: PortPool) {
    forall u | u in used :: u.first <= pool.end + 1
  }

  /** Soundness, completeness and leftmost choice: while no stored range starts past the pool, an allocation
      succeeds exactly when some window of the pool is free, and then yields the first such window. */
  lemma AllocatesLeftmostInPool(used: set<Range>, pool: PortPool, n: int, r: Result<Range, AllocError>)
    requires n > 0 && StartsByEnd(used, pool) && Allocates(used, pool, n, r)
    ensures r.Success? <==> exists c :: InPool(pool, Window(c, n)) && Free(used, Window(c, n))
    ensures r.Success? ==>
              && r.value.last - r.value.first + 1 == n
              && InPool(pool, r.value)
              && Free(used, r.value)
              && forall d | pool.start <= d < r.value.first :: !Free(used, Window(d, n))
    ensures r.Failure? ==> r.error == PoolEmpty
  {
    var c :| Leftmost(used, pool.start, n, c) && r == Answer(used, pool, Window(c, n));
    if r.Success? {
      assert InPool(pool, Window(c, n));
    } else {
      forall d | InPool(pool, Window(d, n)) ensures !Free(used, Window(d, n)) {
        assert d < c;
      }
    }
  }

  /** Exactly when an allocation leaves the pool: the pool has no free window, but a range is stored beyond
      the first free window that follows. */
  lemma AllocationEscapesPoolIff(used: set<Range>, pool: PortPool, n: int, c: int, r: Result<Range, AllocError>)
    requires n > 0 && Leftmost(used, pool.start, n, c) && Allocates(used, pool, n, r)
    ensures r.Success? && !InPool(pool, r.value) <==> c + n - 1 > pool.end && exists u | u in used :: u.first >= c + n
  {
    AllocationIsUnique(used, pool, n, r, Answer(used, pool, Window(c, n)));
  }

  /** One range stored far above a ten-port pool is enough to push an allocation out of it. */
  lemma AllocationEscapesPoolExample()
    ensures var used := {Range(30000, 30009), Range(50000, 50009)};
            Allocates(used, PortPool(30000, 30009, 10), 10, Success(Range(30010, 30019)))
  {
    var used := {Range(30000, 30009), Range(50000, 50009)};
    assert Range(50000, 50009) in used;
    forall d | 30000 <= d < 30010 ensures !Free(used, Window(d, 10)) {
      assert Meets(Range(30000, 30009), Window(d, 10));
    }
    assert Leftmost(used, 30000, 10, 30010);
    assert Answer(used, PortPool(30000, 30009, 10), Window(30010, 10)) == Success(Range(30010, 30019));
  }

  // ---------- fragmentation ----------

  function Ports(lo: int, hi: int): (s: set<int>)
    ensures forall p :: p in s <==> lo <= p <= hi
    ensures |s| == (if lo <= hi then hi - lo + 1 else 0)
    decreases hi - lo
  {
    if lo > hi then {} else Ports(lo, hi - 1) + {hi}
  }

  /** The ports of `lo..hi` that no stored range holds. */
  function FreePorts(used: set<Range>, lo: int, hi: int): set<int> {
    set p | p in Ports(lo, hi) && forall u | u in used :: !(u.first <= p <= u.last)
  }

  lemma {:induction false} EarliestRange(used: set<Range>) returns (e: Range)
    requires used != {}
    ensures e in used && forall u | u in used :: e.first <= u.first
  {
    var u :| u in used;
    e := u;
    if used != {u} {
      assert used - {u} != {};
      var f := EarliestRange(used - {u});
      e := if f.first < u.first then f else u;
    }
  }

  /** The free ports of a stretch lie before a given range or are free ports of what follows that range. */
  lemma FreePortsSplit(used: set<Range>, u: Range, lo: int, hi: int)
    requires u in used
    ensures |FreePorts(used, lo, hi)|
         <= |Ports(lo, Min(u.first - 1, hi))| + |FreePorts(used - {u}, Max(lo, u.last + 1), hi)|
  {
    var before, after := Ports(lo, Min(u.first - 1, hi)), FreePorts(used - {u}, Max(lo, u.last + 1), hi);
    forall p | p in FreePorts(used, lo, hi) ensures p in before + after {
      assert !(u.first <= p <= u.last);
    }
    Collections.SubsetCard(FreePorts(used, lo, hi), before + after);
    assert |before + after| == |before| + |after| - |before * after|;
  }

  lemma BlockedAfter(used: set<Range>, u: Range, lo: int, hi: int, n: int)
    requires u in used && Blocked(used, lo, hi, n)
    ensures Blocked(used - {u}, Max(lo, u.last + 1), hi, n)
  {
    forall c | Max(lo, u.last + 1) <= c < hi ensures !Free(used - {u}, Window(c, n)) {
      assert !Free(used, Window(c, n));
      var v :| v in used && Meets(v, Window(c, n));
      assert v in used - {u};
    }
  }

  /** One gap of at most `k` ports before each of `m` ranges and one behind them. */
  function Gaps(m: nat, k: nat): nat {
    if m == 0 then k else k + Gaps(m - 1, k)
  }

  lemma {:induction false} GapsAreProduct(m: nat, k: nat)
    ensures Gaps(m, k) == (m + 1) * k
  {
    if m > 0 {
      GapsAreProduct(m - 1, k);
      assert (m + 1) * k == m * k + k;
    }
  }

  /** A stretch of ports with no free window of `n` has fewer than `n` free ports before each stored range and
      after the last. */
  lemma {:induction false} FewFreePorts(used: set<Range>, lo: int, hi: int, n: nat)
    requires n > 0 && WellFormed(used) && Blocked(used, lo, hi - n + 2, n)
    ensures |FreePorts(used, lo, hi)| <= Gaps(|used|, n - 1)
    decreases |used|
  {
    if used == {} {
      assert FreePorts(used, lo, hi) == Ports(lo, hi);
      assert hi - lo + 1 >= n ==> Free(used, Window(lo, n));
    } else {
      var u := EarliestRange(used);
      assert Min(u.first - 1, hi) - lo + 1 >= n ==> Free(used, Window(lo, n));
      FreePortsSplit(used, u, lo, hi);
      BlockedAfter(used, u, lo, hi - n + 2, n);
      FewFreePorts(used - {u}, Max(lo, u.last + 1), hi, n);
      assert |used - {u}| == |used| - 1;
    }
  }

  /** Fragmentation bound: a refusal with `m` ranges stored leaves at most (m + 1) * (n - 1) ports of the pool
      unused. */
  lemma FragmentationBound(used: set<Range>, pool: PortPool, n: int, r: Result<Range, AllocError>)
    requires n > 0 && WellFormed(used) && Allocates(used, pool, n, r) && r.Failure?
    ensures |FreePorts(used, pool.start, pool.end)| <= (|used| + 1) * (n - 1)
  {
    var c :| Leftmost(used, pool.start, n, c) && r == Answer(used, pool, Window(c, n));
    FewFreePorts(used, pool.start, pool.end, n);
    GapsAreProduct(|used|, n - 1);
  }
}
