/** How many instances a pool holds when each takes the same number of ports: first fit never wastes a slot. */
module Capacity {
  import opened Wrappers
  import opened PortAllocator
  import opened Registry
  import Collections

  /** The whole windows of `k` ports that the pool divides into, counted from its start. */
  function Slots(pool: PortPool, k: int): int
    requires k > 0
  {
    (pool.end - pool.start + 1) / k
  }

  function Slot(pool: PortPool, k: int, r: Range): int
    requires k > 0
  {
    (r.first - pool.start) / k
  }

  predicate OnGrid(pool: PortPool, k: int, r: Range)
    requires k > 0
  {
    r == Window(pool.start + Slot(pool, k, r) * k, k)
  }

  predicate GridTable(pool: PortPool, k: int, t: Table)
    requires k > 0
  {
    forall r | r in StoredRanges(t) :: OnGrid(pool, k, r)
  }

  /** Every session asks for `k` ports, by its own count or by the default. */
  predicate Uniform(pool: PortPool, k: int, s: State) {
    forall tx | tx in s.txs :: PortCount(pool, s.txs[tx].input) == k
  }

  predicate GridSafe(pool: PortPool, k: int, s: State)
    requires k > 0
  {
    && GridTable(pool, k, s.table)
    && (forall tx | tx in s.txs ::
          match s.txs[tx].phase
          case Allocated(ports) => OnGrid(pool, k, ports)
          case Inserted(ports) => OnGrid(pool, k, ports)
          case _ => true)
  }

  lemma Distribute(i: int, d: int, k: int)
    ensures (i + d) * k == i * k + d * k
  {
  }

  lemma {:induction false} Multiple(d: nat, k: int)
    requires k > 0
    ensures d * k >= (if d == 0 then 0 else k)
    decreases d
  {
    if d > 0 {
      Multiple(d - 1, k);
      Distribute(d - 1, 1, k);
    }
  }

  lemma NextMultiple(i: int, j: int, k: int)
    requires k > 0
    ensures i < j <==> i * k + k <= j * k
  {
    if i < j {
      Distribute(i, j - i, k);
      Multiple(j - i, k);
    } else {
      Distribute(j, i - j, k);
      Multiple(i - j, k);
    }
  }

  lemma SlotOfWindow(pool: PortPool, k: int, j: int)
    requires k > 0
    ensures Slot(pool, k, Window(pool.start + j * k, k)) == j
    ensures OnGrid(pool, k, Window(pool.start + j * k, k))
  {
    var q := (j * k) / k;
    NextMultiple(q, j, k);
    NextMultiple(j, q, k);
  }

  /** On the grid, different slots do not meet. */
  lemma SlotsDoNotMeet(pool: PortPool, k: int, a: Range, b: Range)
    requires k > 0 && OnGrid(pool, k, a) && OnGrid(pool, k, b)
    ensures Meets(a, b) <==> Slot(pool, k, a) == Slot(pool, k, b)
  {
    var i, j := Slot(pool, k, a), Slot(pool, k, b);
    NextMultiple(i, j, k);
    NextMultiple(j, i, k);
  }

  /** On the grid, a range lies in the pool exactly when its slot is one of the pool's. */
  lemma SlotsOfThePool(pool: PortPool, k: int, a: Range)
    requires k > 0 && OnGrid(pool, k, a)
    ensures InPool(pool, a) <==> 0 <= Slot(pool, k, a) < Slots(pool, k)
  {
    var i, n, size := Slot(pool, k, a), Slots(pool, k), pool.end - pool.start + 1;
    assert n * k <= size < n * k + k;
    NextMultiple(i, n, k);
    NextMultiple(n, i, k);
    NextMultiple(-1, i, k);
    NextMultiple(i, 0, k);
    assert -1 * k == -k && 0 * k == 0;
  }

  /** A leftmost free window starts at the pool's start or right behind a stored range: on the grid either way. */
  lemma LeftmostIsOnGrid(pool: PortPool, k: int, used: set<Range>, c: int)
    requires k > 0 && Leftmost(used, pool.start, k, c)
    requires forall r | r in used :: OnGrid(pool, k, r)
    ensures OnGrid(pool, k, Window(c, k))
  {
    if c == pool.start {
      SlotOfWindow(pool, k, 0);
    } else {
      assert !Free(used, Window(c - 1, k));
      var u :| u in used && Meets(u, Window(c - 1, k));
      assert !Meets(u, Window(c, k));
      var j := Slot(pool, k, u);
      Distribute(j, 1, k);
      SlotOfWindow(pool, k, j + 1);
    }
  }

  lemma AllocationIsOnGrid(pool: PortPool, k: int, t: Table, a: Result<Range, AllocError>)
    requires k > 0 && GridTable(pool, k, t) && Allocates(StoredRanges(t), pool, k, a) && a.Success?
    ensures OnGrid(pool, k, a.value)
  {
    var c :| Leftmost(StoredRanges(t), pool.start, k, c) && a == Answer(StoredRanges(t), pool, Window(c, k));
    LeftmostIsOnGrid(pool, k, StoredRanges(t), c);
  }

  lemma {:induction false} InjectiveMapValues(m: map<string, int>)
    requires forall a, b | a in m && b in m && a != b :: m[a] != m[b]
    ensures |m.Values| == |m|
  {
    if m == map[] {
      assert m.Values == {};
    } else {
      var a :| a in m;
      InjectiveMapValues(m - {a});
      assert m.Values == (m - {a}).Values + {m[a]};
      assert |m.Keys| == |m| && (m - {a}).Keys == m.Keys - {a};
    }
  }

  function TakenSlots(pool: PortPool, k: int, t: Table): map<string, int>
    requires k > 0
  {
    map name | name in Holders(t) :: Slot(pool, k, t[name].ports.value)
  }

  lemma TakenSlotsCount(pool: PortPool, k: int, t: Table)
    requires k > 0 && TableSafe(pool, t) && GridTable(pool, k, t)
    ensures TakenSlots(pool, k, t).Values <= Ports(0, Slots(pool, k) - 1)
    ensures |TakenSlots(pool, k, t).Values| == |Holders(t)|
  {
    var taken := TakenSlots(pool, k, t);
    forall a, b | a in taken && b in taken
      ensures a != b ==> taken[a] != taken[b]
      ensures taken[a] in Ports(0, Slots(pool, k) - 1)
    {
      assert t[a].ports.value in StoredRanges(t) && t[b].ports.value in StoredRanges(t);
      SlotsDoNotMeet(pool, k, t[a].ports.value, t[b].ports.value);
      SlotsOfThePool(pool, k, t[a].ports.value);
    }
    InjectiveMapValues(taken);
    assert taken.Keys == Holders(t) && |taken.Keys| == |taken|;
  }

  /** A slot that no instance has taken is free, and a free window of the pool on the grid is such a slot. */
  lemma UntakenSlotIsFree(pool: PortPool, k: int, t: Table, w: Range)
    requires k > 0 && GridTable(pool, k, t) && OnGrid(pool, k, w)
    ensures Free(StoredRanges(t), w) <==> Slot(pool, k, w) !in TakenSlots(pool, k, t).Values
  {
    forall u | u in StoredRanges(t) ensures Meets(u, w) <==> Slot(pool, k, u) == Slot(pool, k, w) {
      SlotsDoNotMeet(pool, k, u, w);
    }
    var taken := TakenSlots(pool, k, t);
    if Slot(pool, k, w) in taken.Values {
      var name :| name in taken && taken[name] == Slot(pool, k, w);
      assert t[name].ports.value in StoredRanges(t);
    } else {
      forall u | u in StoredRanges(t) ensures !Meets(u, w) {
        var name :| name in Holders(t) && t[name].ports.value == u;
        assert taken[name] in taken.Values;
      }
    }
  }

  /** With every range on the grid, an allocation succeeds exactly while fewer instances hold ports than the pool has
      slots. */
  lemma CapacityIsExact(pool: PortPool, k: int, t: Table, a: Result<Range, AllocError>)
    requires k > 0 && TableSafe(pool, t) && GridTable(pool, k, t) && Allocates(StoredRanges(t), pool, k, a)
    ensures a.Success? <==> |Holders(t)| < Slots(pool, k)
  {
    var n := Slots(pool, k);
    var taken := TakenSlots(pool, k, t).Values;
    TakenSlotsCount(pool, k, t);
    SafeTableIsAllocatable(pool, t);
    AllocatesLeftmostInPool(StoredRanges(t), pool, k, a);
    if a.Success? {
      AllocationIsOnGrid(pool, k, t, a);
      SlotsOfThePool(pool, k, a.value);
      UntakenSlotIsFree(pool, k, t, a.value);
      Collections.SubsetCard(taken + {Slot(pool, k, a.value)}, Ports(0, n - 1));
    }
    if |Holders(t)| < n {
      assert Ports(0, n - 1) - taken != {} by {
        if Ports(0, n - 1) <= taken {
          Collections.SubsetCard(Ports(0, n - 1), taken);
        }
      }
      var j :| j in Ports(0, n - 1) - taken;
      var w := Window(pool.start + j * k, k);
      SlotOfWindow(pool, k, j);
      SlotsOfThePool(pool, k, w);
      UntakenSlotIsFree(pool, k, t, w);
    }
  }

  lemma StepKeepsGrid(pool: PortPool, k: int, s: State, step: Step, s': State)
    requires k > 0 && Uniform(pool, k, s) && GridSafe(pool, k, s) && Next(pool, s, step, s')
    ensures GridSafe(pool, k, s')
  {
    match step
    case Allocate(tx) =>
      var a :| Allocates(StoredRanges(s.table), pool, k, a) &&
               s' == (if a.Success? then Advance(s, tx, Allocated(a.value)) else Close(s, tx));
      if a.Success? {
        AllocationIsOnGrid(pool, k, s.table, a);
      }
    case Commit(tx) =>
      assert StoredRanges(s'.table) <= StoredRanges(s.table) + {s.txs[tx].phase.ports};
    case DeleteByName(name) => RemovalKeepsFit(pool, s.table, {name});
    case DeleteOwner(owner) => RemovalKeepsFit(pool, s.table, OwnedBy(s.table, owner));
    case _ =>
  }

  /** Capacity of every run: whatever instances come and go, in whatever interleaving, ranges stay on the grid
      and an allocation succeeds exactly while fewer than `Slots` instances are registered. */
  lemma {:induction false} CapacityInEveryRun(pool: PortPool, k: int, states: seq<State>, steps: seq<Step>)
    requires k > 0 && Run(pool, states, steps) && Quiet(states[0]) && states[0].table == map[]
    requires forall s | s in states :: Uniform(pool, k, s)
    ensures forall s | s in states :: GridSafe(pool, k, s)
    ensures forall s, a | s in states && Allocates(StoredRanges(s.table), pool, k, a) ::
              a.Success? <==> |Holders(s.table)| < Slots(pool, k)
  {
    RunsAreSafe(pool, states, steps);
    if steps == [] {
    } else {
      var n := |steps| - 1;
      CapacityInEveryRun(pool, k, states[..n + 1], steps[..n]);
      assert states[n] in states[..n + 1];
      StepKeepsGrid(pool, k, states[n], steps[n], states[n + 1]);
      assert states == states[..n + 1] + [states[n + 1]];
    }
    forall s, a | s in states && Allocates(StoredRanges(s.table), pool, k, a)
      ensures a.Success? <==> |Holders(s.table)| < Slots(pool, k)
    {
      CapacityIsExact(pool, k, s.table, a);
    }
  }
}
