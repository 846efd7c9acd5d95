/** The instances table and its transactions: `Create` and `DeleteByName` of internal/instances/repo.go. */
module Registry {
  import opened Wrappers
  import opened PortAllocator
  import Names
  import Collections

  /** A row of the table. Rows older than per-instance ports have none; an instance made outside a plan has no plan. */
  datatype Row = Row(owner: int, displayName: string, ports: Option<Range>, plan: Option<int>)

  /** The table, keyed by its UNIQUE name column. */
  type Table = map<string, Row>

  datatype CreateInput = CreateInput(
    owner: int, displayName: string, name: string, ports: int, plan: Option<int>, planStock: Option<int>)

  datatype CreateError = SoldOut | NoPorts(error: AllocError) | DuplicateName | NotReadBack

  function Holders(t: Table): set<string> {
    set name | name in t && t[name].ports.Some?
  }

  /** The ranges the allocator reads: rows without a range are skipped. */
  function StoredRanges(t: Table): set<Range> {
    set name | name in Holders(t) :: t[name].ports.value
  }

  function SoldNames(t: Table, plan: int): set<string> {
    set name | name in t && t[name].plan == Some(plan)
  }

  function Sold(t: Table, plan: int): nat {
    |SoldNames(t, plan)|
  }

  predicate IsSoldOut(t: Table, input: CreateInput) {
    input.plan.Some? && input.planStock.Some? && Sold(t, input.plan.value) >= input.planStock.value
  }

  function PortCount(pool: PortPool, input: CreateInput): int {
    if input.ports <= 0 then pool.portsPerInstance else input.ports
  }

  function RowName(input: CreateInput): string {
    if input.name == "" then Names.PrefixedName(input.owner, input.displayName) else input.name
  }

  function NewRow(input: CreateInput, ports: Range): Row {
    Row(input.owner, input.displayName, Some(ports), input.plan)
  }

  function Without(t: Table, names: set<string>): Table {
    t - names
  }

  function OwnedBy(t: Table, owner: int): set<string> {
    set name | name in t && t[name].owner == owner
  }

  // ---------- one session at a time ----------

  /** What `Create` does to the table, and what it answers, when nothing else runs. After the commit it reads the row
      back; `isReadBack` tells whether that works. If not, it answers an error over a row that stays. */
  ghost predicate Creates(t: Table, pool: PortPool, input: CreateInput, isReadBack: bool,
                          r: Result<Row, CreateError>, t': Table) {
    if IsSoldOut(t, input) then r == Failure(SoldOut) && t' == t
    else exists a ::
      Allocates(StoredRanges(t), pool, PortCount(pool, input), a) && Registers(t, input, a, isReadBack, r, t')
  }

  /** The insert, given the allocator's answer. */
  predicate Registers(t: Table, input: CreateInput, a: Result<Range, AllocError>, isReadBack: bool,
                      r: Result<Row, CreateError>, t': Table) {
    match a
    case Failure(e) => r == Failure(NoPorts(e)) && t' == t
    case Success(ports) =>
      if RowName(input) in t then r == Failure(DuplicateName) && t' == t
      else
        && r == (if isReadBack then Success(NewRow(input, ports)) else Failure(NotReadBack))
        && t' == t[RowName(input) := NewRow(input, ports)]
  }

  class Repo {
    const pool: PortPool
    var table: Table

    constructor (pool: PortPool)
      ensures this.pool == pool && table == map[]
    {
      this.pool, table := pool, map[];
    }

    /** SELECT port_range_start, port_range_end ... WHERE port_range_start IS NOT NULL */
    method SelectRanges() returns (rows: seq<Range>)
      ensures (set u | u in rows) == StoredRanges(table)
    {
      rows := [];
      var left := Holders(table);
      while left != {}
        invariant left <= Holders(table)
        invariant forall name | name in Holders(table) - left :: table[name].ports.value in rows
        invariant forall u | u in rows :: u in StoredRanges(table)
        decreases |left|
      {
        var name :| name in left;
        rows, left := rows + [table[name].ports.value], left - {name};
      }
    }

    method Create(input: CreateInput, isReadBack: bool) returns (r: Result<Row, CreateError>)
      requires WellFormed(StoredRanges(table))
      modifies this`table
      ensures Creates(old(table), pool, input, isReadBack, r, table)
    {
      if IsSoldOut(table, input) {
        return Failure(SoldOut);
      }
      var rows := SelectRanges();
      var a := AllocateRange(rows, pool, PortCount(pool, input));
      if a.Failure? {
        return Failure(NoPorts(a.error));
      }
      var name := RowName(input);
      if name in table {
        return Failure(DuplicateName);
      }
      var row := NewRow(input, a.value);
      table := table[name := row];
      return if isReadBack then Success(row) else Failure(NotReadBack);
    }

    method DeleteByName(name: string)
      modifies this`table
      ensures table == Without(old(table), {name})
      ensures name !in table && forall n | n in old(table) && n != name :: n in table && table[n] == old(table[n])
    {
      table := table - {name};
    }
  }

  // ---------- interleaved sessions ----------

  /** How far a `Create` transaction has come. What it has inserted stays invisible until it commits. */
  datatype Phase = Begun | Locked | InStock | Allocated(ports: Range) | Inserted(ports: Range)

  datatype Tx = Tx(input: CreateInput, phase: Phase)

  /** The committed table, the holder of the advisory lock and the open transactions. */
  datatype State = State(table: Table, holder: Option<int>, txs: map<int, Tx>)

  /** One statement of one session. `DeleteByName` and the cascade of a user's deletion take no lock. A
      transaction may be rolled back at any point. */
  datatype Step =
    | Begin(tx: int, input: CreateInput)
    | Lock(tx: int)
    | CheckStock(tx: int)
    | Allocate(tx: int)
    | Insert(tx: int)
    | Commit(tx: int)
    | Rollback(tx: int)
    | DeleteByName(name: string)
    | DeleteOwner(owner: int)

  /** The statements of a `Create` transaction, as opposed to the deletes. */
  predicate OfTransaction(step: Step) {
    !step.DeleteByName? && !step.DeleteOwner?
  }

  function Advance(s: State, tx: int, phase: Phase): State
    requires tx in s.txs
  {
    s.(txs := s.txs[tx := s.txs[tx].(phase := phase)])
  }

  /** The end of a transaction releases the lock if it holds it. */
  function Close(s: State, tx: int): State {
    s.(txs := s.txs - {tx}, holder := if s.holder == Some(tx) then None else s.holder)
  }

  predicate InPhase(s: State, tx: int, phase: Phase) {
    tx in s.txs && s.txs[tx].phase == phase
  }

  ghost predicate Next(pool: PortPool, s: State, step: Step, s': State) {
    match step
    case Begin(tx, input) => tx !in s.txs && s' == s.(txs := s.txs[tx := Tx(input, Begun)])
    case Lock(tx) => InPhase(s, tx, Begun) && s.holder == None && s' == Advance(s, tx, Locked).(holder := Some(tx))
    case CheckStock(tx) =>
      && InPhase(s, tx, Locked)
      && s' == (if IsSoldOut(s.table, s.txs[tx].input) then Close(s, tx) else Advance(s, tx, InStock))
    case Allocate(tx) =>
      && InPhase(s, tx, InStock)
      && exists a :: Allocates(StoredRanges(s.table), pool, PortCount(pool, s.txs[tx].input), a) &&
           s' == (if a.Success? then Advance(s, tx, Allocated(a.value)) else Close(s, tx))
    case Insert(tx) =>
      && tx in s.txs && s.txs[tx].phase.Allocated?
      && s' == (if RowName(s.txs[tx].input) in s.table then Close(s, tx)
                else Advance(s, tx, Inserted(s.txs[tx].phase.ports)))
    case Commit(tx) =>
      && tx in s.txs && s.txs[tx].phase.Inserted?
      && var input := s.txs[tx].input;
         s' == Close(s, tx).(table := s.table[RowName(input) := NewRow(input, s.txs[tx].phase.ports)])
    case Rollback(tx) => tx in s.txs && s' == Close(s, tx)
    case DeleteByName(name) => s' == s.(table := Without(s.table, {name}))
    case DeleteOwner(owner) => s' == s.(table := Without(s.table, OwnedBy(s.table, owner)))
  }

  /** A run: any number of sessions, their statements interleaved in any way. */
  ghost predicate Run(pool: PortPool, states: seq<State>, steps: seq<Step>) {
    |states| == |steps| + 1 && forall i | 0 <= i < |steps| :: Next(pool, states[i], steps[i], states[i + 1])
  }

  predicate Quiet(s: State) {
    s.txs == map[] && s.holder == None
  }

  // ---------- port safety ----------

  predicate RangeFits(pool: PortPool, t: Table, r: Range) {
    InPool(pool, r) && Free(StoredRanges(t), r)
  }

  /** Committed ranges are non-empty, lie in the pool and are pairwise disjoint. */
  predicate TableSafe(pool: PortPool, t: Table) {
    && (forall name | name in Holders(t) :: InPool(pool, t[name].ports.value))
    && (forall a, b | a in Holders(t) && b in Holders(t) && a != b :: !Meets(t[a].ports.value, t[b].ports.value))
  }

  /** Only the lock's holder is past its first statement; what it has picked still fits the committed table. */
  predicate TxSafe(pool: PortPool, s: State, tx: int)
    requires tx in s.txs
  {
    && (s.txs[tx].phase.Begun? <==> s.holder != Some(tx))
    && (match s.txs[tx].phase
        case Allocated(ports) => RangeFits(pool, s.table, ports)
        case Inserted(ports) => RangeFits(pool, s.table, ports) && RowName(s.txs[tx].input) !in s.table
        case _ => true)
  }

  predicate Safe(pool: PortPool, s: State) {
    && TableSafe(pool, s.table)
    && (forall tx | tx in s.txs :: TxSafe(pool, s, tx))
    && (s.holder.Some? ==> s.holder.value in s.txs)
  }

  lemma SafeTableIsAllocatable(pool: PortPool, t: Table)
    requires TableSafe(pool, t)
    ensures WellFormed(StoredRanges(t)) && StartsByEnd(StoredRanges(t), pool)
  {
  }

  lemma AllocatedRangeFits(pool: PortPool, t: Table, n: int, a: Result<Range, AllocError>)
    requires TableSafe(pool, t) && Allocates(StoredRanges(t), pool, n, a) && a.Success?
    ensures RangeFits(pool, t, a.value) && a.value.last - a.value.first + 1 == n
  {
    SafeTableIsAllocatable(pool, t);
    AllocatesLeftmostInPool(StoredRanges(t), pool, n, a);
  }

  lemma FittingRowKeepsTableSafe(pool: PortPool, t: Table, name: string, row: Row)
    requires TableSafe(pool, t) && name !in t && row.ports.Some? && RangeFits(pool, t, row.ports.value)
    ensures TableSafe(pool, t[name := row])
  {
    var t' := t[name := row];
    forall a, b | a in Holders(t') && b in Holders(t') && a != b
      ensures !Meets(t'[a].ports.value, t'[b].ports.value)
    {
      var other := if a == name then b else a;
      if other != name {
        assert other in Holders(t) ==> t[other].ports.value in StoredRanges(t);
      }
    }
  }

  lemma RemovalKeepsFit(pool: PortPool, t: Table, names: set<string>)
    ensures Holders(Without(t, names)) <= Holders(t) && StoredRanges(Without(t, names)) <= StoredRanges(t)
    ensures TableSafe(pool, t) ==> TableSafe(pool, Without(t, names))
    ensures forall r | RangeFits(pool, t, r) :: RangeFits(pool, Without(t, names), r)
  {
  }

  lemma StepKeepsSafe(pool: PortPool, s: State, step: Step, s': State)
    requires Safe(pool, s) && Next(pool, s, step, s')
    ensures Safe(pool, s')
  {
    match step
    case Allocate(tx) =>
      var a :| Allocates(StoredRanges(s.table), pool, PortCount(pool, s.txs[tx].input), a) &&
               s' == (if a.Success? then Advance(s, tx, Allocated(a.value)) else Close(s, tx));
      if a.Success? {
        AllocatedRangeFits(pool, s.table, PortCount(pool, s.txs[tx].input), a);
      }
    case Commit(tx) =>
      FittingRowKeepsTableSafe(pool, s.table, RowName(s.txs[tx].input), NewRow(s.txs[tx].input, s.txs[tx].phase.ports));
    case DeleteByName(name) => RemovalKeepsFit(pool, s.table, {name});
    case DeleteOwner(owner) => RemovalKeepsFit(pool, s.table, OwnedBy(s.table, owner));
    case _ =>
  }

  /** Port safety of every interleaving: from a safe table, whatever the sessions do, committed ranges stay
      non-empty, inside the pool and pairwise disjoint. */
  lemma {:induction false} RunsAreSafe(pool: PortPool, states: seq<State>, steps: seq<Step>)
    requires Run(pool, states, steps) && Quiet(states[0]) && TableSafe(pool, states[0].table)
    ensures forall s | s in states :: Safe(pool, s)
  {
    if steps == [] {
    } else {
      var n := |steps| - 1;
      RunsAreSafe(pool, states[..n + 1], steps[..n]);
      assert states[n] in states[..n + 1];
      StepKeepsSafe(pool, states[n], steps[n], states[n + 1]);
      assert states == states[..n + 1] + [states[n + 1]];
    }
  }

  lemma RunGoesOn(pool: PortPool, states: seq<State>, steps: seq<Step>, step: Step, s': State)
    requires Run(pool, states, steps) && Next(pool, states[|steps|], step, s')
    ensures Run(pool, states + [s'], steps + [step])
  {
  }

  /** The statements up to the stock check. */
  lemma CreateReachesStockCheck(t: Table, pool: PortPool, input: CreateInput)
    returns (states: seq<State>, steps: seq<Step>)
    ensures Run(pool, states, steps) && forall s | s in steps :: OfTransaction(s)
    ensures states[0] == State(t, None, map[])
    ensures states[|steps|] == State(t, Some(0), map[0 := Tx(input, Locked)])
  {
    var s0 := State(t, None, map[]);
    var s1 := State(t, None, map[0 := Tx(input, Begun)]);
    var s2 := State(t, Some(0), map[0 := Tx(input, Locked)]);
    RunGoesOn(pool, [s0], [], Begin(0, input), s1);
    RunGoesOn(pool, [s0, s1], [Begin(0, input)], Lock(0), s2);
    states, steps := [s0, s1, s2], [Begin(0, input), Lock(0)];
  }

  /** ... up to the allocation, with items left to sell ... */
  lemma CreateReachesAllocation(t: Table, pool: PortPool, input: CreateInput)
    returns (states: seq<State>, steps: seq<Step>)
    requires !IsSoldOut(t, input)
    ensures Run(pool, states, steps) && forall s | s in steps :: OfTransaction(s)
    ensures states[0] == State(t, None, map[])
    ensures states[|steps|] == State(t, Some(0), map[0 := Tx(input, InStock)])
  {
    states, steps := CreateReachesStockCheck(t, pool, input);
    var s := State(t, Some(0), map[0 := Tx(input, InStock)]);
    RunGoesOn(pool, states, steps, CheckStock(0), s);
    states, steps := states + [s], steps + [CheckStock(0)];
  }

  /** ... up to the insert, with a range in hand ... */
  lemma CreateReachesInsert(t: Table, pool: PortPool, input: CreateInput, ports: Range)
    returns (states: seq<State>, steps: seq<Step>)
    requires !IsSoldOut(t, input) && Allocates(StoredRanges(t), pool, PortCount(pool, input), Success(ports))
    ensures Run(pool, states, steps) && forall s | s in steps :: OfTransaction(s)
    ensures states[0] == State(t, None, map[])
    ensures states[|steps|] == State(t, Some(0), map[0 := Tx(input, Allocated(ports))])
  {
    states, steps := CreateReachesAllocation(t, pool, input);
    var s := State(t, Some(0), map[0 := Tx(input, Allocated(ports))]);
    RunGoesOn(pool, states, steps, Allocate(0), s);
    states, steps := states + [s], steps + [Allocate(0)];
  }

  /** ... and up to the commit, with the name free. */
  lemma CreateReachesCommit(t: Table, pool: PortPool, input: CreateInput, ports: Range)
    returns (states: seq<State>, steps: seq<Step>)
    requires !IsSoldOut(t, input) && Allocates(StoredRanges(t), pool, PortCount(pool, input), Success(ports))
    requires RowName(input) !in t
    ensures Run(pool, states, steps) && forall s | s in steps :: OfTransaction(s)
    ensures states[0] == State(t, None, map[])
    ensures states[|steps|] == State(t, Some(0), map[0 := Tx(input, Inserted(ports))])
  {
    states, steps := CreateReachesInsert(t, pool, input, ports);
    var s := State(t, Some(0), map[0 := Tx(input, Inserted(ports))]);
    RunGoesOn(pool, states, steps, Insert(0), s);
    states, steps := states + [s], steps + [Insert(0)];
  }

  /** The session-at-a-time `Create` is one of the interleavings: its statements with nothing between them. */
  lemma CreateIsARun(t: Table, pool: PortPool, input: CreateInput, isReadBack: bool,
                     r: Result<Row, CreateError>, t': Table)
    returns (states: seq<State>, steps: seq<Step>)
    requires Creates(t, pool, input, isReadBack, r, t')
    ensures Run(pool, states, steps) && forall s | s in steps :: OfTransaction(s)
    ensures states[0] == State(t, None, map[]) && states[|steps|] == State(t', None, map[])
  {
    var last := CheckStock(0);
    if IsSoldOut(t, input) {
      states, steps := CreateReachesStockCheck(t, pool, input);
    } else {
      var a :| Allocates(StoredRanges(t), pool, PortCount(pool, input), a) && Registers(t, input, a, isReadBack, r, t');
      if a.Failure? {
        states, steps := CreateReachesAllocation(t, pool, input);
        last := Allocate(0);
      } else if RowName(input) in t {
        states, steps := CreateReachesInsert(t, pool, input, a.value);
        last := Insert(0);
      } else {
        states, steps := CreateReachesCommit(t, pool, input, a.value);
        last := Commit(0);
      }
    }
    RunGoesOn(pool, states, steps, last, State(t', None, map[]));
    states, steps := states + [State(t', None, map[])], steps + [last];
  }

  // ---------- what a creation answers and stores ----------

  /** The ports from `first` on, `n` of them, lie in the pool, and no row holds one of them. */
  predicate FitsAt(t: Table, pool: PortPool, first: int, n: int) {
    && pool.start <= first && first + n - 1 <= pool.end
    && forall name | name in t && t[name].ports.Some? ::
         t[name].ports.value.last < first || first + n - 1 < t[name].ports.value.first
  }

  /** The number of ports asked for, or the default. */
  function PortsAsked(pool: PortPool, input: CreateInput): int {
    if input.ports > 0 then input.ports else pool.portsPerInstance
  }

  lemma FitsAtIff(t: Table, pool: PortPool, first: int, n: int)
    requires n > 0
    ensures FitsAt(t, pool, first, n) <==> InPool(pool, Window(first, n)) && Free(StoredRanges(t), Window(first, n))
  {
    if Free(StoredRanges(t), Window(first, n)) {
      forall name | name in t && t[name].ports.Some?
        ensures t[name].ports.value.last < first || first + n - 1 < t[name].ports.value.first
      {
        assert name in Holders(t) && t[name].ports.value in StoredRanges(t);
      }
    }
  }

  /** A request is sold out exactly when its plan has a stock and that many rows of the plan are stored. */
  lemma SoldOutIff(t: Table, pool: PortPool, input: CreateInput, isReadBack: bool,
                   r: Result<Row, CreateError>, t': Table)
    requires Creates(t, pool, input, isReadBack, r, t')
    ensures r == Failure(SoldOut) <==>
            && input.plan.Some? && input.planStock.Some?
            && |(set name | name in t && t[name].plan == input.plan)| >= input.planStock.value
  {
    if input.plan.Some? {
      assert SoldNames(t, input.plan.value) == set name | name in t && t[name].plan == input.plan;
    }
  }

  /** The name asked for, or the owner's prefixed one. */
  function NameAsked(input: CreateInput): string {
    if input.name != "" then input.name else Names.PrefixedName(input.owner, input.displayName)
  }

  /** Otherwise a request of a positive number of ports is refused for want of ports exactly when they fit nowhere in
      the pool, and for its name exactly when they do and a row has that name. */
  lemma RefusedIff(t: Table, pool: PortPool, input: CreateInput, isReadBack: bool,
                   r: Result<Row, CreateError>, t': Table)
    requires TableSafe(pool, t) && Creates(t, pool, input, isReadBack, r, t') && r != Failure(SoldOut)
    ensures PortsAsked(pool, input) <= 0 ==> r == Failure(NoPorts(BadCount))
    ensures PortsAsked(pool, input) > 0 ==>
              var fits := exists c :: FitsAt(t, pool, c, PortsAsked(pool, input));
              && (r == Failure(NoPorts(PoolEmpty)) <==> !fits)
              && (r == Failure(DuplicateName) <==> fits && NameAsked(input) in t)
              && (t' != t <==> fits && NameAsked(input) !in t)
  {
    var n := PortsAsked(pool, input);
    var a :| Allocates(StoredRanges(t), pool, n, a) && Registers(t, input, a, isReadBack, r, t');
    if n > 0 {
      SafeTableIsAllocatable(pool, t);
      AllocatesLeftmostInPool(StoredRanges(t), pool, n, a);
      forall c ensures FitsAt(t, pool, c, n) <==> InPool(pool, Window(c, n)) && Free(StoredRanges(t), Window(c, n)) {
        FitsAtIff(t, pool, c, n);
      }
    }
  }

  /** A creation that changes the table adds one row, under the name asked for, which was free. The row holds the
      owner, display name and plan asked for, and the lowest ports of the pool that no row held; and the plan has
      sold one item more. */
  lemma CreatedRowIsAsAsked(t: Table, pool: PortPool, input: CreateInput, isReadBack: bool,
                            r: Result<Row, CreateError>, t': Table)
    requires TableSafe(pool, t) && Creates(t, pool, input, isReadBack, r, t') && t' != t
    ensures var name := NameAsked(input);
            && name !in t && name in t' && t' == t[name := t'[name]]
            && t'[name].owner == input.owner && t'[name].displayName == input.displayName
            && t'[name].plan == input.plan && t'[name].ports.Some?
            && HoldsLowest(t, pool, t'[name].ports.value, PortsAsked(pool, input))
            && r == (if isReadBack then Success(t'[name]) else Failure(NotReadBack))
    ensures forall plan :: Sold(t', plan) == Sold(t, plan) + if input.plan == Some(plan) then 1 else 0
  {
    var n := PortsAsked(pool, input);
    var a :| Allocates(StoredRanges(t), pool, n, a) && Registers(t, input, a, isReadBack, r, t');
    SafeTableIsAllocatable(pool, t);
    AllocatesLeftmostInPool(StoredRanges(t), pool, n, a);
    forall c ensures FitsAt(t, pool, c, n) <==> InPool(pool, Window(c, n)) && Free(StoredRanges(t), Window(c, n)) {
      FitsAtIff(t, pool, c, n);
    }
    forall plan ensures Sold(t', plan) == Sold(t, plan) + if input.plan == Some(plan) then 1 else 0 {
      InsertSellsOne(t, RowName(input), NewRow(input, a.value), plan);
    }
  }

  /** `n` ports from the lowest start at which they fit. */
  ghost predicate HoldsLowest(t: Table, pool: PortPool, ports: Range, n: int) {
    && ports.last == ports.first + n - 1 && FitsAt(t, pool, ports.first, n)
    && forall c | c < ports.first :: !FitsAt(t, pool, c, n)
  }

  /** Exactly which errors leave the table alone: all but a failed reading back. That one leaves a row, with its ports
      and its item of the stock, that the caller takes for missing. */
  lemma FailedCreateChangesNothingIff(t: Table, pool: PortPool, input: CreateInput, isReadBack: bool,
                                      r: Result<Row, CreateError>, t': Table)
    requires Creates(t, pool, input, isReadBack, r, t') && r.Failure?
    ensures t' == t <==> r.error != NotReadBack
    ensures r.error == NotReadBack ==>
              && RowName(input) in t' && Without(t', {RowName(input)}) == t
              && exists ports :: t'[RowName(input)] == NewRow(input, ports) &&
                                 Allocates(StoredRanges(t), pool, PortCount(pool, input), Success(ports))
  {
    if r.error == NotReadBack {
      var a :| Allocates(StoredRanges(t), pool, PortCount(pool, input), a) && Registers(t, input, a, isReadBack, r, t');
      assert RowName(input) !in t;
    }
  }

  lemma CreateKeepsTableSafe(t: Table, pool: PortPool, input: CreateInput, isReadBack: bool,
                             r: Result<Row, CreateError>, t': Table)
    requires TableSafe(pool, t) && Creates(t, pool, input, isReadBack, r, t')
    ensures TableSafe(pool, t')
  {
    var states, steps := CreateIsARun(t, pool, input, isReadBack, r, t');
    RunsAreSafe(pool, states, steps);
    assert states[|steps|] in states;
  }

  /** Deletes and rollbacks never wait, whoever holds the lock: a delete of a name or of a user takes away exactly the
      rows of that name or user, a rollback nothing. */
  lemma DeletesNeverWait(pool: PortPool, s: State, name: string, owner: int, tx: int)
    ensures Next(pool, s, DeleteByName(name), s.(table := map n | n in s.table && n != name :: s.table[n]))
    ensures Next(pool, s, DeleteOwner(owner),
                 s.(table := map n | n in s.table && s.table[n].owner != owner :: s.table[n]))
    ensures tx in s.txs ==> exists s' :: Next(pool, s, Rollback(tx), s') && s'.table == s.table && tx !in s'.txs
  {
    assert Without(s.table, {name}) == map n | n in s.table && n != name :: s.table[n];
    assert Without(s.table, OwnedBy(s.table, owner)) == map n | n in s.table && s.table[n].owner != owner :: s.table[n];
    if tx in s.txs {
      assert Next(pool, s, Rollback(tx), Close(s, tx));
    }
  }

  /** A transaction begins at any time, and waits for nothing but the lock: that, exactly while another holds it. */
  lemma OnlyTheLockIsWaitedFor(pool: PortPool, s: State, tx: int, input: CreateInput)
    ensures tx !in s.txs ==> Next(pool, s, Begin(tx, input), s.(txs := s.txs[tx := Tx(input, Begun)]))
    ensures tx in s.txs && s.txs[tx].phase.Begun? ==>
              (s.holder == None <==> exists s' :: Next(pool, s, Lock(tx), s'))
    ensures tx in s.txs && s.txs[tx].phase.Locked? ==> exists s' :: Next(pool, s, CheckStock(tx), s')
    ensures tx in s.txs && s.txs[tx].phase.Allocated? ==> exists s' :: Next(pool, s, Insert(tx), s')
    ensures tx in s.txs && s.txs[tx].phase.Inserted? ==> exists s' :: Next(pool, s, Commit(tx), s')
  {
    if tx in s.txs {
      var t := s.txs[tx];
      match t.phase
      case Begun =>
        if s.holder == None {
          assert Next(pool, s, Lock(tx), Advance(s, tx, Locked).(holder := Some(tx)));
        }
      case Locked =>
        assert Next(pool, s, CheckStock(tx),
                    if IsSoldOut(s.table, t.input) then Close(s, tx) else Advance(s, tx, InStock));
      case Allocated(ports) =>
        assert Next(pool, s, Insert(tx),
                    if RowName(t.input) in s.table then Close(s, tx) else Advance(s, tx, Inserted(ports)));
      case Inserted(ports) =>
        assert Next(pool, s, Commit(tx), Close(s, tx).(table := s.table[RowName(t.input) := NewRow(t.input, ports)]));
      case InStock =>
    }
  }

  // ---------- stock ----------

  /** Every session that sells `plan` read the same stock, which is what "the stock does not change" means here. */
  predicate StockIsFixed(s: State, plan: int, stock: int) {
    forall tx | tx in s.txs && s.txs[tx].input.plan == Some(plan) :: s.txs[tx].input.planStock == Some(stock)
  }

  /** The stock is never oversold, and a transaction past its check still has an item left to sell. */
  predicate StockSafe(s: State, plan: int, stock: int) {
    && Sold(s.table, plan) <= stock
    && (forall tx | tx in s.txs && s.txs[tx].input.plan == Some(plan) ::
          s.txs[tx].phase.Begun? || s.txs[tx].phase.Locked? || Sold(s.table, plan) < stock)
  }

  lemma RemovalSellsNothing(t: Table, names: set<string>, plan: int)
    ensures Sold(Without(t, names), plan) <= Sold(t, plan)
  {
    Collections.SubsetCard(SoldNames(Without(t, names), plan), SoldNames(t, plan));
  }

  lemma InsertSellsOne(t: Table, name: string, row: Row, plan: int)
    requires name !in t
    ensures Sold(t[name := row], plan) == Sold(t, plan) + (if row.plan == Some(plan) then 1 else 0)
  {
    var before, after := SoldNames(t, plan), SoldNames(t[name := row], plan);
    assert name !in before;
    if row.plan == Some(plan) {
      assert after == before + {name};
    } else {
      assert after == before;
    }
  }

  lemma StepKeepsStockSafe(pool: PortPool, s: State, step: Step, s': State, plan: int, stock: int)
    requires Safe(pool, s) && StockIsFixed(s, plan, stock) && StockSafe(s, plan, stock) && Next(pool, s, step, s')
    ensures StockSafe(s', plan, stock)
  {
    match step
    case DeleteByName(name) => RemovalSellsNothing(s.table, {name}, plan);
    case DeleteOwner(owner) => RemovalSellsNothing(s.table, OwnedBy(s.table, owner), plan);
    case Commit(tx) =>
      InsertSellsOne(s.table, RowName(s.txs[tx].input), NewRow(s.txs[tx].input, s.txs[tx].phase.ports), plan);
    case _ => assert s'.table == s.table;
  }

  /** Stock safety of every interleaving: registered instances of a plan never exceed its fixed stock, however
      many sessions passed the unlocked check before. */
  lemma {:induction false} RunsNeverOversell(pool: PortPool, states: seq<State>, steps: seq<Step>,
                                             plan: int, stock: int)
    requires Run(pool, states, steps) && Quiet(states[0]) && TableSafe(pool, states[0].table)
    requires Sold(states[0].table, plan) <= stock
    requires forall s | s in states :: StockIsFixed(s, plan, stock)
    ensures forall s | s in states :: StockSafe(s, plan, stock)
  {
    if steps == [] {
    } else {
      var n := |steps| - 1;
      RunsNeverOversell(pool, states[..n + 1], steps[..n], plan, stock);
      RunsAreSafe(pool, states[..n + 1], steps[..n]);
      assert states[n] in states[..n + 1];
      StepKeepsStockSafe(pool, states[n], steps[n], states[n + 1], plan, stock);
      assert states == states[..n + 1] + [states[n + 1]];
    }
  }
}
