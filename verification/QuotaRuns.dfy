/** What holds of one instance's quota over every run of traffic, stops, polls, settings and resets. */
module QuotaRuns {
  import opened Wrappers
  import opened Quota

  /** What an observer counts in one direction: the bytes carried, the counter values at the moments they were
      wiped, and those moments. */
  datatype Meter = Meter(carried: int, wiped: int, wipes: int)

  /** One direction of traffic. `total` counts since the reading of the baseline, where the counter was `first`
      (before there is a baseline: since the quota was created); `read` is `total` at the reading of the last
      committed poll. `recorded` are the bytes that polls have added, `zero` is what had been carried at the last
      reading when the usage was last set back to 0, and `kept` what has been added since then. */
  datatype Flow = Flow(first: int, total: Meter, read: Meter, recorded: int, zero: int, kept: int)

  /** What a poll has read of the counters and the clock, with the observer's meters at that moment. */
  datatype Reading = Reading(rx: nat, tx: nat, now: Time, rxMeter: Meter, txMeter: Meter)

  /** A quota row, the instance's counters, the clock, the reading of the poll under way, and the observer's notes.
      `zeroed` is the usage that resets and rollovers have set back to 0. A clear is a reset, a rollover, a raised
      limit or a new action. `unrecorded` counts the actions fired by polls whose update was not committed. */
  datatype World = World(
    q: Quota, rx: nat, tx: nat, clock: Time, reading: Option<Reading>,
    rxFlow: Flow, txFlow: Flow, zeroed: int,
    fired: nat, firedSinceClear: nat, unrecorded: nat, clears: nat)

  /** A poll is two events, the reading of counters and clock and the update of the row; anything may happen in
      between. */
  datatype Event =
    | Traffic(rx: nat, tx: nat)
    | Wipe                               // the instance stops and its counters go back to 0
    | Sample(now: Time)
    | Poll(commits: bool)
    | Set(setting: Setting, now: Time)
    | Reset(now: Time)

  predicate CanHappen(w: World, e: Event) {
    match e
    case Poll(_) => w.reading.Some?
    case Sample(now) => AtMost(w.clock, now)
    case Set(_, now) => AtMost(w.clock, now)
    case Reset(now) => AtMost(w.clock, now)
    case _ => true
  }

  predicate Baselined(w: World) {
    w.q.lastPollAt.Some?
  }

  const Nothing := Meter(0, 0, 0)

  function Carry(f: Flow, bytes: nat): Flow {
    f.(total := f.total.(carried := f.total.carried + bytes))
  }

  function Lose(f: Flow, counter: nat): Flow {
    f.(total := f.total.(wiped := f.total.wiped + counter, wipes := f.total.wipes + 1))
  }

  function Zero(f: Flow): Flow {
    f.(zero := f.read.carried, kept := 0)
  }

  /** The flow as it was at a reading. */
  function At(f: Flow, m: Meter): Flow {
    f.(total := m)
  }

  /** The flow that starts at a reading. */
  function Since(f: Flow, m: Meter, counter: nat): Flow {
    var total := Meter(f.total.carried - m.carried, f.total.wiped - m.wiped, f.total.wipes - m.wipes);
    Flow(counter, total, Nothing, 0, 0, 0)
  }

  /** A committed poll seen by the observer: the baseline, or an addition after a possible rollover. */
  function Measured(f: Flow, m: Meter, last: int, counter: nat, baselined: bool, rolls: bool): Flow {
    if !baselined then Since(f, m, counter) else
    var g := if rolls then Zero(f) else f;
    g.(recorded := g.recorded + Delta(last, counter), read := m, kept := g.kept + Delta(last, counter))
  }

  /** The update of the poll under way fires the action, or sets the usage back to 0. */
  predicate FiresNow(w: World)
    requires w.reading.Some?
  {
    Fires(w.q, w.reading.value.rx, w.reading.value.tx, w.reading.value.now)
  }

  predicate RollsOverNow(w: World)
    requires w.reading.Some?
  {
    RollsOver(w.q, w.reading.value.now)
  }

  function Cleared(w: World): World {
    w.(clears := w.clears + 1, firedSinceClear := 0)
  }

  function AfterPoll(w: World, commits: bool): World
    requires w.reading.Some?
  {
    var r, rolls, shots := w.reading.value, RollsOverNow(w), if FiresNow(w) then 1 else 0;
    if !commits then w.(reading := None, fired := w.fired + shots, unrecorded := w.unrecorded + shots) else
    var v := if rolls then Cleared(w).(zeroed := w.zeroed + w.q.used) else w;
    v.(q := Polled(w.q, r.rx, r.tx, r.now), reading := None,
       rxFlow := Measured(w.rxFlow, r.rxMeter, w.q.lastRx, r.rx, Baselined(w), rolls),
       txFlow := Measured(w.txFlow, r.txMeter, w.q.lastTx, r.tx, Baselined(w), rolls),
       fired := v.fired + shots, firedSinceClear := v.firedSinceClear + shots)
  }

  function After(w: World, e: Event): World
    requires CanHappen(w, e)
  {
    match e
    case Traffic(rx, tx) =>
      w.(rx := w.rx + rx, tx := w.tx + tx, rxFlow := Carry(w.rxFlow, rx), txFlow := Carry(w.txFlow, tx))
    case Wipe => w.(rx := 0, tx := 0, rxFlow := Lose(w.rxFlow, w.rx), txFlow := Lose(w.txFlow, w.tx))
    case Sample(now) => w.(clock := now, reading := Some(Reading(w.rx, w.tx, now, w.rxFlow.total, w.txFlow.total)))
    case Poll(commits) => AfterPoll(w, commits)
    case Set(s, now) =>
      var v := if ClearsLatch(w.q, s) then Cleared(w) else w;
      v.(q := Written(w.q, w.q, s, now), clock := now)
    case Reset(now) =>
      Cleared(w).(q := WasReset(w.q, now), clock := now, zeroed := w.zeroed + w.q.used,
                  rxFlow := Zero(w.rxFlow), txFlow := Zero(w.txFlow))
  }

  /** A quota has just been created for an instance that may have carried traffic before. */
  predicate Start(w: World) {
    var unread := Flow(0, Nothing, Nothing, 0, 0, 0);
    w == World(NewQuota(Setting(w.q.limit, w.q.period, w.q.action), w.clock), w.rx, w.tx, w.clock, None,
               unread, unread, 0, 0, 0, 0, 0)
  }

  ghost predicate Run(worlds: seq<World>, events: seq<Event>) {
    && |worlds| == |events| + 1
    && Start(worlds[0])
    && forall i | 0 <= i < |events| ::
         CanHappen(worlds[i], events[i]) && worlds[i + 1] == After(worlds[i], events[i])
  }

  /** Anything may fall between the reading and the update of a poll, another reading and a wipe included; only the
      clock must not go back. */
  lemma AnythingMayFallBetween(w: World, e: Event)
    requires w.reading.Some?
    requires match e case Sample(now) => AtMost(w.clock, now) case Set(_, now) => AtMost(w.clock, now)
                     case Reset(now) => AtMost(w.clock, now) case _ => true
    ensures CanHappen(w, e)
    ensures !e.Sample? && !e.Poll? ==> After(w, e).reading == w.reading
  {
  }

  // ---------- traffic accounting ----------

  /** What a poll that reads `counter` would add is covered both by the bytes of one direction not recorded yet and
      by the bytes carried since the last reading. The bytes missing from the record are at most what the counter
      has moved plus what wiping has hidden; up to the last reading, at most what wiping had hidden by then; and
      with nothing wiped until then, recording telescopes. */
  predicate FlowOk(f: Flow, last: int, counter: nat) {
    var missing, unread := f.total.carried - f.recorded, f.total.carried - f.read.carried;
    && 0 <= last && 0 <= f.read.wipes <= f.total.wipes
    && missing <= f.total.wiped + counter - last
    && (counter <= missing || 0 <= counter - last <= missing)
    && (counter <= unread || 0 <= counter - last <= unread)
    && 0 <= f.read.carried - f.recorded <= f.read.wiped
    && 0 <= f.kept <= f.read.carried - f.zero
    && (f.read.wipes == 0 ==> f.recorded == last - f.first == f.read.carried)
    && (f.total.wipes == 0 ==> f.total.wiped == 0 && last <= counter && f.total.carried == counter - f.first)
  }

  /** A flow and a reading of it: the flow was in order at the reading, and so is what came since. */
  predicate ReadingOk(f: Flow, m: Meter, last: int, read: nat, counter: nat, baselined: bool) {
    (baselined ==> FlowOk(At(f, m), last, read)) && FlowOk(Since(f, m, read), read, counter)
  }

  predicate NotRead(f: Flow) {
    f == Flow(0, f.total, Nothing, 0, 0, 0) && 0 <= f.total.carried
  }

  /** The poll under way, if there is one, has read flows in order. */
  predicate ReadInOrder(w: World) {
    w.reading.Some? ==>
      var r := w.reading.value;
      && ReadingOk(w.rxFlow, r.rxMeter, w.q.lastRx, r.rx, w.rx, Baselined(w))
      && ReadingOk(w.txFlow, r.txMeter, w.q.lastTx, r.tx, w.tx, Baselined(w))
  }

  predicate Counted(w: World) {
    && 0 <= w.q.used && 0 <= w.q.lastRx && 0 <= w.q.lastTx
    && (!Baselined(w) ==> w.q.used == w.zeroed == 0 && NotRead(w.rxFlow) && NotRead(w.txFlow))
    && (Baselined(w) ==>
          && FlowOk(w.rxFlow, w.q.lastRx, w.rx)
          && FlowOk(w.txFlow, w.q.lastTx, w.tx)
          && w.q.used + w.zeroed == w.rxFlow.recorded + w.txFlow.recorded
          && w.q.used == w.rxFlow.kept + w.txFlow.kept)
  }

  predicate Accounted(w: World) {
    Counted(w) && ReadInOrder(w)
  }

  lemma TrafficAndWipeKeepFlowOk(f: Flow, last: int, counter: nat, bytes: nat)
    requires FlowOk(f, last, counter)
    ensures FlowOk(Carry(f, bytes), last, counter + bytes)
    ensures FlowOk(Lose(f, counter), last, 0)
    ensures FlowOk(Zero(f), last, counter)
  {
  }

  /** A poll whose reading is in order leaves a flow in order, however much has happened since the reading; up to
      the reading, the shortfall is between 0 and what wiping had hidden by then. */
  lemma PollSettlesFlow(f: Flow, m: Meter, last: int, read: nat, counter: nat, baselined: bool, rolls: bool)
    requires ReadingOk(f, m, last, read, counter, baselined)
    ensures var f' := Measured(f, m, last, read, baselined, rolls);
            && FlowOk(f', read, counter)
            && f'.read == (if baselined then m else Nothing)
            && 0 <= f'.read.carried - f'.recorded <= f'.read.wiped
            && f'.recorded == (if baselined then f.recorded + Delta(last, read) else 0)
            && f'.kept == (if baselined then (if rolls then 0 else f.kept) + Delta(last, read) else 0)
  {
  }

  lemma FlowEventsKeepReadingOk(f: Flow, m: Meter, last: int, read: nat, counter: nat, baselined: bool, bytes: nat)
    requires ReadingOk(f, m, last, read, counter, baselined)
    ensures ReadingOk(Carry(f, bytes), m, last, read, counter + bytes, baselined)
    ensures ReadingOk(Lose(f, counter), m, last, read, 0, baselined)
    ensures ReadingOk(Zero(f), m, last, read, counter, baselined)
  {
    TrafficAndWipeKeepFlowOk(Since(f, m, read), read, counter, bytes);
    if baselined {
      TrafficAndWipeKeepFlowOk(At(f, m), last, read, 0);
    }
  }

  lemma FlowEventsKeepReadInOrder(w: World, e: Event)
    requires ReadInOrder(w) && CanHappen(w, e) && (e.Traffic? || e.Wipe? || e.Reset?)
    ensures ReadInOrder(After(w, e))
  {
    if w.reading.Some? {
      var r, rx, tx := w.reading.value, if e.Traffic? then e.rx else 0, if e.Traffic? then e.tx else 0;
      FlowEventsKeepReadingOk(w.rxFlow, r.rxMeter, w.q.lastRx, r.rx, w.rx, Baselined(w), rx);
      FlowEventsKeepReadingOk(w.txFlow, r.txMeter, w.q.lastTx, r.tx, w.tx, Baselined(w), tx);
    }
  }

  lemma FlowEventsKeepCounted(w: World, e: Event)
    requires Counted(w) && CanHappen(w, e) && (e.Traffic? || e.Wipe? || e.Reset?)
    ensures Counted(After(w, e))
  {
    if Baselined(w) {
      var rx, tx := if e.Traffic? then e.rx else 0, if e.Traffic? then e.tx else 0;
      TrafficAndWipeKeepFlowOk(w.rxFlow, w.q.lastRx, w.rx, rx);
      TrafficAndWipeKeepFlowOk(w.txFlow, w.q.lastTx, w.tx, tx);
    }
  }

  lemma SampleIsInOrder(f: Flow, last: int, counter: nat, baselined: bool)
    requires baselined ==> FlowOk(f, last, counter)
    ensures ReadingOk(f, f.total, last, counter, counter, baselined)
  {
    assert At(f, f.total) == f;
  }

  lemma SampleKeepsAccounted(w: World, now: Time)
    requires Accounted(w) && AtMost(w.clock, now)
    ensures Accounted(After(w, Sample(now)))
  {
    SampleIsInOrder(w.rxFlow, w.q.lastRx, w.rx, Baselined(w));
    SampleIsInOrder(w.txFlow, w.q.lastTx, w.tx, Baselined(w));
  }

  lemma PollKeepsAccounted(w: World)
    requires Accounted(w) && w.reading.Some?
    ensures Accounted(After(w, Poll(true)))
  {
    var r, rolls := w.reading.value, RollsOverNow(w);
    PollSettlesFlow(w.rxFlow, r.rxMeter, w.q.lastRx, r.rx, w.rx, Baselined(w), rolls);
    PollSettlesFlow(w.txFlow, r.txMeter, w.q.lastTx, r.tx, w.tx, Baselined(w), rolls);
  }

  lemma OtherEventsKeepAccounted(w: World, e: Event)
    requires Accounted(w) && CanHappen(w, e) && (e.Set? || e == Poll(false))
    ensures Accounted(After(w, e))
  {
  }

  lemma EventKeepsAccounted(w: World, e: Event)
    requires Accounted(w) && CanHappen(w, e)
    ensures Accounted(After(w, e))
  {
    match e
    case Poll(commits) =>
      if commits {
        PollKeepsAccounted(w);
      } else {
        OtherEventsKeepAccounted(w, e);
      }
    case Sample(now) => SampleKeepsAccounted(w, now);
    case Set(_, _) => OtherEventsKeepAccounted(w, e);
    case _ =>
      FlowEventsKeepCounted(w, e);
      FlowEventsKeepReadInOrder(w, e);
  }

  // ---------- the latch ----------

  predicate Latched(w: World) {
    && w.firedSinceClear == (if w.q.triggered then 1 else 0)
    && w.fired <= w.clears + w.firedSinceClear + w.unrecorded
    && (w.q.triggered ==> w.q.used >= w.q.limit)
    && AtMost(w.q.lastResetAt, w.clock)
    && (w.reading.Some? ==> AtMost(w.reading.value.now, w.clock))
  }

  lemma EventKeepsLatched(w: World, e: Event)
    requires 0 <= w.q.lastRx && 0 <= w.q.lastTx && Latched(w) && CanHappen(w, e)
    ensures Latched(After(w, e))
  {
  }

  lemma {:induction false} RunsAreSound(worlds: seq<World>, events: seq<Event>, i: nat)
    requires Run(worlds, events) && i < |worlds|
    ensures Accounted(worlds[i]) && Latched(worlds[i])
  {
    if i > 0 {
      RunsAreSound(worlds, events, i - 1);
      EventKeepsAccounted(worlds[i - 1], events[i - 1]);
      EventKeepsLatched(worlds[i - 1], events[i - 1]);
      assert worlds[i] == After(worlds[i - 1], events[i - 1]);
    }
  }

  /** Accounting at every moment of every run since the baseline: what polls recorded, whether still counted or set
      back to 0 since, never exceeds the bytes carried up to the last reading. The shortfall is at most the counter
      values at the moments they were wiped until then, and without a wipe until then the record is the last
      reading minus the first. */
  lemma UsageIsSandwiched(worlds: seq<World>, events: seq<Event>, i: nat)
    requires Run(worlds, events) && i < |worlds| && Baselined(worlds[i])
    ensures var w := worlds[i];
            var rx, tx, recorded := w.rxFlow, w.txFlow, w.q.used + w.zeroed;
            && recorded <= rx.read.carried + tx.read.carried <= recorded + rx.read.wiped + tx.read.wiped
            && (rx.read.wipes == tx.read.wipes == 0 ==>
                  recorded == (w.q.lastRx + w.q.lastTx) - (rx.first + tx.first) == rx.read.carried + tx.read.carried)
  {
    RunsAreSound(worlds, events, i);
  }

  /** At every moment the usage is at most the bytes carried since the last reading before it was last set back to 0,
      and so at most the bytes carried since the baseline. */
  lemma UsageNeverExceedsTraffic(worlds: seq<World>, events: seq<Event>, i: nat)
    requires Run(worlds, events) && i < |worlds|
    ensures var w := worlds[i];
            var rx, tx := w.rxFlow, w.txFlow;
            && 0 <= w.q.used <= (rx.total.carried - rx.zero) + (tx.total.carried - tx.zero)
            && w.q.used + w.zeroed <= rx.total.carried + tx.total.carried
  {
    RunsAreSound(worlds, events, i);
  }

  /** The latch over every run: it is closed exactly while one recorded action has fired since the last clear, so
      actions outnumber clears by at most one and those of uncommitted polls; a closed latch means the limit is
      reached; and a committed poll leaves no reached limit with the latch open. */
  lemma ActionFiresOncePerClear(worlds: seq<World>, events: seq<Event>, i: nat)
    requires Run(worlds, events) && i < |worlds|
    ensures var w := worlds[i];
            && (w.q.triggered <==> w.firedSinceClear == 1) && w.firedSinceClear <= 1
            && w.fired <= 1 + w.clears + w.unrecorded
            && (w.q.triggered ==> w.q.used >= w.q.limit)
            && (0 < i && events[i - 1] == Poll(true) && 0 < w.q.limit <= w.q.used ==> w.q.triggered)
  {
    RunsAreSound(worlds, events, i);
    if 0 < i {
      assert worlds[i] == After(worlds[i - 1], events[i - 1]);
    }
  }

  /** The poll at `i`, under way in a run, fires the action. */
  predicate FiresAt(worlds: seq<World>, events: seq<Event>, i: nat)
    requires i < |worlds| && i < |events|
  {
    events[i].Poll? && worlds[i].reading.Some? && FiresNow(worlds[i])
  }

  /** Every action of a run is recorded exactly when every poll that fires is committed. */
  lemma {:induction false} ActionsAreRecordedIff(worlds: seq<World>, events: seq<Event>, n: nat)
    requires Run(worlds, events) && n < |worlds|
    ensures worlds[n].unrecorded == 0 <==> forall i | 0 <= i < n && FiresAt(worlds, events, i) :: events[i].commits
  {
    if n == 0 {
    } else {
      ActionsAreRecordedIff(worlds, events, n - 1);
      assert worlds[n] == After(worlds[n - 1], events[n - 1]);
      assert worlds[n].unrecorded ==
             worlds[n - 1].unrecorded + if FiresAt(worlds, events, n - 1) && !events[n - 1].commits then 1 else 0;
    }
  }

  /** The events that leave the row alone. */
  predicate LeavesRow(e: Event) {
    e.Traffic? || e.Wipe? || e.Sample? || e == Poll(false)
  }

  lemma {:induction false} RowStays(worlds: seq<World>, events: seq<Event>, i: nat, j: nat)
    requires Run(worlds, events) && i <= j < |worlds|
    requires forall k | i <= k < j :: LeavesRow(events[k])
    ensures worlds[j].q == worlds[i].q
    decreases j
  {
    if i < j {
      RowStays(worlds, events, i, j - 1);
      assert worlds[j] == After(worlds[j - 1], events[j - 1]);
    }
  }

  /** Exactly when an action fires a second time while nobody touches the row: the update of the first poll was not
      committed, and what the second poll reads still reaches the limit (counters wiped in between may not). */
  lemma FiresAgainIff(worlds: seq<World>, events: seq<Event>, i: nat, j: nat)
    requires Run(worlds, events) && i < j < |events| && FiresAt(worlds, events, i) && events[j].Poll?
    requires forall k | i < k < j :: LeavesRow(events[k])
    requires worlds[j].reading.Some? && SameMonth(worlds[i].reading.value.now, worlds[j].reading.value.now)
    ensures var q, r := worlds[i].q, worlds[j].reading.value;
            FiresAt(worlds, events, j) <==> !events[i].commits && q.limit <= UsedAfterPoll(q, r.rx, r.tx, r.now)
  {
    RowStays(worlds, events, i + 1, j);
    assert worlds[i + 1] == After(worlds[i], events[i]);
  }

  /** A limit of 0 or less is no limit: no poll fires over it. */
  lemma NoLimitNeverFires(worlds: seq<World>, events: seq<Event>, i: nat)
    requires Run(worlds, events) && i < |events| && events[i].Poll? && worlds[i].q.limit <= 0
    ensures worlds[i + 1].fired == worlds[i].fired && !FiresAt(worlds, events, i)
    ensures worlds[i + 1].q.triggered ==> worlds[i].q.triggered
  {
    assert worlds[i + 1] == After(worlds[i], events[i]);
  }

  /** A setting opens a closed latch exactly when it raises the limit or changes the action; it never closes one, and
      leaves the usage and the readings alone. */
  lemma SetOpensLatchIff(worlds: seq<World>, events: seq<Event>, i: nat)
    requires Run(worlds, events) && i < |events| && events[i].Set?
    ensures var w, w', s := worlds[i], worlds[i + 1], events[i].setting;
            && (w'.q.triggered <==> w.q.triggered && s.limit <= w.q.limit && s.action == w.q.action)
            && w'.clears == w.clears + (if s.limit > w.q.limit || s.action != w.q.action then 1 else 0)
            && w'.q.used == w.q.used && w'.q.lastRx == w.q.lastRx && w'.q.lastTx == w.q.lastTx
            && w'.q.limit == s.limit && w'.q.period == s.period && w'.q.action == s.action
  {
    assert worlds[i + 1] == After(worlds[i], events[i]);
  }

  /** The event at `i` is a clear. */
  predicate ClearsAt(worlds: seq<World>, events: seq<Event>, i: nat)
    requires i < |worlds| && i < |events|
  {
    match events[i]
    case Reset(_) => true
    case Set(s, _) => s.limit > worlds[i].q.limit || s.action != worlds[i].q.action
    case Poll(commits) =>
      && commits && worlds[i].reading.Some? && worlds[i].q.period == Monthly
      && var t, now := worlds[i].q.lastResetAt, worlds[i].reading.value.now;
         t.year != now.year || t.month != now.month
    case _ => false
  }

  function Firings(worlds: seq<World>, events: seq<Event>, n: nat): set<nat>
    requires n <= |worlds| && n <= |events|
  {
    set i: nat | i < n && FiresAt(worlds, events, i)
  }

  function Clears(worlds: seq<World>, events: seq<Event>, n: nat): set<nat>
    requires n <= |worlds| && n <= |events|
  {
    set i: nat | i < n && ClearsAt(worlds, events, i)
  }

  lemma OneMore(before: set<nat>, after: set<nat>, x: nat, counts: bool)
    requires x !in before && after == if counts then before + {x} else before
    ensures |after| == |before| + if counts then 1 else 0
  {
  }

  lemma FiringsGrow(worlds: seq<World>, events: seq<Event>, n: nat)
    requires n < |worlds| && n < |events|
    ensures |Firings(worlds, events, n + 1)| ==
            |Firings(worlds, events, n)| + if FiresAt(worlds, events, n) then 1 else 0
  {
    OneMore(Firings(worlds, events, n), Firings(worlds, events, n + 1), n, FiresAt(worlds, events, n));
  }

  lemma ClearsGrow(worlds: seq<World>, events: seq<Event>, n: nat)
    requires n < |worlds| && n < |events|
    ensures |Clears(worlds, events, n + 1)| ==
            |Clears(worlds, events, n)| + if ClearsAt(worlds, events, n) then 1 else 0
  {
    OneMore(Clears(worlds, events, n), Clears(worlds, events, n + 1), n, ClearsAt(worlds, events, n));
  }

  lemma NotesOfOneEvent(worlds: seq<World>, events: seq<Event>, n: nat)
    requires Run(worlds, events) && n < |events|
    ensures worlds[n + 1].fired == worlds[n].fired + if FiresAt(worlds, events, n) then 1 else 0
    ensures worlds[n + 1].clears == worlds[n].clears + if ClearsAt(worlds, events, n) then 1 else 0
  {
    assert worlds[n + 1] == After(worlds[n], events[n]);
  }

  ghost predicate IsCounted(worlds: seq<World>, events: seq<Event>, n: nat)
    requires n < |worlds| && n <= |events|
  {
    worlds[n].fired == |Firings(worlds, events, n)| && worlds[n].clears == |Clears(worlds, events, n)|
  }

  lemma CountsGrow(worlds: seq<World>, events: seq<Event>, n: nat)
    requires Run(worlds, events) && n < |events| && IsCounted(worlds, events, n)
    ensures IsCounted(worlds, events, n + 1)
  {
    NotesOfOneEvent(worlds, events, n);
    FiringsGrow(worlds, events, n);
    ClearsGrow(worlds, events, n);
  }

  /** The observer counts right: every poll that fires, and every clear, once. */
  lemma {:induction false} FiringsAndClearsAreCounted(worlds: seq<World>, events: seq<Event>, n: nat)
    requires Run(worlds, events) && n < |worlds|
    ensures IsCounted(worlds, events, n)
  {
    if n == 0 {
      assert Firings(worlds, events, 0) == Clears(worlds, events, 0) == {};
    } else {
      FiringsAndClearsAreCounted(worlds, events, n - 1);
      CountsGrow(worlds, events, n - 1);
    }
  }

  // ---------- the monthly rollover ----------

  /** Usage of a quota without months only grows: no poll sets it back, stamps the reset time or opens the latch. */
  lemma TotalQuotaIsNeverRolledOver(worlds: seq<World>, events: seq<Event>, i: nat)
    requires Run(worlds, events) && i < |events| && events[i].Poll? && worlds[i].q.period == Total
    ensures var w, w' := worlds[i], worlds[i + 1];
            && w'.q.lastResetAt == w.q.lastResetAt && w'.zeroed == w.zeroed && w'.clears == w.clears
            && w'.q.used >= w.q.used && (w.q.triggered ==> w'.q.triggered)
  {
    RunsAreSound(worlds, events, i);
    assert worlds[i + 1] == After(worlds[i], events[i]);
  }

  /** Over a whole run: while nobody resets a quota without months, or sets it, its usage never falls. */
  lemma {:induction false} TotalUsageOnlyGrows(worlds: seq<World>, events: seq<Event>, i: nat, j: nat)
    requires Run(worlds, events) && i <= j < |worlds| && worlds[i].q.period == Total
    requires forall k | i <= k < j :: !events[k].Reset? && (events[k].Set? ==> events[k].setting.period == Total)
    ensures worlds[j].q.period == Total && worlds[j].zeroed == worlds[i].zeroed
    ensures worlds[j].q.used >= worlds[i].q.used && worlds[j].q.lastResetAt == worlds[i].q.lastResetAt
    decreases j
  {
    if i < j {
      TotalUsageOnlyGrows(worlds, events, i, j - 1);
      assert worlds[j] == After(worlds[j - 1], events[j - 1]);
      if events[j - 1].Poll? {
        TotalQuotaIsNeverRolledOver(worlds, events, j - 1);
      }
    }
  }

  /** A committed poll sets the usage of a monthly quota back exactly when it reads the clock in another month of the
      calendar than that of the reset time; the usage is then what this poll adds. */
  lemma MonthlyQuotaRollsOverIff(worlds: seq<World>, events: seq<Event>, i: nat)
    requires Run(worlds, events) && i < |events| && events[i] == Poll(true) && worlds[i].q.period == Monthly
    ensures var w, w', r := worlds[i], worlds[i + 1], worlds[i].reading.value;
            var t := w.q.lastResetAt;
            var added := if Baselined(w) then Delta(w.q.lastRx, r.rx) + Delta(w.q.lastTx, r.tx) else 0;
            if t.year == r.now.year && t.month == r.now.month
            then w'.q.lastResetAt == t && w'.q.used == w.q.used + added && w'.zeroed == w.zeroed
            else w'.q.lastResetAt == r.now && w'.q.used == added && w'.zeroed == w.zeroed + w.q.used
  {
    assert worlds[i + 1] == After(worlds[i], events[i]);
  }

  /** The events that stamp the quota's reset time: a committed poll that rolls over, a reset, a change of period. */
  predicate Stamps(w: World, e: Event) {
    || (e == Poll(true) && w.reading.Some? && RollsOverNow(w))
    || e.Reset?
    || (e.Set? && e.setting.period != w.q.period)
  }

  function Stamp(w: World, e: Event): Time
    requires Stamps(w, e)
  {
    if e.Poll? then w.reading.value.now else e.now
  }

  ghost predicate NoStamps(worlds: seq<World>, events: seq<Event>, i: nat, j: nat)
    requires j <= |worlds| && j <= |events|
  {
    forall k | i <= k < j :: !Stamps(worlds[k], events[k])
  }

  /** A stamp while a poll is under way that has read the clock in another month. */
  predicate StampsOverOldReading(w: World, e: Event)
    requires CanHappen(w, e)
  {
    && Stamps(w, e)
    && var w' := After(w, e);
       w'.reading.Some? && !SameMonth(w'.reading.value.now, Stamp(w, e))
  }

  lemma {:induction false} UnstampedKeepsResetTime(worlds: seq<World>, events: seq<Event>, i: nat, j: nat)
    requires Run(worlds, events) && i <= j < |worlds| && NoStamps(worlds, events, i, j)
    ensures worlds[j].q.lastResetAt == worlds[i].q.lastResetAt && worlds[j].q.period == worlds[i].q.period
    decreases j
  {
    if i < j {
      UnstampedKeepsResetTime(worlds, events, i, j - 1);
      assert worlds[j] == After(worlds[j - 1], events[j - 1]);
    }
  }

  /** The reading of a poll is either the one that was under way at an earlier moment, or was taken since. */
  lemma {:induction false} ReadingIsOldOrNew(worlds: seq<World>, events: seq<Event>, i: nat, j: nat)
    requires Run(worlds, events) && i <= j < |worlds|
    ensures AtMost(worlds[i].clock, worlds[j].clock)
    ensures var r := worlds[j].reading;
            r.Some? ==> r == worlds[i].reading || AtMost(worlds[i].clock, r.value.now)
    decreases j
  {
    if i < j {
      ReadingIsOldOrNew(worlds, events, i, j - 1);
      assert worlds[j] == After(worlds[j - 1], events[j - 1]);
    }
  }

  lemma {:induction false} LastStamp(worlds: seq<World>, events: seq<Event>, i: nat, j: nat) returns (k: nat)
    requires Run(worlds, events) && i < j <= |events| && Stamps(worlds[i], events[i])
    ensures i <= k < j && Stamps(worlds[k], events[k]) && NoStamps(worlds, events, k + 1, j)
    decreases j
  {
    if Stamps(worlds[j - 1], events[j - 1]) {
      k := j - 1;
    } else {
      k := LastStamp(worlds, events, i, j - 1);
    }
  }

  lemma StampIsResetTime(worlds: seq<World>, events: seq<Event>, k: nat, j: nat)
    requires Run(worlds, events) && k < j < |worlds| && Stamps(worlds[k], events[k])
    requires NoStamps(worlds, events, k + 1, j)
    ensures worlds[j].q.lastResetAt == Stamp(worlds[k], events[k]) == worlds[k + 1].q.lastResetAt
    ensures AtMost(Stamp(worlds[k], events[k]), worlds[k + 1].clock)
  {
    assert worlds[k + 1] == After(worlds[k], events[k]);
    UnstampedKeepsResetTime(worlds, events, k + 1, j);
    RunsAreSound(worlds, events, k);
  }

  /** After a poll, a reset or a change of period the usage of that calendar month is safe: no later poll of the
      month sets it back to 0, unless a stamp falls between the reading and the update of a poll of another month.
      So polls zero usage at most once a month, and changing the period, which keeps the usage itself, does not
      make a poll zero it either. */
  lemma NoSecondRolloverInAMonth(worlds: seq<World>, events: seq<Event>, i: nat, j: nat)
    requires Run(worlds, events) && i < j < |events| && Stamps(worlds[i], events[i])
    requires events[j].Poll? && SameMonth(Stamp(worlds[i], events[i]), worlds[j].reading.value.now)
    requires forall k | i <= k < j :: !StampsOverOldReading(worlds[k], events[k])
    ensures !RollsOverNow(worlds[j])
    ensures events[i].Set? ==> worlds[i + 1].q.used == worlds[i].q.used
  {
    assert worlds[i + 1] == After(worlds[i], events[i]);
    var k := LastStamp(worlds, events, i, j);
    assert worlds[k + 1] == After(worlds[k], events[k]);
    StampIsResetTime(worlds, events, k, j);
    ReadingIsOldOrNew(worlds, events, k + 1, j);
    if i < k {
      StampIsResetTime(worlds, events, i, i + 1);
      ReadingIsOldOrNew(worlds, events, i + 1, k);
    }
  }

  /** Exactly when a stamp over a reading goes wrong: the update of the poll under way sets back the reset time, and
      the next poll of the stamp's month zeroes the usage again, if and only if the reading is of another month. */
  lemma OldReadingZeroesAgainIff(w: World, e: Event, next: Time)
    requires CanHappen(w, e) && Stamps(w, e) && After(w, e).reading.Some? && After(w, e).q.period == Monthly
    requires SameMonth(Stamp(w, e), next)
    ensures var polled := After(After(w, e), Poll(true));
            RollsOver(polled.q, next) <==> StampsOverOldReading(w, e)
  {
  }

  /** A committed poll of a monthly quota leaves its reset time in the month of its reading. */
  lemma PollsKeepResetTimeCurrent(worlds: seq<World>, events: seq<Event>, i: nat)
    requires Run(worlds, events) && i < |events| && events[i] == Poll(true) && worlds[i].q.period == Monthly
    ensures SameMonth(worlds[i + 1].q.lastResetAt, worlds[i].reading.value.now)
    ensures !RollsOver(worlds[i + 1].q, worlds[i].reading.value.now)
  {
    assert worlds[i + 1] == After(worlds[i], events[i]);
  }
}
