/** Traffic quotas: the stored rows of internal/quota/store.go and the poll of internal/quota/monitor.go.
    Byte counts are unbounded integers. */
module Quota {
  import opened Wrappers

  /** A moment, with the calendar month it falls in. */
  datatype Time = Time(year: int, month: int, instant: int)

  predicate SameMonth(a: Time, b: Time) {
    a.year == b.year && a.month == b.month
  }

  predicate AtMost(a: Time, b: Time) {
    a.year < b.year || (a.year == b.year && (a.month < b.month || (a.month == b.month && a.instant <= b.instant)))
  }

  /** Moments are totally ordered, by year, month and instant. */
  lemma TimeIsOrdered(a: Time, b: Time, c: Time)
    ensures AtMost(a, b) || AtMost(b, a)
    ensures AtMost(a, b) && AtMost(b, a) <==> a == b
    ensures AtMost(a, b) && AtMost(b, c) ==> AtMost(a, c)
    ensures a.year < b.year ==> AtMost(a, b)
    ensures a.year == b.year && a.month < b.month ==> AtMost(a, b)
  {
  }

  datatype Period = Monthly | Total

  datatype Action = Stop | Freeze | Notify

  datatype Quota = Quota(
    limit: int, period: Period, action: Action,
    used: int, lastRx: int, lastTx: int, lastResetAt: Time, lastPollAt: Option<Time>, triggered: bool)

  /** What a caller of `Set` chooses. */
  datatype Setting = Setting(limit: int, period: Period, action: Action)

  // ---------- the row operations ----------

  function NewQuota(s: Setting, now: Time): Quota {
    Quota(s.limit, s.period, s.action, 0, 0, 0, now, None, false)
  }

  /** Raising the limit or changing the action lets the action fire again. */
  predicate ClearsLatch(seen: Quota, s: Setting) {
    s.limit > seen.limit || s.action != seen.action
  }

  /** The UPDATE of `Set`, run on `q` but computed from `seen`, the row `Set` read earlier. */
  function Written(q: Quota, seen: Quota, s: Setting, now: Time): Quota {
    q.(limit := s.limit, period := s.period, action := s.action,
       lastResetAt := if s.period != seen.period then now else seen.lastResetAt,
       triggered := seen.triggered && !ClearsLatch(seen, s))
  }

  function WasReset(q: Quota, now: Time): Quota {
    q.(used := 0, lastResetAt := now, triggered := false)
  }

  predicate RollsOver(q: Quota, now: Time) {
    q.period == Monthly && !SameMonth(q.lastResetAt, now)
  }

  /** Bytes since the last reading; a counter that went back was wiped, so all it shows is new. */
  function Delta(last: int, current: int): int {
    if current < last then current else current - last
  }

  /** The bytes a poll adds: none at the first poll, which only takes the baseline. */
  function Added(q: Quota, rx: int, tx: int): int {
    if q.lastPollAt == None then 0 else Delta(q.lastRx, rx) + Delta(q.lastTx, tx)
  }

  function UsedAfterPoll(q: Quota, rx: int, tx: int, now: Time): int {
    (if RollsOver(q, now) then 0 else q.used) + Added(q, rx, tx)
  }

  /** A poll fires the action when the limit is reached and the latch is open. */
  predicate Fires(q: Quota, rx: int, tx: int, now: Time) {
    && 0 < q.limit <= UsedAfterPoll(q, rx, tx, now)
    && (q.triggered ==> RollsOver(q, now))
  }

  function Polled(q: Quota, rx: int, tx: int, now: Time): Quota {
    q.(used := UsedAfterPoll(q, rx, tx, now), lastRx := rx, lastTx := tx, lastPollAt := Some(now),
       lastResetAt := if RollsOver(q, now) then now else q.lastResetAt,
       triggered := Fires(q, rx, tx, now) || (q.triggered && !RollsOver(q, now)))
  }

  /** What counts between two readings: all that was carried while the counter ran on; after a wipe, what came since,
      less the last reading if the counter has already passed it again and the wipe goes unnoticed. */
  lemma CountedBetweenReadings(last: nat, carried: nat, sinceWipe: nat)
    ensures Delta(last, last + carried) == carried
    ensures Delta(last, sinceWipe) == if sinceWipe < last then sinceWipe else sinceWipe - last
  {
  }

  /** The month of the reset time is that of the poll, year and all. */
  predicate InMonthOf(q: Quota, now: Time) {
    q.lastResetAt.year == now.year && q.lastResetAt.month == now.month
  }

  /** A poll in the month of the reset time, or of a quota without months, adds to what was used; it leaves the
      reset time, and closes the latch, for good, when a limit above 0 is reached. */
  lemma PollAddsUp(q: Quota, rx: nat, tx: nat, now: Time)
    requires q.period == Total || InMonthOf(q, now)
    ensures var p := Polled(q, rx, tx, now);
            && p == q.(used := p.used, lastRx := rx, lastTx := tx, lastPollAt := Some(now), triggered := p.triggered)
            && p.used == q.used + (if q.lastPollAt == None then 0 else Delta(q.lastRx, rx) + Delta(q.lastTx, tx))
            && (p.triggered <==> q.triggered || 0 < q.limit <= p.used)
            && (Fires(q, rx, tx, now) <==> !q.triggered && p.triggered)
  {
  }

  /** The first poll of another month starts from 0 and from an open latch. */
  lemma PollStartsNewMonth(q: Quota, rx: nat, tx: nat, now: Time)
    requires q.period == Monthly && !InMonthOf(q, now)
    ensures var p := Polled(q, rx, tx, now);
            && p == Polled(WasReset(q, now), rx, tx, now)
            && p.lastResetAt == now && p.limit == q.limit && p.period == Monthly && p.action == q.action
            && p.used == (if q.lastPollAt == None then 0 else Delta(q.lastRx, rx) + Delta(q.lastTx, tx))
            && (p.triggered <==> 0 < q.limit <= p.used) && (Fires(q, rx, tx, now) <==> p.triggered)
  {
  }

  /** The closure that the monitor hands to the store, assignment by assignment. */
  method PollRow(row: Quota, rx: int, tx: int, now: Time) returns (q: Quota, fired: Option<Action>)
    ensures q == Polled(row, rx, tx, now)
    ensures fired == if Fires(row, rx, tx, now) then Some(row.action) else None
  {
    q, fired := row, None;
    if q.period == Monthly && !SameMonth(q.lastResetAt, now) {
      q := q.(used := 0, lastResetAt := now, triggered := false);
    }
    var dRx, dTx := rx - q.lastRx, tx - q.lastTx;
    if dRx < 0 {
      dRx := rx;
    }
    if dTx < 0 {
      dTx := tx;
    }
    if q.lastPollAt == None {
      dRx, dTx := 0, 0;
    }
    q := q.(used := q.used + dRx + dTx, lastRx := rx, lastTx := tx, lastPollAt := Some(now));
    if q.limit > 0 && q.used >= q.limit && !q.triggered {
      q := q.(triggered := true);
      fired := Some(q.action);
    }
  }

  // ---------- the store ----------

  /** The quotas table; each method is one atomic step. */
  class Store {
    var rows: map<int, Quota>

    method Set(id: int, s: Setting, now: Time)
      modifies this
      ensures rows ==
              old(rows)[id :=
                if id in old(rows) then Written(old(rows[id]), old(rows[id]), s, now) else NewQuota(s, now)]
      ensures rows - {id} == old(rows) - {id}
      ensures id !in old(rows) ==> rows[id] == Quota(s.limit, s.period, s.action, 0, 0, 0, now, None, false)
      ensures id in old(rows) ==>
                var q := old(rows[id]);
                && rows[id] == q.(limit := s.limit, period := s.period, action := s.action,
                                  lastResetAt := rows[id].lastResetAt, triggered := rows[id].triggered)
                && rows[id].lastResetAt == (if s.period == q.period then q.lastResetAt else now)
                && (rows[id].triggered <==> q.triggered && s.limit <= q.limit && s.action == q.action)
    {
      if id !in rows {
        rows := rows[id := NewQuota(s, now)];
        return;
      }
      var existing := rows[id];
      var resetAt, triggered := existing.lastResetAt, existing.triggered;
      if s.period != existing.period {
        resetAt := now;
      }
      if s.limit > existing.limit || s.action != existing.action {
        triggered := false;
      }
      rows := rows[id := existing.(limit := s.limit, period := s.period, action := s.action,
                                   lastResetAt := resetAt, triggered := triggered)];
    }

    method Delete(id: int)
      modifies this
      ensures rows == old(rows) - {id}
    {
      rows := rows - {id};
    }

    method Reset(id: int, now: Time)
      modifies this
      ensures rows == if id in old(rows) then old(rows)[id := WasReset(old(rows[id]), now)] else old(rows)
      ensures id in old(rows) ==> rows[id] == old(rows[id]).(used := 0, lastResetAt := now, triggered := false)
    {
      if id in rows {
        rows := rows[id := rows[id].(used := 0, lastResetAt := now, triggered := false)];
      }
    }

    /** Writes back the running totals of the row only: the settings in `q` are ignored. */
    method UpdateCounters(id: int, q: Quota)
      modifies this
      ensures id !in old(rows) ==> rows == old(rows)
      ensures id in old(rows) ==>
                rows == old(rows)[id := q.(limit := old(rows[id]).limit, period := old(rows[id]).period,
                                           action := old(rows[id]).action)]
    {
      if id !in rows {
        return;
      }
      rows := rows[id := rows[id].(used := q.used, lastRx := q.lastRx, lastTx := q.lastTx,
                                   lastResetAt := q.lastResetAt, lastPollAt := q.lastPollAt, triggered := q.triggered)];
    }
  }

  // ---------- the monitor ----------

  datatype Counters = Counters(received: int, sent: int)

  /** The received and sent bytes of all interfaces but the loopback, whatever order they come in. */
  ghost function Sum(net: map<string, Counters>): Counters
    decreases |net|
  {
    if net == map[] then Counters(0, 0) else
    var iface :| iface in net;
    Plus(Sum(net - {iface}), iface, net[iface])
  }

  function Plus(sum: Counters, iface: string, n: Counters): Counters {
    if iface == "lo" then sum else Counters(sum.received + n.received, sum.sent + n.sent)
  }

  lemma {:induction false} SumAnyOrder(net: map<string, Counters>, iface: string)
    requires iface in net
    ensures Sum(net) == Plus(Sum(net - {iface}), iface, net[iface])
    decreases |net|
  {
    var first :| first in net && Sum(net) == Plus(Sum(net - {first}), first, net[first]);
    if first != iface {
      SumAnyOrder(net - {first}, iface);
      SumAnyOrder(net - {iface}, first);
      var rest := net - {first} - {iface};
      assert rest == net - {iface} - {first};
      assert Sum(net) == Plus(Plus(Sum(rest), iface, net[iface]), first, net[first]);
      assert Sum(net - {iface}) == Plus(Sum(rest), first, net[first]);
    }
  }

  /** The loopback does not count, every other interface counts in full, and nothing else does. */
  lemma SumIsOfOtherInterfaces(net: map<string, Counters>, iface: string)
    ensures Sum(map[]) == Counters(0, 0)
    ensures Sum(net - {"lo"}) == Sum(net)
    ensures iface in net && iface != "lo" ==>
              var rest := Sum(net - {iface});
              Sum(net) == Counters(rest.received + net[iface].received, rest.sent + net[iface].sent)
  {
    if "lo" in net {
      SumAnyOrder(net, "lo");
    } else {
      assert net - {"lo"} == net;
    }
    if iface in net {
      SumAnyOrder(net, iface);
    }
  }

  /** The loop over the interfaces. */
  method Totals(net: map<string, Counters>) returns (rx: int, tx: int)
    ensures Counters(rx, tx) == Sum(net)
  {
    rx, tx := 0, 0;
    var left := net;
    while left.Keys != {}
      invariant Sum(net) == Counters(rx + Sum(left).received, tx + Sum(left).sent)
      decreases |left.Keys|
    {
      var iface :| iface in left.Keys;
      SumAnyOrder(left, iface);
      if iface != "lo" {
        rx, tx := rx + left[iface].received, tx + left[iface].sent;
      }
      left := left - {iface};
    }
  }

  /** One poll of one instance: the update of its row. `net` and `now` are what the monitor has read before, None when
      the instance or its state could not be read; the row is the one stored by now, if there still is one.
      `commits` tells whether its update is committed: the error is discarded, and the action fires either way. */
  method CheckOne(store: Store, id: int, net: Option<map<string, Counters>>, now: Time, commits: bool)
    returns (fired: Option<Action>)
    modifies store
    ensures net == None || id !in old(store.rows) ==> store.rows == old(store.rows) && fired == None
    ensures net.Some? && id in old(store.rows) ==>
              var q, sum := old(store.rows[id]), Sum(net.value);
              && store.rows ==
                   (if commits then old(store.rows)[id := Polled(q, sum.received, sum.sent, now)] else old(store.rows))
              && fired == if Fires(q, sum.received, sum.sent, now) then Some(q.action) else None
  {
    fired := None;
    if net == None {
      return;
    }
    var rx, tx := Totals(net.value);
    if id in store.rows {
      var q;
      q, fired := PollRow(store.rows[id], rx, tx, now);
      if commits {
        store.UpdateCounters(id, q);
      }
    }
  }
}
