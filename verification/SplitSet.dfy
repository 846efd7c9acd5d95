/** `Set` of internal/quota/store.go as it is: it reads the row, and writes later from what it read. What another
    operation stores in between may be taken back. `q` is always the row that `Set` read. */
module SplitSet {
  import opened Quota

  /** The write of a `Set` that read `seen` does to `q` what a `Set` in one step would do. */
  predicate IsAtomic(q: Quota, seen: Quota, s: Setting, now: Time) {
    Written(q, seen, s, now) == Written(q, q, s, now)
  }

  // ---------- a poll in between ----------

  /** A poll in between is harmless exactly when the write does not take back what it stored: a rollover's reset
      time, or a latch it closed or opened. */
  lemma PollBetweenIsHarmlessIff(q: Quota, rx: int, tx: int, pollTime: Time, s: Setting, now: Time)
    ensures IsAtomic(Polled(q, rx, tx, pollTime), q, s, now)
       <==> && (RollsOver(q, pollTime) ==> s.period != q.period)
            && (ClearsLatch(q, s) || (RollsOver(q, pollTime) && q.triggered) == Fires(q, rx, tx, pollTime))
  {
    var polled := Polled(q, rx, tx, pollTime);
    var split, whole := Written(polled, q, s, now), Written(polled, polled, s, now);
    assert split == whole <==> split.lastResetAt == whole.lastResetAt && split.triggered == whole.triggered;
  }

  /** Harm 1, the latch reopened: the poll fired, the setting does not clear the latch, and the next poll of the
      month fires a second time. */
  lemma PollBetweenFiresTwice(q: Quota, rx: int, tx: int, pollTime: Time, s: Setting, now: Time,
                              rx': nat, tx': nat, nextPoll: Time)
    requires 0 <= rx && 0 <= tx && Fires(q, rx, tx, pollTime) && !q.triggered
    requires !ClearsLatch(q, s) && 0 < s.limit
    requires !RollsOver(Written(Polled(q, rx, tx, pollTime), q, s, now), nextPoll)
    ensures Fires(Written(Polled(q, rx, tx, pollTime), q, s, now), rx', tx', nextPoll)
  {
  }

  /** Harm 2, the rollover undone: the write restores the reset time of an earlier month, and the next poll of the
      month sets the usage back to 0 again. */
  lemma PollBetweenRollsOverTwice(q: Quota, rx: int, tx: int, pollTime: Time, s: Setting, now: Time,
                                  rx': int, tx': int, nextPoll: Time)
    requires RollsOver(q, pollTime) && s.period == q.period && SameMonth(pollTime, nextPoll)
    ensures var w := Written(Polled(q, rx, tx, pollTime), q, s, now);
            RollsOver(w, nextPoll) && Polled(w, rx', tx', nextPoll).used == Added(w, rx', tx')
  {
  }

  /** Harm 3, the latch closed again: a rollover opened it without firing, the write closes it over a usage that
      may be below the limit. */
  lemma PollBetweenClosesLatch(q: Quota, rx: int, tx: int, pollTime: Time, s: Setting, now: Time)
    requires RollsOver(q, pollTime) && q.triggered && !Fires(q, rx, tx, pollTime) && !ClearsLatch(q, s)
    ensures var w := Written(Polled(q, rx, tx, pollTime), q, s, now);
            w.triggered && w.used == Added(q, rx, tx) && (0 < q.limit ==> w.used < q.limit)
  {
  }

  // ---------- a reset in between ----------

  /** A reset in between is harmless exactly when the write keeps its reset time, or stamps its own, and does not
      close the latch again. */
  lemma ResetBetweenIsHarmlessIff(q: Quota, resetTime: Time, s: Setting, now: Time)
    ensures IsAtomic(WasReset(q, resetTime), q, s, now)
       <==> (s.period == q.period ==> q.lastResetAt == resetTime) && (q.triggered ==> ClearsLatch(q, s))
  {
    var reset := WasReset(q, resetTime);
    var split, whole := Written(reset, q, s, now), Written(reset, reset, s, now);
    assert split == whole <==> split.lastResetAt == whole.lastResetAt && split.triggered == whole.triggered;
  }

  datatype Reading = Reading(rx: int, tx: int, now: Time)

  /** How many actions a sequence of polls fires. */
  function Firings(q: Quota, polls: seq<Reading>): nat
    decreases polls
  {
    if polls == [] then 0 else
    (if Fires(q, polls[0].rx, polls[0].tx, polls[0].now) then 1 else 0) +
    Firings(Polled(q, polls[0].rx, polls[0].tx, polls[0].now), polls[1..])
  }

  /** A closed latch keeps every poll of the month silent, however much traffic they read. */
  lemma {:induction false} ClosedLatchIsSilent(q: Quota, polls: seq<Reading>)
    requires q.triggered
    requires forall p | p in polls :: !RollsOver(q, p.now)
    ensures Firings(q, polls) == 0
    decreases polls
  {
    if polls != [] {
      assert polls[0] in polls;
      ClosedLatchIsSilent(Polled(q, polls[0].rx, polls[0].tx, polls[0].now), polls[1..]);
    }
  }

  /** The harm of a reset taken back: the latch is closed although the usage is 0 and below the limit, and no poll
      fires, whatever it reads, until the quota rolls over or the latch is cleared otherwise. */
  lemma ResetBetweenSilencesTheQuota(q: Quota, resetTime: Time, s: Setting, now: Time, polls: seq<Reading>)
    requires q.triggered && !ClearsLatch(q, s) && 0 < s.limit
    requires forall p | p in polls :: !RollsOver(Written(WasReset(q, resetTime), q, s, now), p.now)
    ensures var w := Written(WasReset(q, resetTime), q, s, now);
            w.triggered && w.used == 0 < w.limit && Firings(w, polls) == 0
  {
    ClosedLatchIsSilent(Written(WasReset(q, resetTime), q, s, now), polls);
  }

  /** The other harm: the write restores a reset time of an earlier month, and the next poll sets to 0 again what was
      used since the reset. */
  lemma ResetBetweenIsZeroedAgain(q: Quota, resetTime: Time, s: Setting, now: Time, rx: int, tx: int, nextPoll: Time)
    requires RollsOver(q, nextPoll) && SameMonth(resetTime, nextPoll) && s.period == q.period
    ensures !RollsOver(Written(WasReset(q, resetTime), WasReset(q, resetTime), s, now), nextPoll)
    ensures var w := Written(WasReset(q, resetTime), q, s, now);
            RollsOver(w, nextPoll) && Polled(w, rx, tx, nextPoll).used == Added(w, rx, tx)
  {
  }

  // ---------- another Set in between ----------

  /** Another `Set` in between is harmless exactly when its change of period is not taken back, and the write
      opens a closed latch just when the two settings, one after the other, would. */
  lemma SetBetweenIsHarmlessIff(q: Quota, s1: Setting, t1: Time, s2: Setting, t2: Time)
    ensures var q1 := Written(q, q, s1, t1);
            IsAtomic(q1, q, s2, t2) <==>
            && (s1.period != q.period ==> (if s2.period == q.period then q.lastResetAt else t1) == t2)
            && (q.triggered ==> (ClearsLatch(q, s2) <==> ClearsLatch(q, s1) || ClearsLatch(q1, s2)))
  {
    var q1 := Written(q, q, s1, t1);
    var split, whole := Written(q1, q, s2, t2), Written(q1, q1, s2, t2);
    assert split == whole <==> split.lastResetAt == whole.lastResetAt && split.triggered == whole.triggered;
  }
}
