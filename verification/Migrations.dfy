/** The schema migration runner: `Migrate` of internal/db/db.go. */
module Migrations {
  import opened Text
  import Collections
  import Sorting

  // ---------- file names ----------

  datatype Entry = Entry(name: string, isDir: bool)

  predicate IsSqlFile(e: Entry) {
    !e.isDir && |e.name| >= 4 && e.name[|e.name| - 4..] == ".sql"
  }

  /** strings.SplitN(f, "_", 2)[0] */
  function Version(file: string): string {
    Split(file, '_')[0]
  }

  predicate AtMost(a: string, b: string) {
    a == "" || (b != "" && (a[0] < b[0] || (a[0] == b[0] && AtMost(a[1..], b[1..]))))
  }

  lemma {:induction false} AtMostIsTotal(a: string, b: string)
    ensures AtMost(a, b) || AtMost(b, a)
  {
    if a != "" && b != "" && a[0] == b[0] {
      AtMostIsTotal(a[1..], b[1..]);
    }
  }

  lemma AtMostIsTotalOrder()
    ensures Sorting.IsTotal(AtMost)
  {
    forall a, b ensures AtMost(a, b) || AtMost(b, a) {
      AtMostIsTotal(a, b);
    }
  }

  /** sort.Strings */
  function Sorted(files: seq<string>): (t: seq<string>)
    ensures Sorting.InOrder(AtMost, t) && |t| == |files|
    ensures forall f :: f in t <==> f in files
  {
    AtMostIsTotalOrder();
    Sorting.Sorted(AtMost, files)
  }

  /** Byte order of names: they agree up to some point, where `a` ends or holds the smaller character. */
  ghost predicate ComesBefore(a: string, b: string) {
    exists n: nat | n <= |a| && n <= |b| ::
      a[..n] == b[..n] && (n == |a| || (n < |b| && a[n] < b[n]))
  }

  lemma {:induction false} AtMostComesBefore(a: string, b: string)
    requires AtMost(a, b)
    ensures ComesBefore(a, b)
  {
    if a == "" || a[0] < b[0] {
      assert a[..0] == b[..0];
    } else {
      AtMostComesBefore(a[1..], b[1..]);
      var n: nat :| n <= |a[1..]| && n <= |b[1..]| && a[1..][..n] == b[1..][..n] &&
                    (n == |a[1..]| || (n < |b[1..]| && a[1..][n] < b[1..][n]));
      assert a[..n + 1] == [a[0]] + a[1..][..n] && b[..n + 1] == [b[0]] + b[1..][..n];
      assert n + 1 == |a| || a[n + 1] < b[n + 1];
    }
  }

  lemma {:induction false} AtMostIsTransitive(a: string, b: string, c: string)
    requires AtMost(a, b) && AtMost(b, c)
    ensures AtMost(a, c)
  {
    if a != "" && a[0] == b[0] == c[0] {
      AtMostIsTransitive(a[1..], b[1..], c[1..]);
    }
  }

  /** Sorted names ascend, every pair of them, and are the names given. */
  lemma SortedAscends(files: seq<string>, i: nat, j: nat)
    requires i < j < |files|
    ensures |Sorted(files)| == |files| && multiset(Sorted(files)) == multiset(files)
    ensures ComesBefore(Sorted(files)[i], Sorted(files)[j])
  {
    forall a, b, c | AtMost(a, b) && AtMost(b, c) ensures AtMost(a, c) {
      AtMostIsTransitive(a, b, c);
    }
    AtMostIsTotalOrder();
    Sorting.SortedKeepsElements(AtMost, files);
    Sorting.InOrderAllPairs(AtMost, Sorted(files), i, j);
    AtMostComesBefore(Sorted(files)[i], Sorted(files)[j]);
  }

  /** The names that are sorted are those of the entries that are no directories and end in ".sql". */
  lemma {:induction false} SqlFilesIff(entries: seq<Entry>, f: string)
    ensures f in SqlFiles(entries) <==> Entry(f, false) in entries && |f| >= 4 && f[|f| - 4..] == ".sql"
  {
    if entries != [] {
      SqlFilesIff(entries[1..], f);
      assert entries == [entries[0]] + entries[1..];
    }
  }

  /** A version is what stands before the first underscore, or the whole name. */
  lemma VersionIsPrefix(version: string, rest: string)
    requires '_' !in version
    ensures Version(version + "_" + rest) == version && Version(version) == version
  {
    SplitConcat(version, '_', rest);
    SplitWhole(version, '_');
  }

  function SqlFiles(entries: seq<Entry>): seq<string> {
    if entries == [] then [] else
    (if IsSqlFile(entries[0]) then [entries[0].name] else []) + SqlFiles(entries[1..])
  }

  /** A release that only adds files sorting after the old ones keeps the old ones as the front of its list. */
  lemma NewerFilesSortBehind(older: seq<string>, newer: seq<string>)
    requires forall x, y | x in older && y in newer :: AtMost(x, y)
    ensures Sorted(older + newer) == Sorted(older) + Sorted(newer)
  {
    AtMostIsTotalOrder();
    Sorting.SortedConcat(AtMost, older, newer);
  }

  // ---------- one run ----------

  function Versions(files: seq<string>): set<string> {
    set f | f in files :: Version(f)
  }

  predicate HaveDistinctVersions(files: seq<string>) {
    forall i, j | 0 <= i < j < |files| :: Version(files[i]) != Version(files[j])
  }

  /** The files a run still has to apply: those whose version is neither recorded nor that of an earlier file. */
  function Pending(files: seq<string>, recorded: set<string>): seq<string> {
    if files == [] then [] else
    var v := Version(files[0]);
    if v in recorded then Pending(files[1..], recorded) else [files[0]] + Pending(files[1..], recorded + {v})
  }

  /** Exactly what is pending: a file whose version is not recorded, nor carried by a file before it. */
  lemma {:induction false} PendingIff(files: seq<string>, recorded: set<string>, f: string)
    ensures f in Pending(files, recorded) <==>
            exists i | 0 <= i < |files| ::
              files[i] == f && Version(f) !in recorded && forall h | 0 <= h < i :: Version(files[h]) != Version(f)
  {
    if files != [] {
      var v := Version(files[0]);
      var recorded' := if v in recorded then recorded else recorded + {v};
      PendingIff(files[1..], recorded', f);
      if i :| 0 <= i < |files| && files[i] == f && Version(f) !in recorded &&
              forall h | 0 <= h < i :: Version(files[h]) != Version(f) {
        if i > 0 {
          assert files[1..][i - 1] == f && Version(f) !in recorded';
          forall h | 0 <= h < i - 1 ensures Version(files[1..][h]) != Version(f) {
            assert files[1..][h] == files[h + 1];
          }
        }
      }
      if i :| 0 <= i < |files[1..]| && files[1..][i] == f && Version(f) !in recorded' &&
              forall h | 0 <= h < i :: Version(files[1..][h]) != Version(f) {
        assert files[i + 1] == f;
        forall h | 0 <= h < i + 1 ensures Version(files[h]) != Version(f) {
          assert h > 0 ==> files[1..][h - 1] == files[h];
        }
      }
    }
  }

  lemma {:induction false} PendingKeepsOrder(files: seq<string>, recorded: set<string>, i: nat, j: nat)
    returns (a: nat, b: nat)
    requires i < j < |Pending(files, recorded)|
    ensures a < b < |files|
    ensures files[a] == Pending(files, recorded)[i] && files[b] == Pending(files, recorded)[j]
  {
    var v := Version(files[0]);
    if v in recorded {
      a, b := PendingKeepsOrder(files[1..], recorded, i, j);
      a, b := a + 1, b + 1;
    } else if i == 0 {
      b := PendingIsFrom(files[1..], recorded + {v}, j - 1);
      a, b := 0, b + 1;
    } else {
      a, b := PendingKeepsOrder(files[1..], recorded + {v}, i - 1, j - 1);
      a, b := a + 1, b + 1;
    }
  }

  lemma {:induction false} PendingIsFrom(files: seq<string>, recorded: set<string>, j: nat) returns (b: nat)
    requires j < |Pending(files, recorded)|
    ensures b < |files| && files[b] == Pending(files, recorded)[j]
  {
    var v := Version(files[0]);
    if v in recorded {
      b := PendingIsFrom(files[1..], recorded, j);
      b := b + 1;
    } else if j == 0 {
      b := 0;
    } else {
      b := PendingIsFrom(files[1..], recorded + {v}, j - 1);
      b := b + 1;
    }
  }

  ghost predicate Ascends(files: seq<string>) {
    forall i, j | 0 <= i < j < |files| :: ComesBefore(files[i], files[j])
  }

  /** What is pending of sorted files ascends. */
  lemma PendingAscends(files: seq<string>, recorded: set<string>)
    ensures Ascends(Pending(Sorted(files), recorded))
  {
    var pending := Pending(Sorted(files), recorded);
    forall i, j | 0 <= i < j < |pending| ensures ComesBefore(pending[i], pending[j]) {
      var a, b := PendingKeepsOrder(Sorted(files), recorded, i, j);
      SortedAscends(files, a, b);
    }
  }

  /** The recorded versions, and the files whose bodies have been committed, in that order. */
  class Database {
    var versions: set<string>
    var log: seq<string>

    constructor ()
      ensures versions == {} && log == []
    {
      versions, log := {}, [];
    }

    /** A run asks the database for one thing after another: to create the version table, then for each file
        whether its version is recorded, and if not to commit its transaction. `failAt` is the number of
        requests that succeed; at the next one there is an error, or the process dies. */
    method Migrate(entries: seq<Entry>, failAt: nat) returns (ok: bool, ghost looked: nat, ghost applied: nat)
      modifies this
      ensures var files := Sorted(SqlFiles(entries));
              var pending := Pending(files, old(versions));
              && looked <= |files| && applied <= |pending|
              && log == old(log) + pending[..applied]
              && versions == old(versions) + Versions(pending[..applied])
              && Ascends(pending)
              && (ok <==> 1 + |files| + |pending| <= failAt)
              && (ok ==> applied == |pending|)
              && (!ok && 0 < failAt ==> failAt == 1 + looked + applied)
    {
      PendingAscends(SqlFiles(entries), versions);
      looked, applied := 0, 0;
      if failAt == 0 {
        return false, looked, applied;
      }
      var requests := 1;
      var files := Sorted(SqlFiles(entries));
      ghost var recorded, before := versions, log;
      ghost var pending := Pending(files, recorded);
      for i := 0 to |files|
        invariant looked == i && requests == 1 + looked + applied <= failAt
        invariant Progress(pending, applied, files[i..], recorded, versions, before, log)
      {
        if requests == failAt {
          return false, looked, applied;
        }
        requests, looked := requests + 1, looked + 1;
        var f := files[i];
        var version := Version(f);
        if version in versions {
          ProgressSkips(pending, applied, files, i, recorded, versions, before, log);
        } else {
          ProgressApplies(pending, applied, files, i, recorded, versions, before, log);
          if requests == failAt {
            return false, looked, applied;
          }
          versions, log := versions + {version}, log + [f];
          requests, applied := requests + 1, applied + 1;
        }
      }
      ok := true;
    }
  }

  /** In the middle of a run: what is pending from here on is the rest of what was pending at the start. */
  ghost predicate Progress(pending: seq<string>, applied: nat, ahead: seq<string>,
                           start: set<string>, now: set<string>, before: seq<string>, log: seq<string>)
  {
    && applied <= |pending| && pending[applied..] == Pending(ahead, now)
    && now == start + Versions(pending[..applied])
    && log == before + pending[..applied]
  }

  lemma ProgressSkips(pending: seq<string>, applied: nat, files: seq<string>, i: nat,
                      start: set<string>, now: set<string>, before: seq<string>, log: seq<string>)
    requires i < |files| && Version(files[i]) in now && Progress(pending, applied, files[i..], start, now, before, log)
    ensures Progress(pending, applied, files[i + 1..], start, now, before, log)
  {
    assert files[i..][0] == files[i] && files[i..][1..] == files[i + 1..];
  }

  lemma ProgressApplies(pending: seq<string>, applied: nat, files: seq<string>, i: nat,
                        start: set<string>, now: set<string>, before: seq<string>, log: seq<string>)
    requires i < |files| && Version(files[i]) !in now && Progress(pending, applied, files[i..], start, now, before, log)
    ensures applied < |pending|
    ensures Progress(pending, applied + 1, files[i + 1..], start, now + {Version(files[i])}, before, log + [files[i]])
  {
    var f := files[i];
    assert files[i..][0] == f && files[i..][1..] == files[i + 1..];
    assert pending[applied] == pending[applied..][0] == f;
    assert pending[..applied + 1] == pending[..applied] + [f];
    assert pending[applied + 1..] == pending[applied..][1..];
    VersionsOfAppend(pending[..applied], f);
    Collections.ConcatAssociates(before, pending[..applied], [f]);
  }

  lemma VersionsOfAppend(files: seq<string>, f: string)
    ensures Versions(files + [f]) == Versions(files) + {Version(f)}
  {
    forall v | v in Versions(files) + {Version(f)} ensures v in Versions(files + [f]) {
      if v == Version(f) {
        assert f in files + [f];
      } else {
        var g :| g in files && Version(g) == v;
        assert g in files + [f];
      }
    }
  }

  /** With distinct versions, a run on a database that has the first `k` files applies the rest of its own first `n`. */
  lemma {:induction false} PendingAfterPrefix(files: seq<string>, n: nat, k: nat)
    requires HaveDistinctVersions(files) && n <= |files| && k <= |files|
    ensures Pending(files[..n], Versions(files[..k])) == if k <= n then files[k..n] else []
  {
    PendingSkips(files, 0, n, k);
    assert files[0..n] == files[..n];
  }

  lemma {:induction false} PendingSkips(files: seq<string>, i: nat, n: nat, k: nat)
    requires HaveDistinctVersions(files) && i <= n <= |files| && i <= k <= |files|
    ensures Pending(files[i..n], Versions(files[..k])) == if k <= n then files[k..n] else []
    decreases n - i
  {
    if i < n {
      var rest := files[i..n];
      if i < k {
        assert rest[0] == files[i] && rest[1..] == files[i + 1..n];
        assert files[i] in files[..k];
        PendingSkips(files, i + 1, n, k);
      } else {
        BehindIsUnrecorded(files, n, k);
        PendingOfUnrecorded(rest, Versions(files[..k]));
      }
    }
  }

  lemma BehindIsUnrecorded(files: seq<string>, n: nat, k: nat)
    requires HaveDistinctVersions(files) && k <= n <= |files|
    ensures HaveDistinctVersions(files[k..n])
    ensures forall j | 0 <= j < |files[k..n]| :: Version(files[k..n][j]) !in Versions(files[..k])
  {
    forall j | 0 <= j < |files[k..n]| ensures Version(files[k..n][j]) !in Versions(files[..k]) {
      assert files[k..n][j] == files[k + j];
    }
  }

  /** Files with distinct versions, none recorded, are all pending. */
  lemma {:induction false} PendingOfUnrecorded(files: seq<string>, recorded: set<string>)
    requires HaveDistinctVersions(files)
    requires forall j | 0 <= j < |files| :: Version(files[j]) !in recorded
    ensures Pending(files, recorded) == files
  {
    if files != [] {
      forall j | 0 <= j < |files[1..]| ensures Version(files[1..][j]) !in recorded + {Version(files[0])} {
        assert files[1..][j] == files[j + 1];
      }
      PendingOfUnrecorded(files[1..], recorded + {Version(files[0])});
    }
  }

  lemma VersionsOfConcat(a: seq<string>, b: seq<string>)
    ensures Versions(a + b) == Versions(a) + Versions(b)
  {
    assert forall f :: f in a + b <==> f in a || f in b;
  }

  lemma FrontGrows(files: seq<string>, n: nat, k: nat, rest: seq<string>, applied: nat)
    requires n <= |files| && k <= |files| && rest == (if k <= n then files[k..n] else []) && applied <= |rest|
    ensures files[..k] + rest[..applied] == files[..k + applied]
  {
  }

  /** A run of a release that carries the first `n` files, on a database that has the first `k`, leaves a longer
      front of the list, recorded version for version, however many transactions it gets through; a successful
      one leaves all of its own files applied. */
  lemma MigrateExtendsTheFront(files: seq<string>, n: nat, k: nat, applied: nat)
    requires HaveDistinctVersions(files) && n <= |files| && k <= |files|
    requires applied <= |Pending(files[..n], Versions(files[..k]))|
    ensures var pending := Pending(files[..n], Versions(files[..k]));
            var log := files[..k] + pending[..applied];
            && log <= files
            && Versions(files[..k]) + Versions(pending[..applied]) == Versions(log)
            && (applied == |pending| ==> files[..n] <= log)
  {
    PendingAfterPrefix(files, n, k);
    var rest := if k <= n then files[k..n] else [];
    FrontGrows(files, n, k, rest, applied);
    VersionsOfConcat(files[..k], rest[..applied]);
  }

  lemma {:induction false} PendingLeavesOutRecorded(files: seq<string>, recorded: set<string>)
    ensures |Pending(files, recorded)| <= |files|
    ensures (exists j | 0 <= j < |files| :: Version(files[j]) in recorded) || !HaveDistinctVersions(files) ==>
              |Pending(files, recorded)| < |files|
  {
    if files != [] {
      var v := Version(files[0]);
      PendingLeavesOutRecorded(files[1..], if v in recorded then recorded else recorded + {v});
      if v !in recorded {
        if j :| 0 <= j < |files| && Version(files[j]) in recorded {
          assert files[1..][j - 1] == files[j];
        } else if i, j :| 0 <= i < j < |files| && Version(files[i]) == Version(files[j]) {
          if i == 0 {
            assert Version(files[1..][j - 1]) == v;
          } else {
            assert files[1..][i - 1] == files[i] && files[1..][j - 1] == files[j];
          }
        }
      }
    }
  }

  /** A successful first run applies every file exactly when the version prefixes are distinct: of two files with
      one version, the second is skipped for good. */
  lemma FirstRunAppliesAllIff(files: seq<string>)
    ensures Pending(files, {}) == files <==> HaveDistinctVersions(files)
  {
    if HaveDistinctVersions(files) {
      PendingOfUnrecorded(files, {});
    } else {
      PendingLeavesOutRecorded(files, {});
    }
  }

  // ---------- any number of runs ----------

  /** A process that migrates: its binary carries the first `count` files of the release line's list; `next` is
      the file it looks at, `checked` whether it has just found that file's version missing. */
  datatype Runner = Runner(count: nat, next: nat, checked: bool)

  datatype State = State(versions: set<string>, log: seq<string>, runners: map<int, Runner>)

  datatype Step =
    | Start(runner: int, count: nat)
    | Check(runner: int)
    | Apply(runner: int)   // body, version row and commit, or a rollback on the version's primary key
    | Stop(runner: int)    // an error, a crash, or the end

  predicate Next(files: seq<string>, s: State, step: Step, s': State) {
    match step
    case Start(r, count) =>
      r !in s.runners && count <= |files| && s' == s.(runners := s.runners[r := Runner(count, 0, false)])
    case Check(r) =>
      && r in s.runners && !s.runners[r].checked && s.runners[r].next < s.runners[r].count <= |files|
      && var runner := s.runners[r];
         var runner' := if Version(files[runner.next]) in s.versions then runner.(next := runner.next + 1)
                        else runner.(checked := true);
         s' == s.(runners := s.runners[r := runner'])
    case Apply(r) =>
      && r in s.runners && s.runners[r].checked && s.runners[r].next < s.runners[r].count <= |files|
      && var runner := s.runners[r];
         var f := files[runner.next];
         s' == if Version(f) in s.versions then s.(runners := s.runners - {r})
               else State(s.versions + {Version(f)}, s.log + [f],
                          s.runners[r := runner.(next := runner.next + 1, checked := false)])
    case Stop(r) => s' == s.(runners := s.runners - {r})
  }

  /** No runner waits for another: it starts at any time, looks at its next file, applies what it found missing or
      rolls back because the version has been recorded since, and stops. */
  lemma RunnersNeverWait(files: seq<string>, s: State, r: int, count: nat)
    requires count <= |files|
    ensures r !in s.runners ==>
              Next(files, s, Start(r, count), s.(runners := s.runners[r := Runner(count, 0, false)]))
    ensures Next(files, s, Stop(r), s.(runners := s.runners - {r}))
    ensures r in s.runners && s.runners[r].next < s.runners[r].count <= |files| ==>
              var f := files[s.runners[r].next];
              if !s.runners[r].checked then exists s' :: Next(files, s, Check(r), s')
              else if Version(f) in s.versions then Next(files, s, Apply(r), s.(runners := s.runners - {r}))
              else exists s' :: Next(files, s, Apply(r), s') && s'.log == s.log + [f] &&
                                s'.versions == s.versions + {Version(f)}
  {
    if r in s.runners && s.runners[r].next < s.runners[r].count <= |files| {
      var runner := s.runners[r];
      var f := files[runner.next];
      var passed := runner.(next := runner.next + 1, checked := false);
      if !runner.checked {
        var runner' := if Version(f) in s.versions then passed else runner.(checked := true);
        assert Next(files, s, Check(r), s.(runners := s.runners[r := runner']));
      } else if Version(f) !in s.versions {
        assert Next(files, s, Apply(r), State(s.versions + {Version(f)}, s.log + [f], s.runners[r := passed]));
      }
    }
  }

  /** What has been applied is a front of the list, recorded version for version; no runner has passed a file that
      is not applied. */
  predicate Consistent(files: seq<string>, s: State) {
    && s.log <= files && s.versions == Versions(s.log)
    && forall r | r in s.runners :: s.runners[r].count <= |files| && s.runners[r].next <= |s.log|
  }

  lemma RecordedMeansApplied(files: seq<string>, s: State, i: nat)
    requires HaveDistinctVersions(files) && Consistent(files, s) && i < |files|
    ensures Version(files[i]) in s.versions <==> i < |s.log|
  {
    if i < |s.log| {
      assert s.log[i] in s.log;
    } else {
      forall f | f in s.log ensures Version(f) != Version(files[i]) {
        var j :| 0 <= j < |s.log| && s.log[j] == f;
        assert files[j] == f;
      }
    }
  }

  lemma StepKeepsConsistent(files: seq<string>, s: State, step: Step, s': State)
    requires HaveDistinctVersions(files) && Consistent(files, s) && Next(files, s, step, s')
    ensures Consistent(files, s')
  {
    match step
    case Check(r) => RecordedMeansApplied(files, s, s.runners[r].next);
    case Apply(r) =>
      RecordedMeansApplied(files, s, s.runners[r].next);
      VersionsOfAppend(s.log, files[s.runners[r].next]);
    case _ =>
  }

  ghost predicate Path(files: seq<string>, states: seq<State>, steps: seq<Step>) {
    |states| == |steps| + 1 && forall i | 0 <= i < |steps| :: Next(files, states[i], steps[i], states[i + 1])
  }

  ghost predicate Run(files: seq<string>, states: seq<State>, steps: seq<Step>) {
    Path(files, states, steps) && states[0] == State({}, [], map[])
  }

  lemma PathFrom(files: seq<string>, s: State, step: Step, states: seq<State>, steps: seq<Step>)
    requires Path(files, states, steps) && Next(files, s, step, states[0])
    ensures Path(files, [s] + states, [step] + steps)
    ensures ([s] + states)[|steps| + 1] == states[|steps|]
    ensures ([s] + states)[|steps|] == if steps == [] then s else states[|steps| - 1]
  {
  }

  /** What a call of `Migrate` leaves, as its contract says. */
  function Migrated(s: State, pending: seq<string>, applied: nat): State
    requires applied <= |pending|
  {
    State(s.versions + Versions(pending[..applied]), s.log + pending[..applied], s.runners)
  }

  /** A path by which one runner, with nothing between its steps, applies the first `applied` of its pending files and
      stops, at the end of its list if `ok`. */
  ghost predicate Finishes(files: seq<string>, s: State, r: int, n: nat, pending: seq<string>, applied: nat, ok: bool,
                           states: seq<State>, steps: seq<Step>)
  {
    && applied <= |pending| && Path(files, states, steps) && states[0] == s
    && (forall step | step in steps :: step.runner == r)
    && states[|steps|] == Migrated(s, pending, applied).(runners := s.runners - {r})
    && (ok ==> 0 < |steps| && r in states[|steps| - 1].runners && states[|steps| - 1].runners[r] == Runner(n, n, false))
  }

  lemma MovesOn(files: seq<string>, s: State, step: Step, r: int, n: nat, pending: seq<string>, applied: nat, ok: bool,
                states: seq<State>, steps: seq<Step>)
    requires Path(files, states, steps) && Finishes(files, states[0], r, n, pending, applied, ok, states, steps)
    requires Next(files, s, step, states[0]) && step.runner == r
    requires states[0].versions == s.versions && states[0].log == s.log && states[0].runners - {r} == s.runners - {r}
    ensures Finishes(files, s, r, n, pending, applied, ok, [s] + states, [step] + steps)
  {
    PathFrom(files, s, step, states, steps);
  }

  lemma AppliesOneMore(files: seq<string>, s: State, r: int, n: nat, f: string, pending: seq<string>, applied: nat,
                       ok: bool, states: seq<State>, steps: seq<Step>)
    requires Path(files, states, steps) && Finishes(files, states[0], r, n, pending, applied, ok, states, steps)
    requires Next(files, s, Apply(r), states[0]) && states[0].runners - {r} == s.runners - {r}
    requires states[0].versions == s.versions + {Version(f)} && states[0].log == s.log + [f]
    ensures Finishes(files, s, r, n, [f] + pending, applied + 1, ok, [s] + states, [Apply(r)] + steps)
  {
    var rest := pending[..applied];
    PathFrom(files, s, Apply(r), states, steps);
    assert ([f] + pending)[..applied + 1] == [f] + rest;
    VersionsOfConcat([f], rest);
    Collections.ConcatAssociates(s.log, [f], rest);
  }

  lemma LooksAndApplies(files: seq<string>, s: State, r: int, n: nat, i: nat, pending: seq<string>, applied: nat,
                        ok: bool, states: seq<State>, steps: seq<Step>)
    returns (states': seq<State>, steps': seq<Step>)
    requires i < n <= |files| && r in s.runners && s.runners[r] == Runner(n, i, false)
    requires Version(files[i]) !in s.versions
    requires var f := files[i];
             Finishes(files, State(s.versions + {Version(f)}, s.log + [f], s.runners[r := Runner(n, i + 1, false)]),
                      r, n, pending, applied, ok, states, steps)
    ensures Finishes(files, s, r, n, [files[i]] + pending, applied + 1, ok, states', steps')
  {
    var looked := s.(runners := s.runners[r := Runner(n, i, true)]);
    AppliesOneMore(files, looked, r, n, files[i], pending, applied, ok, states, steps);
    states', steps' := [looked] + states, [Apply(r)] + steps;
    MovesOn(files, s, Check(r), r, n, [files[i]] + pending, applied + 1, ok, states', steps');
    states', steps' := [s] + states', [Check(r)] + steps';
  }

  lemma {:induction false} RunnerGoesOn(files: seq<string>, s: State, r: int, n: nat, i: nat, applied: nat, ok: bool)
    returns (states: seq<State>, steps: seq<Step>)
    requires i <= n <= |files| && r in s.runners && s.runners[r] == Runner(n, i, false)
    requires applied <= |Pending(files[i..n], s.versions)|
    requires ok ==> applied == |Pending(files[i..n], s.versions)|
    ensures Finishes(files, s, r, n, Pending(files[i..n], s.versions), applied, ok, states, steps)
    decreases n - i
  {
    if i == n || (applied == 0 && !ok) {
      states, steps := [s, s.(runners := s.runners - {r})], [Stop(r)];
    } else {
      var f, pending := files[i], Pending(files[i..n], s.versions);
      assert files[i..n][0] == f && files[i..n][1..] == files[i + 1..n];
      if Version(f) in s.versions {
        var s' := s.(runners := s.runners[r := Runner(n, i + 1, false)]);
        states, steps := RunnerGoesOn(files, s', r, n, i + 1, applied, ok);
        MovesOn(files, s, Check(r), r, n, pending, applied, ok, states, steps);
        states, steps := [s] + states, [Check(r)] + steps;
      } else {
        var s' := State(s.versions + {Version(f)}, s.log + [f], s.runners[r := Runner(n, i + 1, false)]);
        states, steps := RunnerGoesOn(files, s', r, n, i + 1, applied - 1, ok);
        states, steps := LooksAndApplies(files, s, r, n, i, pending[1..], applied - 1, ok, states, steps);
      }
    }
  }

  /** Whatever a call of `Migrate` does, it is a run of the statements of one runner with nothing between them; when
      the call succeeds, the runner has got to the end of its list. */
  lemma MigrateIsAPath(files: seq<string>, s: State, r: int, n: nat, applied: nat, ok: bool)
    returns (states: seq<State>, steps: seq<Step>)
    requires r !in s.runners && n <= |files| && applied <= |Pending(files[..n], s.versions)|
    requires ok ==> applied == |Pending(files[..n], s.versions)|
    ensures Finishes(files, s, r, n, Pending(files[..n], s.versions), applied, ok, states, steps)
    ensures states[|steps|] == Migrated(s, Pending(files[..n], s.versions), applied)
  {
    var s' := s.(runners := s.runners[r := Runner(n, 0, false)]);
    assert files[0..n] == files[..n];
    states, steps := RunnerGoesOn(files, s', r, n, 0, applied, ok);
    MovesOn(files, s, Start(r, n), r, n, Pending(files[..n], s.versions), applied, ok, states, steps);
    states, steps := [s] + states, [Start(r, n)] + steps;
    assert s.runners - {r} == s.runners;
  }

  lemma {:induction false} RunsAreConsistent(files: seq<string>, states: seq<State>, steps: seq<Step>)
    requires HaveDistinctVersions(files) && Run(files, states, steps)
    ensures forall s | s in states :: Consistent(files, s)
  {
    if steps == [] {
    } else {
      var n := |steps| - 1;
      RunsAreConsistent(files, states[..n + 1], steps[..n]);
      assert states[n] in states[..n + 1];
      StepKeepsConsistent(files, states[n], steps[n], states[n + 1]);
      assert states == states[..n + 1] + [states[n + 1]];
    }
  }

  /** Exactly once and in order: whatever runs of whatever releases start, fail, crash and overlap, the committed
      bodies are a front of the sorted list, each file once, the recorded versions are theirs, and a runner that
      has reached the end of its list leaves all of it applied. */
  lemma MigrationsApplyOnceInOrder(files: seq<string>, states: seq<State>, steps: seq<Step>, i: nat)
    requires HaveDistinctVersions(files) && Run(files, states, steps) && i < |states|
    ensures var s := states[i];
            && s.log <= files && s.versions == Versions(s.log)
            && (forall a, b | 0 <= a < b < |s.log| :: s.log[a] != s.log[b])
            && (forall r | r in s.runners && s.runners[r].next == s.runners[r].count ::
                  s.runners[r].count <= |s.log|)
  {
    RunsAreConsistent(files, states, steps);
    assert states[i] in states;
    var s := states[i];
    forall a, b | 0 <= a < b < |s.log| ensures s.log[a] != s.log[b] {
      assert s.log[a] == files[a] && s.log[b] == files[b];
    }
  }

  /** The order of a release line: what has been committed in any run over the sorted files ascends. */
  lemma CommittedBodiesAscend(entries: seq<Entry>, states: seq<State>, steps: seq<Step>, i: nat)
    requires var files := Sorted(SqlFiles(entries));
             HaveDistinctVersions(files) && Run(files, states, steps) && i < |states|
    ensures Ascends(states[i].log)
    ensures forall f | f in states[i].log :: Entry(f, false) in entries && |f| >= 4 && f[|f| - 4..] == ".sql"
  {
    var files, log := Sorted(SqlFiles(entries)), states[i].log;
    MigrationsApplyOnceInOrder(files, states, steps, i);
    forall a, b | 0 <= a < b < |log| ensures ComesBefore(log[a], log[b]) {
      SortedAscends(SqlFiles(entries), a, b);
    }
    forall f | f in log ensures Entry(f, false) in entries && |f| >= 4 && f[|f| - 4..] == ".sql" {
      assert f in files;
      SqlFilesIff(entries, f);
    }
  }
}
