/** The migration runner as a crash-restart protocol: backend/app/migration_runner.py.
    A script and the row that records it are two commits, and the process can stop between any two.
    A script can raise; the runner then re-raises, and the start has failed. */
module Migrations {
  import opened Prelude

  /** A .sql file: its stem, and what executing it does to the data; None when it raises. */
  datatype Script<!D> = Script(version: string, run: D -> Option<D>)

  /** The application's tables, and the rows of schema_migrations in insertion order. */
  datatype Contents<D> = Contents(data: D, recorded: seq<string>)

  /** How one start of the application ends. */
  datatype Outcome = Completed | Crashed | Raised

  function Versions<D>(files: seq<Script<D>>): set<string> {
    set i | 0 <= i < |files| :: files[i].version
  }

  /** File names in one directory are distinct, so their stems are. */
  ghost predicate Distinct<D>(files: seq<Script<D>>) {
    forall i, j :: 0 <= i < j < |files| ==> files[i].version != files[j].version
  }

  ghost predicate NoRepeats(recorded: seq<string>) {
    forall i, j :: 0 <= i < j < |recorded| ==> recorded[i] != recorded[j]
  }

  function Names<D>(files: seq<Script<D>>): seq<string> {
    seq(|files|, i requires 0 <= i < |files| => files[i].version)
  }

  /** The loop over the sorted files with room for `commits` more commits before the process stops. */
  function Resume<D>(db: Contents<D>, files: seq<Script<D>>, applied: set<string>, commits: nat): Contents<D>
    decreases |files|
  {
    if files == [] then db
    else if files[0].version in applied then Resume(db, files[1..], applied, commits)
    else if commits == 0 then db
    else
      var executed := files[0].run(db.data);
      if executed.None? then db
      else if commits == 1 then Contents(executed.value, db.recorded)
      else Resume(Contents(executed.value, db.recorded + [files[0].version]), files[1..], applied, commits - 2)
  }

  lemma {:induction false} ResumeSkips<D>(db: Contents<D>, files: seq<Script<D>>, k: nat, m: nat,
                                          applied: set<string>, commits: nat)
    requires k < m <= |files| && files[k].version in applied
    ensures Resume(db, files[k..m], applied, commits) == Resume(db, files[k + 1..m], applied, commits)
  {
    assert files[k..m][0] == files[k] && files[k..m][1..] == files[k + 1..m];
  }

  lemma {:induction false} ResumeStops<D>(db: Contents<D>, files: seq<Script<D>>, k: nat, m: nat,
                                          applied: set<string>, commits: nat)
    requires k <= m <= |files|
    requires k < m ==> files[k].version !in applied && (commits == 0 || files[k].run(db.data).None?)
    ensures Resume(db, files[k..m], applied, commits) == db
  {
  }

  lemma {:induction false} ResumeCrashes<D>(db: Contents<D>, files: seq<Script<D>>, k: nat, m: nat,
                                            applied: set<string>)
    requires k < m <= |files| && files[k].version !in applied && files[k].run(db.data).Some?
    ensures Resume(db, files[k..m], applied, 1) == Contents(files[k].run(db.data).value, db.recorded)
  {
    assert files[k..m][0] == files[k];
  }

  /** The database after executing and recording one script. */
  function Applied<D>(db: Contents<D>, script: Script<D>): Contents<D>
    requires script.run(db.data).Some?
  {
    Contents(script.run(db.data).value, db.recorded + [script.version])
  }

  lemma {:induction false} ResumeApplies<D>(db: Contents<D>, files: seq<Script<D>>, k: nat, m: nat,
                                            applied: set<string>, commits: nat)
    requires k < m <= |files| && files[k].version !in applied && files[k].run(db.data).Some? && commits >= 2
    ensures Resume(db, files[k..m], applied, commits)
         == Resume(Applied(db, files[k]), files[k + 1..m], applied, commits - 2)
  {
    assert files[k..m][0] == files[k] && files[k..m][1..] == files[k + 1..m];
  }

  function Listed(recorded: seq<string>): set<string> {
    set version | version in recorded
  }

  function Recorded<D>(db: Contents<D>): set<string> {
    Listed(db.recorded)
  }

  lemma VersionsSnoc<D>(files: seq<Script<D>>, i: nat)
    requires i < |files|
    ensures Versions(files[..i + 1]) == Versions(files[..i]) + {files[i].version}
  {
    var all, before := files[..i + 1], files[..i];
    forall version
      ensures version in Versions(all) <==> version in Versions(before) + {files[i].version}
    {
      if version in Versions(before) {
        var j :| 0 <= j < i && before[j].version == version;
        assert all[j].version == version;
      }
      if version == files[i].version {
        assert all[i].version == version;
      }
      if version in Versions(all) {
        var j :| 0 <= j < i + 1 && all[j].version == version;
        assert j < i ==> before[j].version == version;
      }
    }
  }

  /** The rows are those found at the start and the files passed so far. */
  ghost predicate Tracks<D>(recorded: seq<string>, applied: set<string>, files: seq<Script<D>>, i: nat)
    requires i <= |files|
  {
    Listed(recorded) == applied + Versions(files[..i])
  }

  lemma TracksNext<D>(recorded: seq<string>, applied: set<string>, files: seq<Script<D>>, i: nat)
    requires Distinct(files) && i < |files| && Tracks(recorded, applied, files, i)
    ensures files[i].version in applied ==> Tracks(recorded, applied, files, i + 1)
    ensures files[i].version !in applied
        ==> files[i].version !in recorded && Tracks(recorded + [files[i].version], applied, files, i + 1)
    ensures files[i].version !in applied && NoRepeats(recorded) ==> NoRepeats(recorded + [files[i].version])
  {
    var version := files[i].version;
    VersionsSnoc(files, i);
    assert Listed(recorded + [version]) == Listed(recorded) + {version};
    assert version !in Versions(files[..i]);
    assert version in recorded <==> version in Listed(recorded);
  }

  lemma NotAllRecorded<D>(recorded: seq<string>, files: seq<Script<D>>, i: nat)
    requires i < |files| && files[i].version !in recorded
    ensures !(Versions(files) <= Listed(recorded))
  {
    assert files[i].version in Versions(files);
  }

  /** What one iteration of the loop makes of the calls still to come, whatever branch it takes. */
  lemma {:induction false} LoopStep<D>(db: Contents<D>, files: seq<Script<D>>, i: nat, applied: set<string>, left: nat)
    requires i < |files|
    ensures files[i].version in applied
        ==> Resume(db, files[i..], applied, left) == Resume(db, files[i + 1..], applied, left)
    ensures files[i].version !in applied && (left == 0 || files[i].run(db.data).None?)
        ==> Resume(db, files[i..], applied, left) == db
    ensures files[i].version !in applied && files[i].run(db.data).Some? && left == 1
        ==> Resume(db, files[i..], applied, left) == Contents(files[i].run(db.data).value, db.recorded)
    ensures files[i].version !in applied && files[i].run(db.data).Some? && left >= 2
        ==> Resume(db, files[i..], applied, left) == Resume(Applied(db, files[i]), files[i + 1..], applied, left - 2)
  {
    var n := |files|;
    assert files[i..] == files[i..n] && files[i + 1..] == files[i + 1..n];
    if files[i].version in applied {
      ResumeSkips(db, files, i, n, applied, left);
    } else if left == 0 || files[i].run(db.data).None? {
      ResumeStops(db, files, i, n, applied, left);
    } else if left == 1 {
      ResumeCrashes(db, files, i, n, applied);
    } else {
      ResumeApplies(db, files, i, n, applied, left);
    }
  }

  class Database<D> {
    var data: D
    var recorded: seq<string>

    function View(): Contents<D>
      reads this
    {
      Contents(data, recorded)
    }

    constructor (data: D)
      ensures View() == Contents(data, [])
    {
      this.data := data;
      recorded := [];
    }

    /** run_migrations; `commits` is how many commits happen before a crash, if one happens at all. */
    method RunMigrations(files: seq<Script<D>>, commits: nat) returns (outcome: Outcome, appliedCount: nat)
      requires Distinct(files)
      modifies this
      ensures View() == Resume(old(View()), files, Recorded(old(View())), commits)
      ensures outcome.Completed? <==> Versions(files) <= Listed(recorded)
      ensures outcome.Raised? ==> exists script <- files :: script.version !in recorded && script.run(data).None?
      ensures outcome.Crashed? ==> commits <= 2 * appliedCount + 1
      ensures |recorded| == |old(recorded)| + appliedCount
      ensures NoRepeats(old(recorded)) ==> NoRepeats(recorded)
    {
      var applied := Listed(recorded);
      var left: nat := commits;
      appliedCount := 0;
      for i := 0 to |files|
        invariant Resume(View(), files[i..], applied, left) == Resume(old(View()), files, applied, commits)
        invariant applied == Recorded(old(View()))
        invariant Tracks(recorded, applied, files, i)
        invariant left + 2 * appliedCount == commits
        invariant |recorded| == |old(recorded)| + appliedCount
        invariant NoRepeats(old(recorded)) ==> NoRepeats(recorded)
      {
        LoopStep(View(), files, i, applied, left);
        TracksNext(recorded, applied, files, i);
        var script := files[i];
        if script.version !in applied {
          NotAllRecorded(recorded, files, i);
          if left == 0 {
            return Crashed, appliedCount;
          }
          var executed := script.run(data);
          if executed.None? {
            return Raised, appliedCount;
          }
          data := executed.value;
          if left == 1 {
            return Crashed, appliedCount;
          }
          recorded := recorded + [script.version];
          left := left - 2;
          appliedCount := appliedCount + 1;
        }
      }
      assert files[..|files|] == files;
      return Completed, appliedCount;
    }
  }

  // ---------- starts and crashes ----------

  /** One start of the application: the first m files exist, and at most `commits` commits happen. */
  datatype Boot = Boot(m: nat, commits: nat)

  function BootAll<D>(start: D, files: seq<Script<D>>, boots: seq<Boot>): Contents<D>
    requires forall boot <- boots :: boot.m <= |files|
  {
    if boots == [] then Contents(start, [])
    else
      var db, boot := BootAll(start, files, boots[..|boots| - 1]), boots[|boots| - 1];
      Resume(db, files[..boot.m], Recorded(db), boot.commits)
  }

  /** Files are only ever added after the existing ones. */
  ghost predicate Growing(boots: seq<Boot>, files: nat) {
    && (forall boot <- boots :: boot.m <= files)
    && (forall i, j :: 0 <= i < j < |boots| ==> boots[i].m <= boots[j].m)
  }

  /** The last start was not cut short: it completed, or a script raised. */
  ghost predicate EndsUncut(boots: seq<Boot>) {
    boots != [] && boots[|boots| - 1].commits >= 2 * boots[|boots| - 1].m
  }

  /** Nothing is left to do, or the next script raises. */
  predicate Halted<D>(db: Contents<D>, files: seq<Script<D>>, m: nat, k: nat)
    requires k <= m <= |files|
  {
    k == m || files[k].run(db.data).None?
  }

  lemma NamesAreVersions<D>(files: seq<Script<D>>)
    ensures Listed(Names(files)) == Versions(files)
  {
    forall version
      ensures version in Names(files) <==> version in Versions(files)
    {
      if version in Versions(files) {
        var i :| 0 <= i < |files| && files[i].version == version;
        assert Names(files)[i] == version;
      }
    }
  }

  lemma {:induction false} SkipApplied<D>(db: Contents<D>, files: seq<Script<D>>, m: nat, i: nat, k: nat, commits: nat)
    requires i <= k <= m <= |files|
    ensures Resume(db, files[i..m], Versions(files[..k]), commits)
         == Resume(db, files[k..m], Versions(files[..k]), commits)
    decreases k - i
  {
    if i < k {
      assert files[..k][i] == files[i];
      ResumeSkips(db, files, i, m, Versions(files[..k]), commits);
      SkipApplied(db, files, m, i + 1, k, commits);
    }
  }

  /** A start that finds the first k versions recorded begins its work at file k. */
  lemma {:induction false} StartsAt<D>(db: Contents<D>, files: seq<Script<D>>, m: nat, k: nat, commits: nat)
    requires Distinct(files) && k <= m <= |files| && db.recorded == Names(files[..k])
    ensures Resume(db, files[..m], Recorded(db), commits) == Resume(db, files[k..m], Versions(files[..k]), commits)
    ensures forall i :: k <= i < m ==> files[i].version !in Versions(files[..k])
  {
    NamesAreVersions(files[..k]);
    assert files[0..m] == files[..m];
    SkipApplied(db, files, m, 0, k, commits);
  }

  // ---------- what is recorded, whatever the scripts do ----------

  lemma {:induction false} ResumeRecords<D>(db: Contents<D>, files: seq<Script<D>>, m: nat, k: nat,
                                            applied: set<string>, commits: nat) returns (k': nat)
    requires k <= m <= |files| && db.recorded == Names(files[..k])
    requires forall i :: k <= i < m ==> files[i].version !in applied
    ensures k <= k' <= m && Resume(db, files[k..m], applied, commits).recorded == Names(files[..k'])
    ensures commits >= 2 * (m - k) ==> Halted(Resume(db, files[k..m], applied, commits), files, m, k')
    decreases m - k
  {
    if k == m || commits == 0 || files[k].run(db.data).None? {
      ResumeStops(db, files, k, m, applied, commits);
      return k;
    }
    if commits == 1 {
      ResumeCrashes(db, files, k, m, applied);
      return k;
    }
    ResumeApplies(db, files, k, m, applied, commits);
    NamesNext(files, k);
    k' := ResumeRecords(Applied(db, files[k]), files, m, k + 1, applied, commits - 2);
  }

  lemma NamesNext<D>(files: seq<Script<D>>, k: nat)
    requires k < |files|
    ensures Names(files[..k + 1]) == Names(files[..k]) + [files[k].version]
  {
  }

  lemma {:induction false} BootsRecord<D>(start: D, files: seq<Script<D>>, boots: seq<Boot>) returns (k: nat)
    requires Distinct(files) && Growing(boots, |files|)
    ensures k <= |files| && BootAll(start, files, boots).recorded == Names(files[..k])
    ensures boots == [] ==> k == 0
    ensures boots != [] ==> k <= boots[|boots| - 1].m
    ensures EndsUncut(boots) ==> Halted(BootAll(start, files, boots), files, boots[|boots| - 1].m, k)
  {
    if boots == [] {
      return 0;
    }
    var n := |boots| - 1;
    var rest, boot := boots[..n], boots[n];
    k := BootsRecord(start, files, rest);
    assert rest != [] ==> rest[n - 1].m <= boot.m;
    var db := BootAll(start, files, rest);
    StartsAt(db, files, boot.m, k, boot.commits);
    k := ResumeRecords(db, files, boot.m, k, Versions(files[..k]), boot.commits);
  }

  /** After any number of starts, crashes and raising scripts, with files added on the way: what is
      recorded is a prefix of the sorted list, each version once. */
  lemma {:induction false} RecordedIsPrefix<D>(start: D, files: seq<Script<D>>, boots: seq<Boot>)
    requires Distinct(files) && Growing(boots, |files|)
    ensures BootAll(start, files, boots).recorded <= Names(files)
    ensures NoRepeats(BootAll(start, files, boots).recorded)
  {
    var k := BootsRecord(start, files, boots);
    assert Names(files[..k]) == Names(files)[..k];
  }

  /** After a start that was not cut short, all its files are recorded or the next one raises; either
      way another start with the same files changes nothing, wherever it is cut. */
  lemma NextStartIsIdle<D>(start: D, files: seq<Script<D>>, boots: seq<Boot>, commits: nat)
    requires Distinct(files) && Growing(boots, |files|) && EndsUncut(boots)
    ensures var db, m := BootAll(start, files, boots), boots[|boots| - 1].m;
      && (exists k :: 0 <= k <= m && db.recorded == Names(files[..k]) && Halted(db, files, m, k))
      && Resume(db, files[..m], Recorded(db), commits) == db
  {
    var k := BootsRecord(start, files, boots);
    var db, m := BootAll(start, files, boots), boots[|boots| - 1].m;
    StartsAt(db, files, m, k, commits);
    ResumeStops(db, files, k, m, Versions(files[..k]), commits);
  }

  // ---------- what the data is ----------

  /** One in-order run of every script; None when one raises. */
  function Clean<D>(files: seq<Script<D>>, start: D): Option<D> {
    if files == [] then Some(start)
    else
      var before := Clean(files[..|files| - 1], start);
      if before.None? then None else files[|files| - 1].run(before.value)
  }

  lemma CleanNext<D>(files: seq<Script<D>>, start: D, k: nat)
    requires k < |files|
    ensures Clean(files[..k + 1], start)
         == if Clean(files[..k], start).None? then None else files[k].run(Clean(files[..k], start).value)
  {
    assert files[..k + 1][..k] == files[..k];
  }

  lemma {:induction false} CleanPrefix<D>(files: seq<Script<D>>, start: D, i: nat, j: nat)
    requires i <= j <= |files| && Clean(files[..j], start).Some?
    ensures Clean(files[..i], start).Some?
    decreases j
  {
    if i < j {
      CleanNext(files, start, j - 1);
      CleanPrefix(files, start, i, j - 1);
    }
  }

  /** Executing script i again, right after it, succeeds and changes nothing. */
  ghost predicate Repeats<D>(files: seq<Script<D>>, start: D, i: nat)
    requires i < |files|
  {
    var done := Clean(files[..i + 1], start);
    done.Some? ==> files[i].run(done.value) == done
  }

  ghost predicate RepeatSafe<D>(files: seq<Script<D>>, start: D) {
    forall i :: 0 <= i < |files| ==> Repeats(files, start, i)
  }

  lemma {:induction false} IdempotentIsRepeatSafe<D(!new)>(files: seq<Script<D>>, start: D)
    requires forall i, d: D :: 0 <= i < |files| && files[i].run(d).Some? ==>
      files[i].run(files[i].run(d).value) == files[i].run(d)
    ensures RepeatSafe(files, start)
  {
    forall i | 0 <= i < |files|
      ensures Repeats(files, start, i)
    {
      CleanNext(files, start, i);
    }
  }

  /** The first k versions are recorded; the next script may have been executed unrecorded. */
  ghost predicate At<D>(db: Contents<D>, files: seq<Script<D>>, start: D, k: nat, unrecorded: bool) {
    && k + (if unrecorded then 1 else 0) <= |files|
    && db.recorded == Names(files[..k])
    && Clean(files[..k + if unrecorded then 1 else 0], start) == Some(db.data)
  }

  /** Executing script k from either position does what it does in a clean run. */
  lemma ExecuteOnce<D>(files: seq<Script<D>>, start: D, k: nat, unrecorded: bool, data: D)
    requires RepeatSafe(files, start) && k < |files|
    requires Clean(files[..k + if unrecorded then 1 else 0], start) == Some(data)
    ensures files[k].run(data) == Clean(files[..k + 1], start)
  {
    assert Repeats(files, start, k);
    CleanNext(files, start, k);
  }

  /** A script executed but not recorded can be executed again. */
  lemma {:induction false} ExecutesAgain<D>(db: Contents<D>, files: seq<Script<D>>, start: D, k: nat)
    requires RepeatSafe(files, start) && At(db, files, start, k, true)
    ensures files[k].run(db.data).Some?
  {
    ExecuteOnce(files, start, k, true, db.data);
  }

  /** One script that is not applied yet, from the commits left to the position after it. */
  lemma {:induction false} ResumeNext<D>(db: Contents<D>, files: seq<Script<D>>, start: D, m: nat,
                      k: nat, unrecorded: bool, applied: set<string>, commits: nat)
    requires RepeatSafe(files, start) && k < m <= |files| && files[k].version !in applied
    requires At(db, files, start, k, unrecorded) && files[k].run(db.data).Some?
    ensures At(Applied(db, files[k]), files, start, k + 1, false)
    ensures commits == 1 ==> At(Resume(db, files[k..m], applied, commits), files, start, k, true)
    ensures commits >= 2 ==>
      Resume(db, files[k..m], applied, commits) == Resume(Applied(db, files[k]), files[k + 1..m], applied, commits - 2)
  {
    ExecuteOnce(files, start, k, unrecorded, db.data);
    NamesNext(files, k);
    if commits == 1 {
      ResumeCrashes(db, files, k, m, applied);
    } else if commits >= 2 {
      ResumeApplies(db, files, k, m, applied, commits);
    }
  }

  /** From "the first k recorded, the next perhaps executed", any number of commits stays in such a
      position, and enough of them reach the end or a script that raises. */
  lemma {:induction false} ResumeKeeps<D>(db: Contents<D>, files: seq<Script<D>>, start: D, m: nat,
                                          k: nat, unrecorded: bool, applied: set<string>, commits: nat)
    returns (k': nat, unrecorded': bool)
    requires RepeatSafe(files, start) && k <= m <= |files|
    requires forall i :: k <= i < m ==> files[i].version !in applied
    requires unrecorded ==> k < m
    requires At(db, files, start, k, unrecorded)
    ensures k <= k' && k' + (if unrecorded' then 1 else 0) <= m
    ensures At(Resume(db, files[k..m], applied, commits), files, start, k', unrecorded')
    ensures commits >= 2 * (m - k)
        ==> !unrecorded' && Halted(Resume(db, files[k..m], applied, commits), files, m, k')
    decreases m - k
  {
    if unrecorded {
      ExecutesAgain(db, files, start, k);
    }
    if k == m || commits == 0 || files[k].run(db.data).None? {
      ResumeStops(db, files, k, m, applied, commits);
      return k, unrecorded;
    }
    ResumeNext(db, files, start, m, k, unrecorded, applied, commits);
    if commits == 1 {
      return k, true;
    }
    k', unrecorded' := ResumeKeeps(Applied(db, files[k]), files, start, m, k + 1, false, applied, commits - 2);
  }

  lemma {:induction false} BootsKeep<D>(start: D, files: seq<Script<D>>, boots: seq<Boot>)
    returns (k: nat, unrecorded: bool)
    requires Distinct(files) && RepeatSafe(files, start) && Growing(boots, |files|)
    ensures At(BootAll(start, files, boots), files, start, k, unrecorded)
    ensures boots == [] ==> k == 0 && !unrecorded
    ensures boots != [] ==> k + (if unrecorded then 1 else 0) <= boots[|boots| - 1].m
    ensures EndsUncut(boots) ==> !unrecorded && Halted(BootAll(start, files, boots), files, boots[|boots| - 1].m, k)
  {
    if boots == [] {
      return 0, false;
    }
    var n := |boots| - 1;
    var rest, boot := boots[..n], boots[n];
    k, unrecorded := BootsKeep(start, files, rest);
    assert rest != [] ==> rest[n - 1].m <= boot.m;
    var db := BootAll(start, files, rest);
    StartsAt(db, files, boot.m, k, boot.commits);
    k, unrecorded := ResumeKeeps(db, files, start, boot.m, k, unrecorded, Versions(files[..k]), boot.commits);
  }

  /** There is one place to halt. */
  lemma HaltIsUnique<D>(files: seq<Script<D>>, start: D, m: nat, db: Contents<D>, k: nat, db': Contents<D>, k': nat)
    requires k <= k' <= m <= |files|
    requires At(db, files, start, k, false) && Halted(db, files, m, k) && At(db', files, start, k', false)
    ensures db == db'
  {
    if k < k' {
      CleanPrefix(files, start, k + 1, k');
      CleanNext(files, start, k);
    }
  }

  /** What one start from nothing with the first m files leaves when it is not cut short. */
  function Uninterrupted<D>(start: D, files: seq<Script<D>>, m: nat): Contents<D>
    requires m <= |files|
  {
    BootAll(start, files, [Boot(m, 2 * m)])
  }

  /** One uncut start at the end makes up for every crash before it: data and records are those of a
      database that was never interrupted. */
  lemma {:induction false} UncutRunRepairs<D>(start: D, files: seq<Script<D>>, boots: seq<Boot>)
    requires Distinct(files) && RepeatSafe(files, start) && Growing(boots, |files|) && EndsUncut(boots)
    ensures BootAll(start, files, boots) == Uninterrupted(start, files, boots[|boots| - 1].m)
  {
    var m := boots[|boots| - 1].m;
    var k, _ := BootsKeep(start, files, boots);
    var k', _ := BootsKeep(start, files, [Boot(m, 2 * m)]);
    var db, db' := BootAll(start, files, boots), Uninterrupted(start, files, m);
    if k <= k' {
      HaltIsUnique(files, start, m, db, k, db', k');
    } else {
      HaltIsUnique(files, start, m, db', k', db, k);
    }
  }

  /** Whatever crashes came before, an uncut start repairs them. */
  ghost predicate AlwaysRepairs<D>(files: seq<Script<D>>, start: D) {
    forall boots: seq<Boot> | Growing(boots, |files|) && EndsUncut(boots) ::
      BootAll(start, files, boots) == Uninterrupted(start, files, boots[|boots| - 1].m)
  }

  // ---------- a crash between a script and its record ----------

  /** The database after executing and recording the first k scripts. */
  ghost predicate Settled<D>(db: Contents<D>, files: seq<Script<D>>, start: D, k: nat) {
    k <= |files| && db.recorded == Names(files[..k]) && Clean(files[..k], start) == Some(db.data)
  }

  lemma {:induction false} SettledNext<D>(db: Contents<D>, files: seq<Script<D>>, start: D, k: nat)
    requires k < |files| && Settled(db, files, start, k) && Clean(files[..k + 1], start).Some?
    ensures files[k].run(db.data).Some? && Settled(Applied(db, files[k]), files, start, k + 1)
  {
    CleanNext(files, start, k);
    NamesNext(files, k);
  }

  lemma {:induction false} CleanRun<D>(db: Contents<D>, files: seq<Script<D>>, start: D,
                                       k: nat, i: nat, m: nat, commits: nat) returns (db': Contents<D>)
    requires k <= i <= m <= |files| && Settled(db, files, start, k) && Clean(files[..i], start).Some?
    requires commits >= 2 * (i - k)
    ensures Settled(db', files, start, i)
    ensures Resume(db, files[k..m], {}, commits) == Resume(db', files[i..m], {}, commits - 2 * (i - k))
    decreases i - k
  {
    if k == i {
      return db;
    }
    CleanPrefix(files, start, k + 1, i);
    SettledNext(db, files, start, k);
    ResumeApplies(db, files, k, m, {}, commits);
    db' := CleanRun(Applied(db, files[k]), files, start, k + 1, i, m, commits - 2);
  }

  /** The first start, which stops right after executing script i. */
  function CrashAt(i: nat): Boot {
    Boot(i + 1, 2 * i + 1)
  }

  lemma {:induction false} FirstBoot<D>(start: D, files: seq<Script<D>>, boot: Boot)
    requires boot.m <= |files|
    ensures BootAll(start, files, [boot]) == Resume(Contents(start, []), files[0..boot.m], {}, boot.commits)
  {
    assert [boot][..0] == [] && files[0..boot.m] == files[..boot.m];
    assert Listed([]) == {};
  }

  lemma {:induction false} CrashLeaves<D>(files: seq<Script<D>>, start: D, i: nat)
    requires i < |files| && Clean(files[..i + 1], start).Some?
    ensures BootAll(start, files, [CrashAt(i)]) == Contents(Clean(files[..i + 1], start).value, Names(files[..i]))
  {
    CleanPrefix(files, start, i, i + 1);
    CleanNext(files, start, i);
    FirstBoot(start, files, CrashAt(i));
    assert files[..0] == [];
    var db := CleanRun(Contents(start, []), files, start, 0, i, i + 1, 2 * i + 1);
    ResumeCrashes(db, files, i, i + 1, {});
  }

  lemma UninterruptedReaches<D>(files: seq<Script<D>>, start: D, m: nat)
    requires m <= |files| && Clean(files[..m], start).Some?
    ensures Uninterrupted(start, files, m) == Contents(Clean(files[..m], start).value, Names(files[..m]))
  {
    FirstBoot(start, files, Boot(m, 2 * m));
    assert files[..0] == [];
    var db := CleanRun(Contents(start, []), files, start, 0, m, m, 2 * m);
    ResumeStops(db, files, m, m, {}, 0);
  }

  /** The start after that crash, with room to record: script i is executed a second time. */
  lemma {:induction false} SecondExecution<D>(files: seq<Script<D>>, start: D, i: nat, commits: nat)
    requires Distinct(files) && i < |files| && Clean(files[..i + 1], start).Some? && commits >= 2
    ensures var db := BootAll(start, files, [CrashAt(i)]);
      BootAll(start, files, [CrashAt(i), Boot(i + 1, commits)])
        == if files[i].run(db.data).None? then db else Applied(db, files[i])
  {
    var db := BootAll(start, files, [CrashAt(i)]);
    CrashLeaves(files, start, i);
    assert [CrashAt(i), Boot(i + 1, commits)][..1] == [CrashAt(i)];
    StartsAt(db, files, i + 1, i, commits);
    var applied := Versions(files[..i]);
    if files[i].run(db.data).None? {
      ResumeStops(db, files, i, i + 1, applied, commits);
    } else {
      ResumeApplies(db, files, i, i + 1, applied, commits);
      ResumeStops(Applied(db, files[i]), files, i + 1, i + 1, applied, commits - 2);
    }
  }

  lemma {:induction false} StuckStays<D>(files: seq<Script<D>>, start: D, i: nat, later: seq<Boot>)
    requires Distinct(files) && i < |files| && Clean(files[..i + 1], start).Some?
    requires files[i].run(Clean(files[..i + 1], start).value).None?
    requires Growing([CrashAt(i)] + later, |files|)
    ensures BootAll(start, files, [CrashAt(i)] + later) == BootAll(start, files, [CrashAt(i)])
  {
    var db := BootAll(start, files, [CrashAt(i)]);
    var boots := [CrashAt(i)] + later;
    if later == [] {
      assert boots == [CrashAt(i)];
    } else {
      var n := |later| - 1;
      assert boots[..n + 1] == [CrashAt(i)] + later[..n];
      StuckStays(files, start, i, later[..n]);
      CrashLeaves(files, start, i);
      assert boots[0].m <= boots[n + 1].m;
      StartsAt(db, files, later[n].m, i, later[n].commits);
      ResumeStops(db, files, i, later[n].m, Versions(files[..i]), later[n].commits);
    }
  }

  /** No later start ever gets past script i. */
  ghost predicate StuckForever<D>(files: seq<Script<D>>, start: D, i: nat)
    requires i < |files|
  {
    forall later: seq<Boot> | Growing([CrashAt(i)] + later, |files|) ::
      BootAll(start, files, [CrashAt(i)] + later).recorded == Names(files[..i])
  }

  /** A crash between script i and its record blocks every later start for ever exactly when script i
      raises on its own result, as a script that adds a column does. */
  lemma {:induction false} StuckForeverIff<D>(files: seq<Script<D>>, start: D, i: nat)
    requires Distinct(files) && i < |files| && Clean(files[..i + 1], start).Some?
    ensures StuckForever(files, start, i) <==> files[i].run(Clean(files[..i + 1], start).value).None?
  {
    CrashLeaves(files, start, i);
    if files[i].run(Clean(files[..i + 1], start).value).None? {
      forall later: seq<Boot> | Growing([CrashAt(i)] + later, |files|)
        ensures BootAll(start, files, [CrashAt(i)] + later).recorded == Names(files[..i])
      {
        StuckStays(files, start, i, later);
      }
    } else {
      var later := [Boot(i + 1, 2)];
      assert [CrashAt(i)] + later == [CrashAt(i), Boot(i + 1, 2)];
      SecondExecution(files, start, i, 2);
      assert Growing([CrashAt(i)] + later, |files|);
      assert BootAll(start, files, [CrashAt(i)] + later).recorded != Names(files[..i]);
    }
  }

  lemma {:induction false} RepairNeedsRepeat<D>(files: seq<Script<D>>, start: D, i: nat)
    requires Distinct(files) && i < |files| && Clean(files[..i + 1], start).Some?
    requires BootAll(start, files, [CrashAt(i), Boot(i + 1, 2 * (i + 1))]) == Uninterrupted(start, files, i + 1)
    ensures Repeats(files, start, i)
  {
    CrashLeaves(files, start, i);
    SecondExecution(files, start, i, 2 * (i + 1));
    UninterruptedReaches(files, start, i + 1);
    NamesNext(files, i);
  }

  /** Crashes are always repaired exactly when every script that a clean run reaches may be repeated
      right after itself. */
  lemma {:induction false} RepairsIffRepeatSafe<D>(files: seq<Script<D>>, start: D)
    requires Distinct(files)
    ensures AlwaysRepairs(files, start) <==> RepeatSafe(files, start)
  {
    if RepeatSafe(files, start) {
      forall boots: seq<Boot> | Growing(boots, |files|) && EndsUncut(boots)
        ensures BootAll(start, files, boots) == Uninterrupted(start, files, boots[|boots| - 1].m)
      {
        UncutRunRepairs(start, files, boots);
      }
    }
    if AlwaysRepairs(files, start) {
      forall i | 0 <= i < |files|
        ensures Repeats(files, start, i)
      {
        if Clean(files[..i + 1], start).Some? {
          var boots := [CrashAt(i), Boot(i + 1, 2 * (i + 1))];
          assert Growing(boots, |files|) && EndsUncut(boots);
          RepairNeedsRepeat(files, start, i);
        }
      }
    }
  }
}
