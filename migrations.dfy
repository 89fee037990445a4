/**
 * The migration bookkeeping of the installer as values:
 * - how a migration file name gives its version and class name;
 * - how `rollbackDatabase` rebuilds the file name from a stored record;
 * - which migrations a run applies, given the `(version, table)` records already stored.
 */
module MigrationNames {
  import opened Php
  import opened Collections

  // ---------------------------------------------------------------------
  // File names

  /** `substr($s, 0, $n)` for `$n >= 0`. */
  function Prefix(s: string, n: nat): (r: string)
    ensures |r| == if |s| < n then |s| else n
    ensures r <= s
  {
    if |s| < n then s else s[..n]
  }

  /** `substr($s, $start, -$trim)`: from `start` up to `trim` characters before the end, or "". */
  function Middle(s: string, start: nat, trim: nat): string
  {
    if start + trim <= |s| then s[start..|s| - trim] else ""
  }

  /** `substr($s, 0, -$n)`: all but the last `n` characters, or "" when there are fewer. */
  function DropLast(s: string, n: nat): string
  {
    if n <= |s| then s[..|s| - n] else ""
  }

  /** The length of the version prefix of a migration file name. */
  const VersionLength: nat := 8

  /** A file accepted as a migration: its version text and its class name. */
  datatype ParsedFile = ParsedFile(version: string, className: string)

  /**
   * `getMigrations` for one file name: the version is its first eight
   * characters; the file counts only when their integer cast is positive,
   * and its class is the text between the ninth character and `.php`,
   * followed by `_` and the version.
   */
  function ParseFileName(fileName: string): (r: Option<ParsedFile>)
    ensures r.Some? <==> IntCast(Prefix(fileName, VersionLength)) > 0
    ensures r.Some? ==> r.value.version == Prefix(fileName, VersionLength)
    ensures r.Some? ==> r.value.className == Middle(fileName, VersionLength + 1, 4) + "_" + r.value.version
  {
    var version := Prefix(fileName, VersionLength);
    if IntCast(version) > 0 then Some(ParsedFile(version, Middle(fileName, VersionLength + 1, 4) + "_" + version))
    else None
  }

  /** A name `VVVVVVVV_Name.php`: an eight-character positive version, `_`, a name and `.php`. */
  predicate IsMigrationFileName(f: string)
  {
    && |f| >= VersionLength + 1 + 4
    && f[VersionLength] == '_'
    && f[|f| - 4..] == ".php"
    && IntCast(f[..VersionLength]) > 0
  }

  /**
   * The file name `rollbackDatabase` rebuilds from a stored record, as
   * written: the version as the record returns it, an integer, printed in
   * decimal, then the class name without its last nine characters.
   */
  function RollbackFileName(version: int, className: string): (r: string)
    ensures |r| == |IntToString(version)| + 1 + |DropLast(className, VersionLength + 1)| + 4
    ensures r[|IntToString(version)|] == '_' && r[|r| - 4..] == ".php"
  {
    IntToString(version) + "_" + DropLast(className, VersionLength + 1) + ".php"
  }

  /** The decimal text of a positive integer never starts with '0'. */
  lemma PositiveTextLeadsNonZero(n: int)
    requires n > 0
    ensures IntToString(n)[0] != '0'
  {
    var r := NatToString(n);
    if |r| == 1 {
      assert r[..0] == [];
    }
  }

  /**
   * The `migrations` table stores the version in an integer column, so the
   * leading zeros of a version prefix are lost: for every migration file
   * whose version starts with '0' (the installer anticipates `00000001`
   * as a first version) the rebuilt name is not the file's name.
   */
  lemma RollbackFileNameLosesLeadingZeros(f: string)
    requires IsMigrationFileName(f) && f[0] == '0'
    ensures ParseFileName(f).Some?
    ensures RollbackFileName(IntCast(ParseFileName(f).value.version), ParseFileName(f).value.className) != f
  {
    assert Prefix(f, VersionLength) == f[..VersionLength];
    var version := IntCast(f[..VersionLength]);
    PositiveTextLeadsNonZero(version);
    var rebuilt := RollbackFileName(version, ParseFileName(f).value.className);
    assert rebuilt[0] == IntToString(version)[0];
  }

  /**
   * The rebuild with the version taken from the class name, whose last
   * eight characters are the version text exactly as it was in the file name.
   */
  function RecoveredFileName(className: string): (r: string)
    ensures |className| >= VersionLength + 1 ==> |r| == |className| + 4 && r[VersionLength] == '_'
    ensures |r| >= 5 && r[|r| - 4..] == ".php"
  {
    if |className| >= VersionLength + 1 then
      className[|className| - VersionLength..] + "_" + DropLast(className, VersionLength + 1) + ".php"
    else "_.php"
  }

  /** The recovered rebuild splits a class name `Name_VVVVVVVV` back into its parts. */
  lemma RecoveredFileNameOf(name: string, version: string)
    requires |version| == VersionLength
    ensures RecoveredFileName(name + "_" + version) == version + "_" + name + ".php"
  {
    var c := name + "_" + version;
    assert c[|c| - VersionLength..] == version;
    assert DropLast(c, VersionLength + 1) == name;
  }

  /** A migration file name is its version, `_`, its name and `.php`. */
  lemma MigrationFileNameParts(f: string)
    requires IsMigrationFileName(f)
    ensures f == f[..VersionLength] + "_" + f[VersionLength + 1..|f| - 4] + ".php"
  {
    assert f == f[..VersionLength] + [f[VersionLength]] + f[VersionLength + 1..|f| - 4] + f[|f| - 4..];
  }

  /** Every migration file name is accepted, and the recovered rebuild gives it back. */
  lemma FileNameRoundTrip(f: string)
    requires IsMigrationFileName(f)
    ensures ParseFileName(f).Some?
    ensures ParseFileName(f).value.version == f[..VersionLength]
    ensures RecoveredFileName(ParseFileName(f).value.className) == f
  {
    var v := f[..VersionLength];
    var name := f[VersionLength + 1..|f| - 4];
    assert Prefix(f, VersionLength) == v;
    assert Middle(f, VersionLength + 1, 4) == name;
    RecoveredFileNameOf(name, v);
    MigrationFileNameParts(f);
  }

  // ---------------------------------------------------------------------
  // Finding migrations

  /** `'Migration class cannot be found ' . $className . ' at ' . $path . $fileName`. */
  function MissingClassMessage(className: string, path: string, fileName: string): string
  {
    "Migration class cannot be found " + className + " at " + path + fileName
  }

  /**
   * `getMigrations` over the file names `glob` returns (with the path
   * already removed): the accepted files keyed by name, or the error for
   * the first accepted file whose class is not declared.
   */
  function FindMigrations(path: string, files: seq<string>, declared: set<string>):
    (r: Result<OrderedMap<string, ParsedFile>, string>)
    ensures r.Ok? ==> Valid(r.value)
    decreases |files|
  {
    if files == [] then Ok(Empty())
    else
      var f := files[|files| - 1];
      match FindMigrations(path, files[..|files| - 1], declared)
      case Err(e) => Err(e)
      case Ok(m) =>
        match ParseFileName(f)
        case None => Ok(m)
        case Some(p) =>
          if p.className in declared then Ok(Put(m, f, p))
          else Err(MissingClassMessage(p.className, path, f))
  }

  /** The lookup over one more file, once the files before it were found. */
  lemma FindMigrationsNext(path: string, files: seq<string>, declared: set<string>, i: int)
    requires 0 <= i < |files| && FindMigrations(path, files[..i], declared).Ok?
    ensures var m := FindMigrations(path, files[..i], declared).value;
            FindMigrations(path, files[..i + 1], declared) ==
              match ParseFileName(files[i])
              case None => Ok(m)
              case Some(p) =>
                if p.className in declared then Ok(Put(m, files[i], p))
                else Err(MissingClassMessage(p.className, path, files[i]))
  {
    assert files[..i + 1][..i] == files[..i];
  }

  /** An accepted file whose class is not declared. */
  predicate ClassMissing(f: string, declared: set<string>)
  {
    ParseFileName(f).Some? && ParseFileName(f).value.className !in declared
  }

  /** The test for an accepted file whose class is not declared. */
  function MissingIn(declared: set<string>): string -> bool
  {
    f => ClassMissing(f, declared)
  }

  /** The last file makes the lookup fail exactly when the earlier ones did or its own class is missing. */
  lemma FindMigrationsLastStep(path: string, files: seq<string>, declared: set<string>)
    requires files != []
    ensures FindMigrations(path, files, declared).Err? <==>
            FindMigrations(path, files[..|files| - 1], declared).Err? || ClassMissing(files[|files| - 1], declared)
  {
  }

  /** The lookup fails exactly when an accepted file's class is not declared. */
  lemma {:induction false} FindMigrationsFailsIff(path: string, files: seq<string>, declared: set<string>)
    ensures FindMigrations(path, files, declared).Err? <==> Any(files, MissingIn(declared))
    decreases |files|
  {
    if files != [] {
      FindMigrationsFailsIff(path, files[..|files| - 1], declared);
      FindMigrationsLastStep(path, files, declared);
      AnyLast(files, MissingIn(declared));
    }
  }

  /** A successful lookup holds every accepted file, and only those, under its name. */
  lemma {:induction false} FindMigrationsContents(path: string, files: seq<string>, declared: set<string>)
    requires FindMigrations(path, files, declared).Ok?
    ensures var m := FindMigrations(path, files, declared).value;
            forall f :: f in m.vals <==> f in files && ParseFileName(f).Some?
    ensures var m := FindMigrations(path, files, declared).value;
            forall f :: f in m.vals ==> Some(m.vals[f]) == ParseFileName(f)
    decreases |files|
  {
    if files != [] {
      var init := files[..|files| - 1];
      var f := files[|files| - 1];
      FindMigrationsContents(path, init, declared);
      assert forall x :: x in files <==> x in init || x == f;
    }
  }

  /** Once a prefix of the files fails, the whole list fails with the same message. */
  lemma {:induction false} FindMigrationsStopsAtError(path: string, files: seq<string>, declared: set<string>, n: nat)
    requires n <= |files|
    requires FindMigrations(path, files[..n], declared).Err?
    ensures FindMigrations(path, files, declared) == FindMigrations(path, files[..n], declared)
    decreases |files|
  {
    if n < |files| {
      var init := files[..|files| - 1];
      assert init[..n] == files[..n];
      FindMigrationsStopsAtError(path, init, declared, n);
    } else {
      assert files[..n] == files;
    }
  }

  // ---------------------------------------------------------------------
  // Running migrations

  /** What a migration's `morph()` reports about itself. */
  datatype Migration = Migration(moduleName: string, version: int, table: string, className: string)

  /** A row of the `migrations` table; the random id is not modelled. */
  datatype MigrationRecord = MigrationRecord(moduleName: string, version: int, table: string, className: string,
                                             migrationRun: int)

  const MigrationsTable := "migrations"

  predicate Recorded(records: seq<MigrationRecord>, version: int, table: string)
  {
    exists i :: 0 <= i < |records| && records[i].version == version && records[i].table == table
  }

  /** The `migrations` table itself on run 1 is always applied; anything else only when not yet recorded. */
  predicate ShouldApply(m: Migration, runNumber: int, records: seq<MigrationRecord>)
  {
    (m.table == MigrationsTable && runNumber == 1) || !Recorded(records, m.version, m.table)
  }

  function NewRecord(m: Migration, runNumber: int): (r: MigrationRecord)
    ensures r.version == m.version && r.table == m.table && r.migrationRun == runNumber
    ensures r.moduleName == m.moduleName && r.className == m.className
  {
    MigrationRecord(m.moduleName, m.version, m.table, m.className, runNumber)
  }

  /** The outcome of a run: the records afterwards, and the migrations applied, in order. */
  datatype RunOutcome = RunOutcome(records: seq<MigrationRecord>, applied: seq<Migration>)

  /**
   * `runMigrations($migrations, $runNumber)`: each migration in turn is
   * applied and recorded when `ShouldApply` holds for the records stored
   * so far, including those of earlier migrations of the same run.
   */
  function Run(migrations: seq<Migration>, runNumber: int, records: seq<MigrationRecord>): (r: RunOutcome)
    ensures |r.records| == |records| + |r.applied|
    ensures r.records[..|records|] == records
    ensures forall i :: 0 <= i < |r.applied| ==> r.records[|records| + i] == NewRecord(r.applied[i], runNumber)
    ensures forall m :: m in r.applied ==> m in migrations
    decreases |migrations|
  {
    if migrations == [] then RunOutcome(records, [])
    else
      var init := migrations[..|migrations| - 1];
      var m := migrations[|migrations| - 1];
      assert forall x :: x in init ==> x in migrations;
      var before := Run(init, runNumber, records);
      if ShouldApply(m, runNumber, before.records) then
        RunOutcome(before.records + [NewRecord(m, runNumber)], before.applied + [m])
      else before
  }

  /** After a run, every migration of the list has a record. */
  lemma {:induction false} RunRecordsEveryMigration(migrations: seq<Migration>, runNumber: int,
                                                    records: seq<MigrationRecord>)
    ensures forall m :: m in migrations ==> Recorded(Run(migrations, runNumber, records).records, m.version, m.table)
    decreases |migrations|
  {
    if migrations != [] {
      var init := migrations[..|migrations| - 1];
      var m := migrations[|migrations| - 1];
      RunRecordsEveryMigration(init, runNumber, records);
      var before := Run(init, runNumber, records);
      var after := Run(migrations, runNumber, records);
      assert after.records[..|before.records|] == before.records by {
        if ShouldApply(m, runNumber, before.records) {
          assert after.records == before.records + [NewRecord(m, runNumber)];
        }
      }
      forall x | x in migrations
        ensures Recorded(after.records, x.version, x.table)
      {
        if x in init {
          var i :| 0 <= i < |before.records| && before.records[i].version == x.version
                   && before.records[i].table == x.table;
          assert after.records[i] == before.records[i];
        } else {
          assert x == m;
          if ShouldApply(m, runNumber, before.records) {
            assert after.records[|before.records|] == NewRecord(m, runNumber);
          } else {
            var i :| 0 <= i < |before.records| && before.records[i].version == x.version
                     && before.records[i].table == x.table;
            assert after.records[i] == before.records[i];
          }
        }
      }
    }
  }

  /** Records already covering every migration of the list: a run applies nothing (except run 1's `migrations` table). */
  lemma {:induction false} RunOverRecordedAppliesNothing(migrations: seq<Migration>, runNumber: int,
                                                         records: seq<MigrationRecord>)
    requires forall m :: m in migrations ==> Recorded(records, m.version, m.table)
    requires runNumber != 1 || forall m :: m in migrations ==> m.table != MigrationsTable
    ensures Run(migrations, runNumber, records) == RunOutcome(records, [])
    decreases |migrations|
  {
    if migrations != [] {
      var init := migrations[..|migrations| - 1];
      assert forall x :: x in init ==> x in migrations;
      RunOverRecordedAppliesNothing(init, runNumber, records);
    }
  }

  /** Running the same migrations again records nothing new and applies nothing. */
  lemma RerunAppliesNothing(migrations: seq<Migration>, runNumber: int, records: seq<MigrationRecord>)
    requires runNumber != 1 || forall m :: m in migrations ==> m.table != MigrationsTable
    ensures var first := Run(migrations, runNumber, records);
            Run(migrations, runNumber, first.records) == RunOutcome(first.records, [])
  {
    RunRecordsEveryMigration(migrations, runNumber, records);
    RunOverRecordedAppliesNothing(migrations, runNumber, Run(migrations, runNumber, records).records);
  }

  /** A migration not yet recorded, on a list of one, is applied and recorded with the run number. */
  lemma UnrecordedMigrationApplied(m: Migration, runNumber: int, records: seq<MigrationRecord>)
    requires !Recorded(records, m.version, m.table)
    ensures Run([m], runNumber, records) == RunOutcome(records + [NewRecord(m, runNumber)], [m])
  {
    assert [m][..0] == [];
  }

  /** The `migrations` table on run 1 is applied even when it is recorded. */
  lemma MigrationsTableAlwaysAppliedOnFirstRun(m: Migration, records: seq<MigrationRecord>)
    requires m.table == MigrationsTable
    ensures Run([m], 1, records).applied == [m]
  {
    assert [m][..0] == [];
  }

  /** A record after a run is a stored one or belongs to a migration of the list. */
  lemma RecordedAfterRun(migrations: seq<Migration>, runNumber: int, records: seq<MigrationRecord>,
                         version: int, table: string)
    requires Recorded(Run(migrations, runNumber, records).records, version, table)
    ensures Recorded(records, version, table)
            || exists k :: 0 <= k < |migrations| && migrations[k].version == version && migrations[k].table == table
  {
    var r := Run(migrations, runNumber, records);
    var i :| 0 <= i < |r.records| && r.records[i].version == version && r.records[i].table == table;
    if i < |records| {
      assert records[i] == r.records[..|records|][i];
    } else {
      var m := r.applied[i - |records|];
      assert r.records[i] == NewRecord(m, runNumber);
      assert m in migrations;
      var k :| 0 <= k < |migrations| && migrations[k] == m;
    }
  }

  /** A pair neither stored nor that of a migration of the list has no record after a run. */
  lemma NotRecordedAfterRun(migrations: seq<Migration>, runNumber: int, records: seq<MigrationRecord>,
                            version: int, table: string)
    requires !Recorded(records, version, table)
    requires forall k :: 0 <= k < |migrations| ==> migrations[k].version != version || migrations[k].table != table
    ensures !Recorded(Run(migrations, runNumber, records).records, version, table)
  {
    if Recorded(Run(migrations, runNumber, records).records, version, table) {
      RecordedAfterRun(migrations, runNumber, records, version, table);
    }
  }

  /** A stored record is still there after a run. */
  lemma StoredStaysRecorded(migrations: seq<Migration>, runNumber: int, records: seq<MigrationRecord>,
                            version: int, table: string)
    requires Recorded(records, version, table)
    ensures Recorded(Run(migrations, runNumber, records).records, version, table)
  {
    var r := Run(migrations, runNumber, records);
    var i :| 0 <= i < |records| && records[i].version == version && records[i].table == table;
    assert r.records[i] == r.records[..|records|][i];
  }

  /**
   * On any list, a migration is applied only when `ShouldApply` holds for
   * the records stored before the run: a recorded migration is skipped
   * unless it is the `migrations` table on run 1.
   */
  lemma {:induction false} AppliedOnlyWhenShouldApply(migrations: seq<Migration>, runNumber: int,
                                                      records: seq<MigrationRecord>)
    ensures forall m :: m in Run(migrations, runNumber, records).applied ==> ShouldApply(m, runNumber, records)
    decreases |migrations|
  {
    if migrations != [] {
      var init := migrations[..|migrations| - 1];
      var last := migrations[|migrations| - 1];
      AppliedOnlyWhenShouldApply(init, runNumber, records);
      var before := Run(init, runNumber, records);
      if ShouldApply(last, runNumber, before.records) {
        if Recorded(records, last.version, last.table) {
          StoredStaysRecorded(init, runNumber, records, last.version, last.table);
        }
        assert ShouldApply(last, runNumber, records);
        assert Run(migrations, runNumber, records).applied == before.applied + [last];
      }
    }
  }

  /**
   * On any list, the first migration with a (version, table) pair that is
   * not stored is applied, and recorded with the run number.
   */
  lemma {:induction false} FirstUnrecordedApplied(migrations: seq<Migration>, runNumber: int,
                                                  records: seq<MigrationRecord>, i: int)
    requires 0 <= i < |migrations|
    requires !Recorded(records, migrations[i].version, migrations[i].table)
    requires forall j :: 0 <= j < i ==> migrations[j].version != migrations[i].version
                                        || migrations[j].table != migrations[i].table
    ensures migrations[i] in Run(migrations, runNumber, records).applied
    ensures NewRecord(migrations[i], runNumber) in Run(migrations, runNumber, records).records
    decreases |migrations|
  {
    var init := migrations[..|migrations| - 1];
    var last := migrations[|migrations| - 1];
    var before := Run(init, runNumber, records);
    var after := Run(migrations, runNumber, records);
    if i == |migrations| - 1 {
      assert forall j :: 0 <= j < |init| ==> init[j] == migrations[j];
      NotRecordedAfterRun(init, runNumber, records, last.version, last.table);
      assert after == RunOutcome(before.records + [NewRecord(last, runNumber)], before.applied + [last]);
      assert after.records[|before.records|] == NewRecord(last, runNumber);
    } else {
      assert init[i] == migrations[i];
      assert forall j :: 0 <= j < i ==> init[j] == migrations[j];
      FirstUnrecordedApplied(init, runNumber, records, i);
      AfterContainsBefore(migrations, runNumber, records);
    }
  }

  /** On any list, run 1 applies and records every `migrations`-table migration, recorded or not. */
  lemma {:induction false} MigrationsTableAppliedOnFirstRun(migrations: seq<Migration>, records: seq<MigrationRecord>,
                                                            i: int)
    requires 0 <= i < |migrations|
    requires migrations[i].table == MigrationsTable
    ensures migrations[i] in Run(migrations, 1, records).applied
    ensures NewRecord(migrations[i], 1) in Run(migrations, 1, records).records
    decreases |migrations|
  {
    var init := migrations[..|migrations| - 1];
    var last := migrations[|migrations| - 1];
    var before := Run(init, 1, records);
    var after := Run(migrations, 1, records);
    if i == |migrations| - 1 {
      assert after == RunOutcome(before.records + [NewRecord(last, 1)], before.applied + [last]);
      assert after.records[|before.records|] == NewRecord(last, 1);
    } else {
      assert init[i] == migrations[i];
      MigrationsTableAppliedOnFirstRun(init, records, i);
      AfterContainsBefore(migrations, 1, records);
    }
  }

  /** A run over a longer list keeps what the run over the list without its last migration applied and recorded. */
  lemma AfterContainsBefore(migrations: seq<Migration>, runNumber: int, records: seq<MigrationRecord>)
    requires migrations != []
    ensures var before := Run(migrations[..|migrations| - 1], runNumber, records);
            var after := Run(migrations, runNumber, records);
            (forall m :: m in before.applied ==> m in after.applied)
            && (forall x :: x in before.records ==> x in after.records)
  {
  }
}
