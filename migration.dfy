/**
 * services/db.ts: `migrateDbIfNeeded`, which reads `PRAGMA user_version`,
 * runs the initial schema of services/migrations/001_init.ts when the
 * version is 0, and records version 1. The database is reduced to what
 * these statements read and write.
 */
module Migration {
  import opened Wrappers

  /** `DATABASE_VERSION`. */
  const DatabaseVersion: int := 1

  /** The statements the function can execute. */
  datatype Statement =
    | WalPragma                 // PRAGMA journal_mode = 'wal'
    | InitScript                // INIT_SQL
    | SetUserVersion(v: int)    // PRAGMA user_version = v

  /**
   * What the statements touch: the stored `user_version` (None when the
   * pragma yields no row), the journal mode, whether the script's tables
   * exist, and the `migrations` table's versions.
   */
  datatype Db = Db(userVersion: Option<int>, wal: bool, tablesCreated: bool, migrations: set<int>)

  /** The database after one statement, and whether the statement completed. */
  datatype Executed = Executed(db: Db, ok: bool)

  /**
   * One statement. INIT_SQL creates its tables with IF NOT EXISTS and ends
   * with `INSERT INTO migrations (version) VALUES (1)`, which violates the
   * primary key when version 1 is already recorded: the tables stand and
   * the script fails.
   */
  function Exec(db: Db, st: Statement): (r: Executed)
    ensures st != InitScript || !(1 in db.migrations) <==> r.ok
  {
    match st
    case WalPragma => Executed(db.(wal := true), true)
    case InitScript =>
      if 1 in db.migrations then Executed(db.(tablesCreated := true), false)
      else Executed(db.(tablesCreated := true, migrations := db.migrations + {1}), true)
    case SetUserVersion(v) => Executed(db.(userVersion := Some(v)), true)
  }

  /** `result?.user_version ?? 0`. */
  function CurrentVersion(db: Db): int {
    if db.userVersion.Some? then db.userVersion.value else 0
  }

  /** The statements the function means to run from version v, in order. */
  function Plan(v: int): (p: seq<Statement>)
    ensures v >= DatabaseVersion <==> p == []
  {
    if v >= DatabaseVersion then []
    else (if v == 0 then [WalPragma, InitScript] else []) + [SetUserVersion(DatabaseVersion)]
  }

  /** The end of a run: the database, the statements attempted, and whether all completed. */
  datatype Outcome = Outcome(db: Db, ran: seq<Statement>, ok: bool)

  /** Run statements in order; an `await` that throws ends the run. */
  function RunPlan(db: Db, plan: seq<Statement>): (r: Outcome)
    ensures |r.ran| <= |plan| && r.ran == plan[..|r.ran|]
    ensures r.ok ==> r.ran == plan
    decreases |plan|
  {
    if plan == [] then Outcome(db, [], true)
    else
      var step := Exec(db, plan[0]);
      if !step.ok then Outcome(step.db, [plan[0]], false)
      else
        var rest := RunPlan(step.db, plan[1..]);
        Outcome(rest.db, [plan[0]] + rest.ran, rest.ok)
  }

  /** `migrateDbIfNeeded` as a function of the database before it. */
  function Migrate(db: Db): Outcome {
    RunPlan(db, Plan(CurrentVersion(db)))
  }

  /** At or above version 1 nothing runs and nothing changes. */
  lemma MigrateCurrent(db: Db)
    requires CurrentVersion(db) >= DatabaseVersion
    ensures Migrate(db) == Outcome(db, [], true)
  {
  }

  /** A missing version row plans exactly what version 0 plans. */
  lemma MissingIsZero(db: Db)
    requires db.userVersion.None?
    ensures Plan(CurrentVersion(db)) == Plan(0) == [WalPragma, InitScript, SetUserVersion(1)]
  {
  }

  /**
   * From version 0 on a database without the migration record: the WAL
   * pragma, the init script once, then version 1, all completing.
   */
  lemma MigrateFresh(db: Db)
    requires CurrentVersion(db) == 0 && 1 !in db.migrations
    ensures var o := Migrate(db);
      && o.ok && o.ran == [WalPragma, InitScript, SetUserVersion(1)]
      && o.db == Db(Some(1), true, true, db.migrations + {1})
  {
    var d1 := db.(wal := true);
    var d2 := d1.(tablesCreated := true, migrations := d1.migrations + {1});
    assert Plan(0) == [WalPragma, InitScript, SetUserVersion(1)];
    assert RunPlan(d2, [SetUserVersion(1)]) == Outcome(d2.(userVersion := Some(1)), [SetUserVersion(1)], true);
    assert RunPlan(d1, [InitScript, SetUserVersion(1)]) == Outcome(d2.(userVersion := Some(1)), [InitScript, SetUserVersion(1)], true);
  }

  /**
   * From version 0 on a database that already records version 1, the
   * script's INSERT fails: the run stops after it, the version stays 0,
   * and every later launch fails the same way.
   */
  lemma MigrateClash(db: Db)
    requires CurrentVersion(db) == 0 && 1 in db.migrations
    ensures var o := Migrate(db);
      && !o.ok && o.ran == [WalPragma, InitScript]
      && o.db.userVersion == db.userVersion && CurrentVersion(o.db) == 0 && 1 in o.db.migrations
  {
    var d1 := db.(wal := true);
    assert Plan(0) == [WalPragma, InitScript, SetUserVersion(1)];
    assert RunPlan(d1, [InitScript, SetUserVersion(1)]) == Outcome(d1.(tablesCreated := true), [InitScript], false);
  }

  /** A negative version skips the schema and is still set to 1. */
  lemma MigrateNegative(db: Db)
    requires CurrentVersion(db) < 0
    ensures Migrate(db) == Outcome(db.(userVersion := Some(1)), [SetUserVersion(1)], true)
  {
    assert Plan(CurrentVersion(db)) == [SetUserVersion(1)];
  }

  /** A run that completes leaves version 1, so the next run does nothing. */
  lemma MigrateIdempotent(db: Db)
    requires Migrate(db).ok
    ensures CurrentVersion(Migrate(db).db) >= DatabaseVersion
    ensures Migrate(Migrate(db).db) == Outcome(Migrate(db).db, [], true)
  {
    var v := CurrentVersion(db);
    if v >= DatabaseVersion {
    } else if v == 0 {
      if 1 in db.migrations {
        MigrateClash(db);
        assert false;
      }
      MigrateFresh(db);
    } else {
      MigrateNegative(db);
    }
  }

  /** The database connection as `migrateDbIfNeeded` sees it, with a log of the statements executed. */
  class Database {
    var userVersion: Option<int>
    var wal: bool
    var tablesCreated: bool
    var migrations: set<int>
    var log: seq<Statement>

    function Value(): Db
      reads this
    {
      Db(userVersion, wal, tablesCreated, migrations)
    }

    constructor (db: Db)
      ensures Value() == db && log == []
    {
      userVersion := db.userVersion;
      wal := db.wal;
      tablesCreated := db.tablesCreated;
      migrations := db.migrations;
      log := [];
    }

    /** `execAsync(st)`: `ok` is false when it throws. */
    method ExecAsync(st: Statement) returns (ok: bool)
      modifies this
      ensures Executed(Value(), ok) == Exec(old(Value()), st)
      ensures log == old(log) + [st]
    {
      log := log + [st];
      match st
      case WalPragma =>
        wal := true;
        ok := true;
      case InitScript =>
        tablesCreated := true;
        ok := 1 !in migrations;
        if ok {
          migrations := migrations + {1};
        }
      case SetUserVersion(v) =>
        userVersion := Some(v);
        ok := true;
    }

    /** `migrateDbIfNeeded(db)`: `ok` is false when an `await` threw. */
    method MigrateDbIfNeeded() returns (ok: bool)
      modifies this
      ensures |log| >= |old(log)| && log[..|old(log)|] == old(log)
      ensures Outcome(Value(), log[|old(log)|..], ok) == Migrate(old(Value()))
    {
      var currentDbVersion := if userVersion.Some? then userVersion.value else 0;
      if currentDbVersion >= DatabaseVersion {
        return true;
      }
      if currentDbVersion == 0 {
        var d0 := Value();
        ok := ExecAsync(WalPragma);
        var d1 := Value();
        ok := ExecAsync(InitScript);
        if !ok {
          assert log[|old(log)|..] == [WalPragma, InitScript];
          assert RunPlan(d1, [InitScript, SetUserVersion(1)]) == Outcome(Value(), [InitScript], false);
          assert Plan(0) == [WalPragma, InitScript, SetUserVersion(1)];
          return;
        }
        currentDbVersion := DatabaseVersion;
        var d2 := Value();
        ok := ExecAsync(SetUserVersion(DatabaseVersion));
        assert log[|old(log)|..] == [WalPragma, InitScript, SetUserVersion(1)];
        assert RunPlan(d2, [SetUserVersion(1)]) == Outcome(Value(), [SetUserVersion(1)], true);
        assert RunPlan(d1, [InitScript, SetUserVersion(1)]) == Outcome(Value(), [InitScript, SetUserVersion(1)], true);
        assert Plan(0) == [WalPragma, InitScript, SetUserVersion(1)];
        assert RunPlan(d0, Plan(0)) == Outcome(Value(), [WalPragma, InitScript, SetUserVersion(1)], true);
      } else {
        ok := ExecAsync(SetUserVersion(DatabaseVersion));
        assert log[|old(log)|..] == [SetUserVersion(1)];
        assert Plan(currentDbVersion) == [SetUserVersion(1)];
      }
    }
  }
}
