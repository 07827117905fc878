/**
 * App/Controllers/Health.php: the health-check endpoints. The probes
 * (Users::count, the disk figures, is_writable, the PHP version) arrive as
 * their results; the JSON body is the Report value and the status code is
 * returned beside it.
 */
module Health {
  import opened Php

  /** What the disk probe yields: the used percentage, or an Exception from disk_free_space. */
  datatype DiskProbe = Usage(percent: real) | ProbeThrows

  /** The values "ok", "warning" and "error" of the status and of each check. */
  datatype Level = Ok | Warning | Error

  /** $status['checks']: index() sets each of its six keys once, config twice when it warns. */
  datatype Checks = Checks(database: Level, disk: Level, uploads: Level, cache: Level, phpVersion: Level, config: Level)

  /** The fields of index()'s JSON body that carry decisions. */
  datatype Report = Report(status: Level, checks: Checks, errors: seq<string>, warnings: seq<string>)

  const DatabaseError := "Database connection failed"
  const DiskError := "Disk space critically low"
  const UploadsError := "Uploads directory not writable"
  const CacheError := "Cache directory not writable"
  const DebugWarning := "Debug mode enabled in production"

  /** The disk is critically full: usage of at least 95 percent. */
  predicate DiskCritical(disk: DiskProbe) {
    disk.Usage? && disk.percent >= 95.0
  }

  /**
   * The configuration warning: APP_DEBUG is the string 'true' (===) and
   * APP_URL is set and does not mention localhost, read from what config()
   * returned.
   */
  predicate DebugInProduction(config: map<string, string>) {
    && "APP_DEBUG" in config && config["APP_DEBUG"] == "true"
    && "APP_URL" in config && !Contains(config["APP_URL"], "localhost")
  }

  /**
   * index(): the report starts as ok and each failing check turns it to error
   * and appends its message; the disk and PHP-version checks can also only
   * warn, and the configuration check only ever warns. 200 iff ok, else 503.
   */
  method Index(
    databaseOk: bool, disk: DiskProbe, uploadsWritable: bool, cacheWritable: bool,
    phpAtLeast8: bool, config: map<string, string>)
    returns (report: Report, code: int)
    ensures report.status == Ok <==> databaseOk && !DiskCritical(disk) && uploadsWritable && cacheWritable
    ensures report.status != Warning
    ensures code == (if report.status == Ok then 200 else 503)
    ensures report.errors ==
      (if databaseOk then [] else [DatabaseError])
      + (if DiskCritical(disk) then [DiskError] else [])
      + (if uploadsWritable then [] else [UploadsError])
      + (if cacheWritable then [] else [CacheError])
    ensures report.checks.database == (if databaseOk then Ok else Error)
    ensures report.checks.disk == (if disk.ProbeThrows? then Error else if disk.percent < 90.0 then Ok else Warning)
    ensures report.checks.uploads == (if uploadsWritable then Ok else Error)
    ensures report.checks.cache == (if cacheWritable then Ok else Error)
    ensures report.checks.phpVersion == (if phpAtLeast8 then Ok else Warning)
    ensures report.checks.config == (if DebugInProduction(config) then Warning else Ok)
    ensures report.warnings == (if DebugInProduction(config) then [DebugWarning] else [])
  {
    var status := Ok;
    var errors: seq<string> := [];
    var warnings: seq<string> := [];

    var databaseCheck;
    if databaseOk {
      databaseCheck := Ok;
    } else {
      databaseCheck := Error;
      status := Error;
      errors := errors + [DatabaseError];
    }

    var diskCheck;
    match disk {
      case Usage(percent) =>
        diskCheck := if percent < 90.0 then Ok else Warning;
        if percent >= 95.0 {
          status := Error;
          errors := errors + [DiskError];
        }
      case ProbeThrows =>
        diskCheck := Error;
    }

    var uploadsCheck := if uploadsWritable then Ok else Error;
    if !uploadsWritable {
      status := Error;
      errors := errors + [UploadsError];
    }

    var cacheCheck := if cacheWritable then Ok else Error;
    if !cacheWritable {
      status := Error;
      errors := errors + [CacheError];
    }

    var phpVersionCheck := if phpAtLeast8 then Ok else Warning;

    var configCheck := Ok;
    if DebugInProduction(config) {
      configCheck := Warning;
      warnings := warnings + [DebugWarning];
    }

    report := Report(status, Checks(databaseCheck, diskCheck, uploadsCheck, cacheCheck, phpVersionCheck, configCheck),
                     errors, warnings);
    code := if status == Ok then 200 else 503;
  }

  /** The disk check warns from 90 percent on, but only 95 percent and above makes the report fail. */
  method DiskWarningBand(percent: real) returns (report: Report, code: int)
    requires 90.0 <= percent < 95.0
    ensures report.checks.disk == Warning
    ensures report.status == Ok && code == 200
  {
    report, code := Index(true, Usage(percent), true, true, true, map[]);
  }

  /** The answer of one Model::count() call: the count, or the message of the exception it threw. */
  datatype Count = Counted(n: nat) | Threw(message: string)

  /** database()'s JSON body, without the timing and timestamp fields. */
  datatype DatabaseReport =
    | DatabaseOk(users: nat, offices: nat, assignments: nat)
    | DatabaseFailed(error: string)

  /**
   * database(): the three counts are taken in order and the first exception
   * aborts the rest; ok and 200 iff all three succeed, else the first
   * exception's message and 503.
   */
  function Database(users: Count, offices: Count, assignments: Count): (r: (DatabaseReport, int))
    ensures r.0.DatabaseOk? <==> users.Counted? && offices.Counted? && assignments.Counted?
    ensures r.1 == (if r.0.DatabaseOk? then 200 else 503)
    ensures r.0.DatabaseOk? ==> r.0 == DatabaseOk(users.n, offices.n, assignments.n)
    ensures users.Threw? ==> r.0 == DatabaseFailed(users.message)
    ensures users.Counted? && offices.Threw? ==> r.0 == DatabaseFailed(offices.message)
    ensures users.Counted? && offices.Counted? && assignments.Threw? ==> r.0 == DatabaseFailed(assignments.message)
  {
    match users
    case Threw(m) => (DatabaseFailed(m), 503)
    case Counted(u) =>
      match offices
      case Threw(m) => (DatabaseFailed(m), 503)
      case Counted(o) =>
        match assignments
        case Threw(m) => (DatabaseFailed(m), 503)
        case Counted(a) => (DatabaseOk(u, o, a), 200)
  }
}
