/**
 * `GET /api/supabase/status` (app/api/supabase/status/route.ts): report
 * whether Supabase is configured and which events table answers, probing
 * the candidate names in order and stopping at the first answer that is not
 * "table missing".
 */
module SupabaseStatus {
  import opened Wrappers
  import Strings
  import EventsTable

  /** What `select('id').limit(1)` on one table did. */
  datatype ProbeOutcome =
    | Answered                                  // no error
    | ProbeError(error: EventsTable.DbError)    // an error result
    | ProbeThrew(message: Option<string>)       // an exception; its message when it is an `Error`

  datatype StatusReport =
    | Unconfigured(message: string)                         // `configured: false`
    | Connected(table: string, configuredTable: string)     // `configured: true, connected: true`
    | ProbeFailed(table: string, error: string, code: Option<string>, hint: string)
    | ProbeCrashed(table: string, error: string)
    | NoTable(tablesAttempted: seq<string>, error: string, hint: string)

  /** The `connected` flag of a report; `None` when the report has none. */
  function ConnectedFlag(r: StatusReport): Option<bool> {
    match r
    case Unconfigured(_) => None
    case Connected(_, _) => Some(true)
    case _ => Some(false)
  }

  const NotConfiguredMessage := "Add NEXT_PUBLIC_SUPABASE_URL and SUPABASE_SERVICE_ROLE_KEY to your environment (Vercel: Project Settings \U{2192} Environment Variables)."
  const PermissionHint := "Permission denied. Ensure SUPABASE_SERVICE_ROLE_KEY is the service_role key (not the anon key)."
  const NoTableHint := "Check your Supabase Table Editor for the exact table name, then set SUPABASE_EVENTS_TABLE in your environment variables."

  /** The probe of `tables[j]` said that table does not exist. */
  predicate MissingAt(tables: seq<string>, probe: string -> ProbeOutcome, j: nat)
    requires j < |tables|
  {
    probe(tables[j]).ProbeError? && EventsTable.TableMissing(probe(tables[j]).error.code)
  }

  /** The hint for an error that is not "table missing": fixed text for `42501`, else the message. */
  function ErrorHint(error: EventsTable.DbError): (hint: string)
    ensures error.code == Some("42501") ==> hint == PermissionHint
    ensures error.code != Some("42501") ==> hint == error.message
  {
    if error.code == Some("42501") then PermissionHint else error.message
  }

  /**
   * The `for (const table of tableVariants)` loop of `GET`: report the first
   * table that answers, the first error that is not "table missing", or the
   * first exception; when every name is missing, the list of names tried.
   */
  method ProbeTables(tables: seq<string>, configuredTable: string, probe: string -> ProbeOutcome)
    returns (report: StatusReport)
    requires forall p, q :: 0 <= p < q < |tables| ==> tables[p] != tables[q]
    ensures !report.Unconfigured?
    ensures report.Connected? ==>
      report.configuredTable == configuredTable
      && report.table in tables && probe(report.table) == Answered
      && forall j :: 0 <= j < EventsTable.IndexOf(tables, report.table) ==> MissingAt(tables, probe, j)
    ensures report.ProbeFailed? ==>
      report.table in tables && probe(report.table).ProbeError?
      && !EventsTable.TableMissing(probe(report.table).error.code)
      && report.error == probe(report.table).error.message
      && report.code == probe(report.table).error.code
      && report.hint == ErrorHint(probe(report.table).error)
      && forall j :: 0 <= j < EventsTable.IndexOf(tables, report.table) ==> MissingAt(tables, probe, j)
    ensures report.ProbeCrashed? ==>
      report.table in tables && probe(report.table).ProbeThrew?
      && report.error == probe(report.table).message.GetOr("Connection failed")
      && forall j :: 0 <= j < EventsTable.IndexOf(tables, report.table) ==> MissingAt(tables, probe, j)
    ensures report.NoTable? <==> forall j :: 0 <= j < |tables| ==> MissingAt(tables, probe, j)
    ensures report.NoTable? ==>
      report.tablesAttempted == tables
      && report.error == "No events table found. Tried: " + Strings.Join(tables, ", ")
      && report.hint == NoTableHint
  {
    var i := 0;
    while i < |tables|
      invariant 0 <= i <= |tables|
      invariant forall j :: 0 <= j < i ==> MissingAt(tables, probe, j)
    {
      var table := tables[i];
      EventsTable.IndexOfDistinct(tables, i);
      if !MissingAt(tables, probe, i) {
        assert !forall j :: 0 <= j < |tables| ==> MissingAt(tables, probe, j);
      }
      match probe(table) {
        case Answered =>
          return Connected(table, configuredTable);
        case ProbeError(error) =>
          if !EventsTable.TableMissing(error.code) {
            return ProbeFailed(table, error.message, error.code, ErrorHint(error));
          }
        case ProbeThrew(message) =>
          return ProbeCrashed(table, message.GetOr("Connection failed"));
      }
      i := i + 1;
    }
    return NoTable(tables, "No events table found. Tried: " + Strings.Join(tables, ", "), NoTableHint);
  }

  /**
   * `GET`: `configured` is `isSupabaseConfigured()`, `tableEnv` the
   * `SUPABASE_EVENTS_TABLE` variable, `probe` the outcome of probing a table.
   */
  method Status(configured: bool, tableEnv: Option<string>, probe: string -> ProbeOutcome)
    returns (report: StatusReport)
    ensures !configured <==> report.Unconfigured?
    ensures !configured ==> report == Unconfigured(NotConfiguredMessage)
    ensures report.Connected? ==>
      var tables := EventsTable.Variants(EventsTable.ConfiguredTable(tableEnv));
      report.configuredTable == EventsTable.ConfiguredTable(tableEnv)
      && report.table in tables && probe(report.table) == Answered
      && forall j :: 0 <= j < EventsTable.IndexOf(tables, report.table) ==> MissingAt(tables, probe, j)
    ensures report.ProbeFailed? ==>
      var tables := EventsTable.Variants(EventsTable.ConfiguredTable(tableEnv));
      report.table in tables && probe(report.table).ProbeError?
      && !EventsTable.TableMissing(probe(report.table).error.code)
      && report.error == probe(report.table).error.message
      && report.code == probe(report.table).error.code
      && report.hint == ErrorHint(probe(report.table).error)
      && forall j :: 0 <= j < EventsTable.IndexOf(tables, report.table) ==> MissingAt(tables, probe, j)
    ensures report.ProbeCrashed? ==>
      var tables := EventsTable.Variants(EventsTable.ConfiguredTable(tableEnv));
      report.table in tables && probe(report.table).ProbeThrew?
      && report.error == probe(report.table).message.GetOr("Connection failed")
      && forall j :: 0 <= j < EventsTable.IndexOf(tables, report.table) ==> MissingAt(tables, probe, j)
    ensures configured ==>
      var tables := EventsTable.Variants(EventsTable.ConfiguredTable(tableEnv));
      (report.NoTable? <==> forall j :: 0 <= j < |tables| ==> MissingAt(tables, probe, j))
    ensures report.NoTable? ==>
      var tables := EventsTable.Variants(EventsTable.ConfiguredTable(tableEnv));
      report.tablesAttempted == tables
      && report.error == "No events table found. Tried: " + Strings.Join(tables, ", ")
      && report.hint == NoTableHint
  {
    if !configured {
      return Unconfigured(NotConfiguredMessage);
    }
    var configuredTable := EventsTable.ConfiguredTable(tableEnv);
    var tables := EventsTable.Variants(configuredTable);
    EventsTable.UniqueNoDuplicates(EventsTable.Candidates(configuredTable));
    report := ProbeTables(tables, configuredTable, probe);
  }
}
