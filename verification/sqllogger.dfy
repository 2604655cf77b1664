/**
  `MySqlServerLoggerProvider` and `MySqlServerLogger`: a logging backend that appends one
  row to the LogEntries table for every event at `Information` severity or above.
 */
module SqlServerLogger {
  import opened DotNet

  /** `Microsoft.Extensions.Logging.LogLevel`, in its declared order. Its member `None`
      shares its name with `Option.None`; in this module the bare name means the level, so
      optional values here are tested with `.Some?` and `.None?` only. */
  datatype LogLevel = Trace | Debug | Information | Warning | Error | Critical | None

  /** The enum's underlying numeric value. */
  function Severity(level: LogLevel): int
  {
    match level
    case Trace => 0
    case Debug => 1
    case Information => 2
    case Warning => 3
    case Error => 4
    case Critical => 5
    case None => 6
  }

  /** `LogLevel.ToString()`: the member's name. */
  function LevelName(level: LogLevel): string
  {
    match level
    case Trace => "Trace"
    case Debug => "Debug"
    case Information => "Information"
    case Warning => "Warning"
    case Error => "Error"
    case Critical => "Critical"
    case None => "None"
  }

  /** Distinct levels are written under distinct names, so the Level column identifies the
      event's level. */
  lemma LevelNameInjective(a: LogLevel, b: LogLevel)
    ensures LevelName(a) == LevelName(b) ==> a == b
  {
  }

  /** An exception handed to the logger; only its `ToString()` text is written. */
  datatype ExceptionInfo = ExceptionInfo(text: string)

  datatype LogEntry = LogEntry(level: string, message: string, source: string, exception: string)

  /** The provider holds the connection string; each logger holds its category too. */
  datatype Provider = Provider(connectionString: string)
  datatype Logger = Logger(categoryName: string, connectionString: string)

  /** `CreateLogger(categoryName)`: a logger for that category over the provider's database. */
  function CreateLogger(provider: Provider, categoryName: string): (r: Logger)
    ensures r.categoryName == categoryName
    ensures r.connectionString == provider.connectionString
  {
    Logger(categoryName, provider.connectionString)
  }

  /** `IsEnabled(logLevel)`: `logLevel >= LogLevel.Information`. */
  predicate IsEnabled(level: LogLevel)
  {
    Severity(level) >= Severity(Information)
  }

  /** Which levels the gate lets through: Trace and Debug are dropped; Information,
      Warning, Error, Critical, and also None (numerically the highest), are written. */
  lemma EnabledLevels(level: LogLevel)
    ensures IsEnabled(level) <==> !(level.Trace? || level.Debug?)
  {
  }

  /** The `Exception` column: the exception's text, or the empty string without one. */
  function ExceptionColumn(exception: Option<ExceptionInfo>): (r: string)
    ensures exception.None? ==> r == ""
    ensures exception.Some? ==> r == exception.value.text
  {
    if exception.Some? then exception.value.text else ""
  }

  /** `Log(logLevel, eventId, state, exception, formatter)`: below the gate nothing is
      written; otherwise exactly one row is appended, holding the level's name, the
      formatter's text for the state and exception, the logger's category as its source,
      and the exception column. */
  function Log<S>(logger: Logger, table: seq<LogEntry>, level: LogLevel, state: S,
                  exception: Option<ExceptionInfo>, formatter: (S, Option<ExceptionInfo>) -> string): (r: seq<LogEntry>)
    ensures !IsEnabled(level) ==> r == table
    ensures IsEnabled(level) ==> |r| == |table| + 1 && r[..|table|] == table
    ensures IsEnabled(level) ==>
      && r[|table|].level == LevelName(level)
      && r[|table|].message == formatter(state, exception)
      && r[|table|].source == logger.categoryName
      && r[|table|].exception == ExceptionColumn(exception)
  {
    if !IsEnabled(level) then table
    else
      var message := formatter(state, exception);
      table + [LogEntry(LevelName(level), message, logger.categoryName, ExceptionColumn(exception))]
  }

  /** A disabled call never consults the formatter: any two formatters give the same table. */
  lemma DisabledIgnoresFormatter<S>(logger: Logger, table: seq<LogEntry>, level: LogLevel, state: S,
                                    exception: Option<ExceptionInfo>,
                                    f: (S, Option<ExceptionInfo>) -> string, g: (S, Option<ExceptionInfo>) -> string)
    requires !IsEnabled(level)
    ensures Log(logger, table, level, state, exception, f) == Log(logger, table, level, state, exception, g)
  {
  }

  /** A row written through a logger from `CreateLogger` names the category the logger was
      created with as its source. */
  lemma SourceIsCategory<S>(provider: Provider, categoryName: string, table: seq<LogEntry>, level: LogLevel,
                            state: S, exception: Option<ExceptionInfo>, formatter: (S, Option<ExceptionInfo>) -> string)
    requires IsEnabled(level)
    ensures Log(CreateLogger(provider, categoryName), table, level, state, exception, formatter)[|table|].source == categoryName
  {
  }
}
