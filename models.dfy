/**
 * The values the refresh cycle reads and writes: knowledge-base records
 * (KBInfo), the outcome of one refresh call, and the entries the log
 * provider receives.
 */
module Models {
  import opened DateTimes

  /** C#'s int. */
  type Int32 = x: int | -0x8000_0000 <= x < 0x8000_0000

  /**
   * A knowledge-base record as the catalog projects it. The SharePoint
   * locator fields are not inspected by the cycle; they are passed on to
   * the refresher with the record.
   */
  datatype KBInfo = KBInfo(
    kbId: string,
    lastRefreshDateTime: DateTime,
    refreshFrequencyInHours: Int32,
    sharePointListId: string,
    questionField: string,
    answerFields: string,
    sharePointSiteId: string)

  /** What RefreshKnowledgeBaseAsync does: finish, or throw an exception with a message. */
  datatype Outcome = Succeeded | Failed(errorMessage: string)

  /** The texts of the info and warning logs, with their interpolated values. */
  datatype Message =
    | RefreshingAllKBs                                      // "Refreshing all knowledge bases"
    | FoundKBs(count: nat)                                  // "Found {count} configured KBs"
    | SkippingRefresh(kbId: string, frequencyInHours: Int32) // "Skipping refresh for {id}, refreshed less than {freq} hours ago"
    | FailedToRefresh(kbId: string, errorMessage: string)   // "Failed to refresh KB {id}: {message}"

  /** A value of an event property; a timestamp stands for its "u" formatting. */
  datatype PropertyValue = Str(text: string) | Timestamp(time: DateTime)

  /** The names of the structured events the cycle logs. */
  datatype EventName = KnowledgeBaseRefreshSuccess | KnowledgeBaseRefreshFailure
  {
    /** The name as it is passed to LogEvent. */
    function Text(): string
    {
      match this
      case KnowledgeBaseRefreshSuccess => "KnowledgeBaseRefreshSuccess"
      case KnowledgeBaseRefreshFailure => "KnowledgeBaseRefreshFailure"
    }
  }

  /** The keys of the events' property dictionaries. */
  datatype PropertyKey = KnowledgeBaseId | LastRefreshDateTime | ErrorMessage
  {
    /** The key as it is written into the dictionary. */
    function Text(): string
    {
      match this
      case KnowledgeBaseId => "KnowledgeBaseId"
      case LastRefreshDateTime => "LastRefreshDateTime"
      case ErrorMessage => "ErrorMessage"
    }
  }

  /** One call on the log provider: LogInfo, LogEvent or LogWarning (with the exception's message). */
  datatype LogEntry =
    | Info(message: Message)
    | Event(name: EventName, properties: map<PropertyKey, PropertyValue>)
    | Warning(message: Message, exceptionMessage: string)

  /** An exception that leaves RefreshAllKBs. */
  datatype Fault =
    | FetchFailed(message: string)  // thrown by the catalog query
    | ArgumentOutOfRange            // thrown by DateTime.AddHours

  /** How RefreshAllKBs ends: its task completes, or faults with an exception. */
  datatype Status = Returned | Threw(fault: Fault)

  /**
   * What the outside world answers during one cycle: utcNow(i) is the value
   * DateTime.UtcNow gives while record i of the snapshot is examined, and
   * refreshOutcome(i) is how the refresh call for record i ends. Each record
   * is examined once, so one answer per position is all a cycle can ask for.
   */
  datatype Env = Env(utcNow: nat -> DateTime, refreshOutcome: nat -> Outcome)

  /**
   * What one cycle does: the entries it logs, the snapshot positions of the
   * records it hands to the refresher (in call order), and how it ends.
   */
  datatype Trace = Trace(log: seq<LogEntry>, refreshed: seq<nat>, status: Status)
}
