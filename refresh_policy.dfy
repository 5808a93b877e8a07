/**
 * The refresh cycle of RefreshController.RefreshAllKBs, stated as functions
 * of its inputs: the catalog snapshot (or the error the catalog query
 * threw) and the environment's answers. Cycle is the specification the
 * imperative controller is proved against.
 */
module RefreshPolicy {
  import opened Wrappers
  import opened DateTimes
  import opened Models

  /** What the due test decides for one record. */
  datatype Verdict =
    | Exempt      // never-refreshed sentinel or frequency 0: skipped silently
    | OutOfRange  // computing the next refresh time throws
    | NotDue      // the next refresh time has not strictly passed
    | Due         // the refresher is called

  /** A record that automatic refresh leaves alone, whatever the time. */
  predicate IsExempt(kb: KBInfo)
  {
    kb.lastRefreshDateTime == MIN_VALUE || kb.refreshFrequencyInHours == 0
  }

  /** The due test, evaluated against the clock reading `now`. */
  function Classify(kb: KBInfo, now: DateTime): Verdict
  {
    if IsExempt(kb) then Exempt
    else match AddHours(kb.lastRefreshDateTime, kb.refreshFrequencyInHours as int)
      case None => OutOfRange
      case Some(next) => if next < now then Due else NotDue
  }

  /** A record whose next refresh time cannot be computed: the cycle stops at it. */
  predicate Overflows(kb: KBInfo)
  {
    !IsExempt(kb) && AddHours(kb.lastRefreshDateTime, kb.refreshFrequencyInHours as int).None?
  }

  function SuccessEvent(kb: KBInfo): LogEntry
  {
    Event(KnowledgeBaseRefreshSuccess, map[KnowledgeBaseId := Str(kb.kbId)])
  }

  function FailureEvent(kb: KBInfo, errorMessage: string): LogEntry
  {
    Event(KnowledgeBaseRefreshFailure, map[
      KnowledgeBaseId := Str(kb.kbId),
      LastRefreshDateTime := Timestamp(kb.lastRefreshDateTime),
      ErrorMessage := Str(errorMessage)])
  }

  /** The entries one record contributes, given the clock reading and the refresh outcome. */
  function RecordLog(kb: KBInfo, now: DateTime, outcome: Outcome): seq<LogEntry>
  {
    match Classify(kb, now)
    case Exempt => []
    case OutOfRange => []
    case NotDue => [Info(SkippingRefresh(kb.kbId, kb.refreshFrequencyInHours))]
    case Due =>
      match outcome
      case Succeeded => [SuccessEvent(kb)]
      case Failed(message) =>
        [FailureEvent(kb, message), Warning(FailedToRefresh(kb.kbId, message), message)]
  }

  /** Each record's contribution, record by record. */
  function RecordLogs(kbs: seq<KBInfo>, env: Env): seq<seq<LogEntry>>
  {
    seq(|kbs|, i requires 0 <= i < |kbs| => RecordLog(kbs[i], env.utcNow(i), env.refreshOutcome(i)))
  }

  /** The two info logs written before the records are walked. */
  function Header(count: nat): seq<LogEntry>
  {
    [Info(RefreshingAllKBs), Info(FoundKBs(count))]
  }

  function Flatten(ss: seq<seq<LogEntry>>): seq<LogEntry>
  {
    if ss == [] then [] else ss[0] + Flatten(ss[1..])
  }

  /** The position of the first record that overflows, or |kbs| when none does. */
  function FirstOverflow(kbs: seq<KBInfo>): (j: nat)
    ensures j <= |kbs|
  {
    if kbs == [] then 0
    else if Overflows(kbs[0]) then 0
    else 1 + FirstOverflow(kbs[1..])
  }

  predicate IsDue(kbs: seq<KBInfo>, env: Env, i: nat)
  {
    i < |kbs| && Classify(kbs[i], env.utcNow(i)) == Due
  }

  predicate StrictlyIncreasing(s: seq<nat>)
  {
    forall a, b :: 0 <= a < b < |s| ==> s[a] < s[b]
  }

  /** The due positions below n, in increasing order. */
  function DuePositions(kbs: seq<KBInfo>, env: Env, n: nat): (r: seq<nat>)
    requires n <= |kbs|
    ensures forall k :: 0 <= k < |r| ==> r[k] < n
  {
    if n == 0 then []
    else
      var r := DuePositions(kbs, env, n - 1);
      if IsDue(kbs, env, n - 1) then r + [n - 1] else r
  }

  /**
   * The walk over a snapshot: every record up to the first overflowing one
   * contributes its entries in list order, and the walk ends normally exactly
   * when no record overflows.
   */
  function Walk(kbs: seq<KBInfo>, env: Env): Trace
  {
    var j := FirstOverflow(kbs);
    Trace(Flatten(RecordLogs(kbs, env)[..j]),
          DuePositions(kbs, env, j),
          if j < |kbs| then Threw(ArgumentOutOfRange) else Returned)
  }

  /**
   * One whole cycle. A catalog error leaves after the first info log;
   * otherwise the two info logs precede the walk over the snapshot.
   */
  function Cycle(catalog: Result<seq<KBInfo>, string>, env: Env): Trace
  {
    match catalog
    case Failure(message) => Trace([Info(RefreshingAllKBs)], [], Threw(FetchFailed(message)))
    case Success(kbs) =>
      var walk := Walk(kbs, env);
      walk.(log := Header(|kbs|) + walk.log)
  }

  /** The number of events with the given name. */
  function CountEvents(log: seq<LogEntry>, name: EventName): nat
  {
    if log == [] then 0
    else (if log[0].Event? && log[0].name == name then 1 else 0) + CountEvents(log[1..], name)
  }

  function CountWarnings(log: seq<LogEntry>): nat
  {
    if log == [] then 0
    else (if log[0].Warning? then 1 else 0) + CountWarnings(log[1..])
  }

  /** Where record i's entries start in the cycle's log. */
  function Offset(kbs: seq<KBInfo>, env: Env, i: nat): nat
    requires i <= |kbs|
  {
    |Header(|kbs|)| + |Flatten(RecordLogs(kbs, env)[..i])|
  }
}
