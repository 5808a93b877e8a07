/**
 * RefreshController and the log provider it writes to. RefreshAllKBs walks
 * the catalog snapshot as the controller does and is proved to log exactly
 * what RefreshPolicy.Cycle describes.
 */
module Controllers {
  import opened Wrappers
  import opened DateTimes
  import opened Models
  import opened RefreshPolicy
  import Lemmas = RefreshLemmas

  /** The log provider: every call appends one entry. */
  class LogProvider {
    var entries: seq<LogEntry>

    constructor ()
      ensures entries == []
    {
      entries := [];
    }

    method LogInfo(message: Message)
      modifies this
      ensures entries == old(entries) + [Info(message)]
    {
      entries := entries + [Info(message)];
    }

    method LogEvent(name: EventName, properties: map<PropertyKey, PropertyValue>)
      modifies this
      ensures entries == old(entries) + [Event(name, properties)]
    {
      entries := entries + [Event(name, properties)];
    }

    method LogWarning(message: Message, exceptionMessage: string)
      modifies this
      ensures entries == old(entries) + [Warning(message, exceptionMessage)]
    {
      entries := entries + [Warning(message, exceptionMessage)];
    }
  }

  class RefreshController {
    const logProvider: LogProvider

    constructor (logProvider: LogProvider)
      ensures this.logProvider == logProvider
    {
      this.logProvider := logProvider;
    }

    /**
     * Refreshes every knowledge base that is due. `catalog` is what the catalog
     * query returns (or the exception it throws); `env` answers the clock reads
     * and the refresh calls. The status says whether the task completes or
     * faults, and `refreshed` lists the positions of the records handed to the
     * refresher, in call order.
     */
    method RefreshAllKBs(catalog: Result<seq<KBInfo>, string>, env: Env)
      returns (status: Status, ghost refreshed: seq<nat>)
      modifies logProvider
      ensures logProvider.entries == old(logProvider.entries) + Cycle(catalog, env).log
      ensures status == Cycle(catalog, env).status
      ensures refreshed == Cycle(catalog, env).refreshed
    {
      ghost var log0 := logProvider.entries;
      logProvider.LogInfo(RefreshingAllKBs);
      match catalog
      case Failure(message) =>
        status, refreshed := Threw(FetchFailed(message)), [];
      case Success(kbList) =>
        logProvider.LogInfo(FoundKBs(|kbList|));
        assert logProvider.entries == log0 + Header(|kbList|);
        status, refreshed := RefreshEach(kbList, env);
    }

    /**
     * The foreach loop over the snapshot, after the two info logs. It stops
     * early only when AddHours throws.
     */
    method RefreshEach(kbList: seq<KBInfo>, env: Env) returns (status: Status, ghost refreshed: seq<nat>)
      modifies logProvider
      ensures logProvider.entries == old(logProvider.entries) + Walk(kbList, env).log
      ensures refreshed == Walk(kbList, env).refreshed
      ensures status == Walk(kbList, env).status
    {
      ghost var log0 := logProvider.entries;
      ghost var logs := RecordLogs(kbList, env);
      refreshed := [];
      var i := 0;
      while i < |kbList|
        invariant 0 <= i <= |kbList|
        invariant i <= FirstOverflow(kbList)
        invariant logProvider.entries == log0 + Flatten(logs[..i])
        invariant refreshed == DuePositions(kbList, env, i)
      {
        var threw, called := ProcessRecord(kbList[i], i, env);
        if threw {
          assert FirstOverflow(kbList) == i by { Lemmas.FirstOverflowStep(kbList, i); }
          status := Threw(ArgumentOutOfRange);
          return;
        }
        if called {
          refreshed := refreshed + [i];
        }
        assert i + 1 <= FirstOverflow(kbList) by { Lemmas.FirstOverflowStep(kbList, i); }
        Lemmas.StepLog(kbList, env, i);
        i := i + 1;
      }
      status := Returned;
    }

    /**
     * One pass of the loop body for record `kb` at position `i`. `threw` is
     * set when AddHours throws; that exception is raised outside the try and
     * leaves the cycle. `called` says whether the refresher was invoked.
     */
    method ProcessRecord(kb: KBInfo, i: nat, env: Env) returns (threw: bool, called: bool)
      modifies logProvider
      ensures logProvider.entries
           == old(logProvider.entries) + RecordLog(kb, env.utcNow(i), env.refreshOutcome(i))
      ensures threw == Overflows(kb)
      ensures threw ==> logProvider.entries == old(logProvider.entries)
      ensures called == (Classify(kb, env.utcNow(i)) == Due)
    {
      threw, called := false, false;
      var lastRefreshed := kb.lastRefreshDateTime;
      var frequencyInHours := kb.refreshFrequencyInHours;
      if lastRefreshed == MIN_VALUE || frequencyInHours == 0 {
        return;
      }

      var next := AddHours(lastRefreshed, frequencyInHours as int);
      if next.None? {
        threw := true;
        return;
      }
      var now := env.utcNow(i);
      if next.value < now {
        // RefreshKnowledgeBaseAsync(kb), whose outcome the environment decides.
        var outcome := env.refreshOutcome(i);
        called := true;
        match outcome
        case Succeeded =>
          logProvider.LogEvent(KnowledgeBaseRefreshSuccess, map[KnowledgeBaseId := Str(kb.kbId)]);
        case Failed(message) =>
          logProvider.LogEvent(KnowledgeBaseRefreshFailure, map[
            KnowledgeBaseId := Str(kb.kbId),
            LastRefreshDateTime := Timestamp(lastRefreshed),
            ErrorMessage := Str(message)]);
          logProvider.LogWarning(FailedToRefresh(kb.kbId, message), message);
      } else {
        logProvider.LogInfo(SkippingRefresh(kb.kbId, kb.refreshFrequencyInHours));
      }
    }
  }
}
