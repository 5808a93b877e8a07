/** What the refresh cycle guarantees, proved about RefreshPolicy.Cycle. */
module RefreshLemmas {
  import opened Wrappers
  import opened DateTimes
  import opened Models
  import opened RefreshPolicy

  // ---------------------------------------------------------------------------
  // The due test

  /**
   * The verdict as arithmetic on ticks: exempt records are exempt whatever the
   * time; otherwise the record is due exactly when lastRefreshed plus the
   * frequency lies strictly before now, and not due when it lies at or after it;
   * AddHours throws exactly when that time lies outside [MinValue, MaxValue].
   */
  lemma DueIffNextRefreshStrictlyPassed(kb: KBInfo, now: DateTime)
    ensures var next := kb.lastRefreshDateTime + kb.refreshFrequencyInHours as int * TICKS_PER_HOUR;
      && (Classify(kb, now) == Exempt <==> IsExempt(kb))
      && (Classify(kb, now) == OutOfRange <==> !IsExempt(kb) && !(0 <= next <= MAX_TICKS))
      && (Classify(kb, now) == Due <==> !IsExempt(kb) && 0 <= next <= MAX_TICKS && next < now)
      && (Classify(kb, now) == NotDue <==> !IsExempt(kb) && 0 <= next <= MAX_TICKS && now <= next)
  {
  }

  /** At the boundary instant the record is not yet due: only the skip message is logged. */
  lemma BoundaryIsNotDue(kb: KBInfo, now: DateTime, outcome: Outcome)
    requires !IsExempt(kb)
    requires kb.lastRefreshDateTime + kb.refreshFrequencyInHours as int * TICKS_PER_HOUR == now
    ensures Classify(kb, now) == NotDue
    ensures RecordLog(kb, now, outcome) == [Info(SkippingRefresh(kb.kbId, kb.refreshFrequencyInHours))]
  {
  }

  /**
   * A daily record refreshed 25, 23 and exactly 24 hours ago. In the 23-hour case
   * the next refresh time may lie past DateTime.MaxValue, and then AddHours throws.
   */
  lemma DailyRecordExamples(kb: KBInfo, now: DateTime)
    requires kb.refreshFrequencyInHours == 24 && kb.lastRefreshDateTime != MIN_VALUE
    ensures now == kb.lastRefreshDateTime + 25 * TICKS_PER_HOUR ==> Classify(kb, now) == Due
    ensures now == kb.lastRefreshDateTime + 23 * TICKS_PER_HOUR ==>
      Classify(kb, now) == if now + TICKS_PER_HOUR <= MAX_TICKS then NotDue else OutOfRange
    ensures now == kb.lastRefreshDateTime + 24 * TICKS_PER_HOUR ==> Classify(kb, now) == NotDue
  {
  }

  // ---------------------------------------------------------------------------
  // What one record contributes

  /**
   * Per verdict: an exempt or overflowing record logs nothing; one not yet due
   * logs one skip message and no event; a due record logs exactly one event,
   * a success event keyed by its id alone, or a failure event carrying its id,
   * its prior LastRefreshDateTime and the error message, followed by one warning.
   */
  lemma RecordLogCases(kb: KBInfo, now: DateTime, outcome: Outcome)
    ensures Classify(kb, now) in {Exempt, OutOfRange} ==> RecordLog(kb, now, outcome) == []
    ensures Classify(kb, now) == NotDue ==>
      RecordLog(kb, now, outcome) == [Info(SkippingRefresh(kb.kbId, kb.refreshFrequencyInHours))]
    ensures Classify(kb, now) == Due && outcome.Succeeded? ==>
      var log := RecordLog(kb, now, outcome);
      && |log| == 1 && log[0].Event? && log[0].name == KnowledgeBaseRefreshSuccess
      && log[0].properties.Keys == {KnowledgeBaseId}
      && log[0].properties[KnowledgeBaseId] == Str(kb.kbId)
    ensures Classify(kb, now) == Due && outcome.Failed? ==>
      var log := RecordLog(kb, now, outcome);
      && |log| == 2 && log[0].Event? && log[0].name == KnowledgeBaseRefreshFailure
      && log[0].properties.Keys == {KnowledgeBaseId, LastRefreshDateTime, ErrorMessage}
      && log[0].properties[KnowledgeBaseId] == Str(kb.kbId)
      && log[0].properties[LastRefreshDateTime] == Timestamp(kb.lastRefreshDateTime)
      && log[0].properties[ErrorMessage] == Str(outcome.errorMessage)
      && log[1] == Warning(FailedToRefresh(kb.kbId, outcome.errorMessage), outcome.errorMessage)
  {
  }

  /** An exempt record is never handed to the refresher and contributes nothing. */
  lemma ExemptRecordLeavesNoTrace(kbs: seq<KBInfo>, env: Env, i: nat)
    requires i < |kbs| && IsExempt(kbs[i])
    ensures RecordLogs(kbs, env)[i] == []
    ensures i !in Cycle(Success(kbs), env).refreshed
  {
    assert Classify(kbs[i], env.utcNow(i)) == Exempt;
    DuePositionsAreTheDueRecords(kbs, env, FirstOverflow(kbs));
  }

  // ---------------------------------------------------------------------------
  // Flattening the per-record logs

  lemma {:induction false} FlattenSnoc(ss: seq<seq<LogEntry>>, s: seq<LogEntry>)
    ensures Flatten(ss + [s]) == Flatten(ss) + s
  {
    if ss == [] {
      assert [s][1..] == [];
    } else {
      assert (ss + [s])[1..] == ss[1..] + [s];
      FlattenSnoc(ss[1..], s);
    }
  }

  lemma {:induction false} FlattenAppend(a: seq<seq<LogEntry>>, b: seq<seq<LogEntry>>)
    ensures Flatten(a + b) == Flatten(a) + Flatten(b)
  {
    if a == [] {
      assert a + b == b;
    } else {
      assert (a + b)[1..] == a[1..] + b;
      FlattenAppend(a[1..], b);
    }
  }

  /** Walking one more record appends that record's entries, and its position when it is due. */
  lemma StepLog(kbs: seq<KBInfo>, env: Env, i: nat)
    requires i < |kbs|
    ensures Flatten(RecordLogs(kbs, env)[..i + 1])
         == Flatten(RecordLogs(kbs, env)[..i]) + RecordLog(kbs[i], env.utcNow(i), env.refreshOutcome(i))
    ensures DuePositions(kbs, env, i + 1)
         == DuePositions(kbs, env, i) + (if IsDue(kbs, env, i) then [i] else [])
  {
    var logs := RecordLogs(kbs, env);
    assert logs[..i + 1] == logs[..i] + [logs[i]];
    FlattenSnoc(logs[..i], logs[i]);
  }

  /** FirstOverflow finds the first overflowing record, or the end of the snapshot. */
  lemma {:induction false} FirstOverflowIsFirst(kbs: seq<KBInfo>)
    ensures forall k :: 0 <= k < FirstOverflow(kbs) ==> !Overflows(kbs[k])
    ensures FirstOverflow(kbs) < |kbs| ==> Overflows(kbs[FirstOverflow(kbs)])
  {
    if kbs != [] && !Overflows(kbs[0]) {
      FirstOverflowIsFirst(kbs[1..]);
      forall k | 1 <= k < FirstOverflow(kbs)
        ensures !Overflows(kbs[k])
      {
        assert kbs[k] == kbs[1..][k - 1];
      }
    }
  }

  /** Walking past a record that does not overflow keeps the walk at or before the first overflow. */
  lemma FirstOverflowStep(kbs: seq<KBInfo>, i: nat)
    requires i < |kbs| && i <= FirstOverflow(kbs)
    ensures Overflows(kbs[i]) ==> FirstOverflow(kbs) == i
    ensures !Overflows(kbs[i]) ==> i + 1 <= FirstOverflow(kbs)
  {
    FirstOverflowIsFirst(kbs);
  }

  /**
   * The records handed to the refresher are exactly the due ones, each once,
   * in list order.
   */
  lemma {:induction false} DuePositionsAreTheDueRecords(kbs: seq<KBInfo>, env: Env, n: nat)
    requires n <= |kbs|
    ensures StrictlyIncreasing(DuePositions(kbs, env, n))
    ensures forall p: nat :: p in DuePositions(kbs, env, n) <==> p < n && IsDue(kbs, env, p)
  {
    if n > 0 {
      DuePositionsAreTheDueRecords(kbs, env, n - 1);
    }
  }

  // ---------------------------------------------------------------------------
  // The cycle as a whole

  /**
   * A cycle over a snapshot returns normally exactly when no record's next
   * refresh time overflows; what the refresher answers plays no part.
   */
  lemma CompletesUnlessDateOverflows(kbs: seq<KBInfo>, env: Env)
    ensures Cycle(Success(kbs), env).status == Returned
        <==> forall i :: 0 <= i < |kbs| ==> !Overflows(kbs[i])
    ensures Cycle(Success(kbs), env).status != Returned
        ==> Cycle(Success(kbs), env).status == Threw(ArgumentOutOfRange)
  {
    FirstOverflowIsFirst(kbs);
  }

  /** The due positions depend on the clock readings only, never on refresh outcomes. */
  lemma {:induction false} DuePositionsIgnoreOutcomes(kbs: seq<KBInfo>, env1: Env, env2: Env, n: nat)
    requires n <= |kbs|
    requires forall i :: 0 <= i < |kbs| ==> env1.utcNow(i) == env2.utcNow(i)
    ensures DuePositions(kbs, env1, n) == DuePositions(kbs, env2, n)
  {
    if n > 0 {
      DuePositionsIgnoreOutcomes(kbs, env1, env2, n - 1);
      assert IsDue(kbs, env1, n - 1) == IsDue(kbs, env2, n - 1);
    }
  }

  /**
   * Failure isolation: two cycles over the same snapshot that read the same
   * clock refresh the same records, in the same order, and end the same way,
   * whatever the refresher answers.
   */
  lemma OutcomesDoNotChangeWhatIsRefreshed(kbs: seq<KBInfo>, env1: Env, env2: Env)
    requires forall i :: 0 <= i < |kbs| ==> env1.utcNow(i) == env2.utcNow(i)
    ensures Cycle(Success(kbs), env1).refreshed == Cycle(Success(kbs), env2).refreshed
    ensures Cycle(Success(kbs), env1).status == Cycle(Success(kbs), env2).status
  {
    DuePositionsIgnoreOutcomes(kbs, env1, env2, FirstOverflow(kbs));
  }

  /**
   * Record i's entries sit in one block of the cycle's log, after the blocks
   * of the records before it and before those of the records after it.
   */
  lemma RecordEntriesInListOrder(kbs: seq<KBInfo>, env: Env, i: nat)
    requires i < FirstOverflow(kbs)
    ensures var log := Cycle(Success(kbs), env).log;
      && Offset(kbs, env, i) <= Offset(kbs, env, i + 1) <= |log|
      && log[Offset(kbs, env, i)..Offset(kbs, env, i + 1)]
         == RecordLog(kbs[i], env.utcNow(i), env.refreshOutcome(i))
  {
    var logs := RecordLogs(kbs, env);
    var j := FirstOverflow(kbs);
    var before := Header(|kbs|) + Flatten(logs[..i]);
    var record := RecordLog(kbs[i], env.utcNow(i), env.refreshOutcome(i));
    var after := Flatten(logs[i + 1..j]);
    StepLog(kbs, env, i);
    assert logs[..j] == logs[..i + 1] + logs[i + 1..j];
    FlattenAppend(logs[..i + 1], logs[i + 1..j]);
    calc {
      Cycle(Success(kbs), env).log;
      Header(|kbs|) + Flatten(logs[..j]);
      Header(|kbs|) + (Flatten(logs[..i + 1]) + after);
      Header(|kbs|) + (Flatten(logs[..i]) + record + after);
      before + record + after;
    }
    SliceOfMiddle(before, record, after);
  }

  lemma SliceOfMiddle<T>(a: seq<T>, b: seq<T>, c: seq<T>)
    ensures (a + b + c)[|a|..|a| + |b|] == b
  {
  }

  /**
   * The cycle's log opens with "Refreshing all knowledge bases" and "Found N
   * configured KBs" for the snapshot's length N; the records' blocks fill the
   * rest. A catalog error leaves only the first of the two.
   */
  lemma CycleLogLayout(catalog: Result<seq<KBInfo>, string>, env: Env)
    ensures catalog.Failure? ==> Cycle(catalog, env).log == [Info(RefreshingAllKBs)]
    ensures catalog.Success? ==>
      var kbs := catalog.value;
      var log := Cycle(catalog, env).log;
      && |log| >= 2 && log[..2] == [Info(RefreshingAllKBs), Info(FoundKBs(|kbs|))]
      && Offset(kbs, env, 0) == 2
      && Offset(kbs, env, FirstOverflow(kbs)) == |log|
  {
  }

  // ---------------------------------------------------------------------------
  // Counting refresh calls and events

  lemma {:induction false} CountsAppend(a: seq<LogEntry>, b: seq<LogEntry>, name: EventName)
    ensures CountEvents(a + b, name) == CountEvents(a, name) + CountEvents(b, name)
    ensures CountWarnings(a + b) == CountWarnings(a) + CountWarnings(b)
  {
    if a != [] {
      assert (a + b)[1..] == a[1..] + b;
      CountsAppend(a[1..], b, name);
    } else {
      assert a + b == b;
    }
  }

  lemma CountsOfRecord(kb: KBInfo, now: DateTime, outcome: Outcome)
    ensures var log := RecordLog(kb, now, outcome);
      && CountEvents(log, KnowledgeBaseRefreshSuccess) == (if Classify(kb, now) == Due && outcome.Succeeded? then 1 else 0)
      && CountEvents(log, KnowledgeBaseRefreshFailure) == (if Classify(kb, now) == Due && outcome.Failed? then 1 else 0)
      && CountWarnings(log) == CountEvents(log, KnowledgeBaseRefreshFailure)
  {
    match Classify(kb, now)
    case Due =>
      match outcome {
        case Succeeded =>
          CountSingle(SuccessEvent(kb));
        case Failed(message) =>
          var failure, warning := FailureEvent(kb, message), Warning(FailedToRefresh(kb.kbId, message), message);
          CountSingle(failure);
          CountSingle(warning);
          CountsAppend([failure], [warning], KnowledgeBaseRefreshSuccess);
          CountsAppend([failure], [warning], KnowledgeBaseRefreshFailure);
      }
    case NotDue =>
      CountSingle(Info(SkippingRefresh(kb.kbId, kb.refreshFrequencyInHours)));
    case Exempt =>
    case OutOfRange =>
  }

  lemma CountSingle(e: LogEntry)
    ensures forall name :: CountEvents([e], name) == if e.Event? && e.name == name then 1 else 0
    ensures CountWarnings([e]) == if e.Warning? then 1 else 0
  {
    assert [e][1..] == [];
  }

  lemma {:induction false} PrefixCounts(kbs: seq<KBInfo>, env: Env, n: nat)
    requires n <= |kbs|
    ensures var log := Flatten(RecordLogs(kbs, env)[..n]);
      && CountEvents(log, KnowledgeBaseRefreshSuccess) + CountEvents(log, KnowledgeBaseRefreshFailure) == |DuePositions(kbs, env, n)|
      && CountWarnings(log) == CountEvents(log, KnowledgeBaseRefreshFailure)
  {
    var logs := RecordLogs(kbs, env);
    if n == 0 {
      assert logs[..0] == [];
    } else {
      PrefixCounts(kbs, env, n - 1);
      StepLog(kbs, env, n - 1);
      var r := n - 1;
      CountsOfRecord(kbs[r], env.utcNow(r), env.refreshOutcome(r));
      var contribution := RecordLog(kbs[r], env.utcNow(r), env.refreshOutcome(r));
      CountsAppend(Flatten(logs[..r]), contribution, KnowledgeBaseRefreshSuccess);
      CountsAppend(Flatten(logs[..r]), contribution, KnowledgeBaseRefreshFailure);
    }
  }

  /**
   * Over a cycle the refresher is called once per due record visited, and the
   * number of calls equals the number of success events plus failure events;
   * every failure event has its warning.
   */
  lemma RefreshCallsMatchEvents(catalog: Result<seq<KBInfo>, string>, env: Env)
    ensures var c := Cycle(catalog, env);
      && |c.refreshed| == CountEvents(c.log, KnowledgeBaseRefreshSuccess) + CountEvents(c.log, KnowledgeBaseRefreshFailure)
      && CountWarnings(c.log) == CountEvents(c.log, KnowledgeBaseRefreshFailure)
  {
    if catalog.Success? {
      var kbs := catalog.value;
      var walk := Flatten(RecordLogs(kbs, env)[..FirstOverflow(kbs)]);
      PrefixCounts(kbs, env, FirstOverflow(kbs));
      CountsAppend(Header(|kbs|), walk, KnowledgeBaseRefreshSuccess);
      CountsAppend(Header(|kbs|), walk, KnowledgeBaseRefreshFailure);
    }
  }

  // ---------------------------------------------------------------------------
  // A worked cycle

  /**
   * Three daily records: K1 due and refreshed, K2 refreshed 23 hours ago, K3 due
   * and failing with "timeout". K1 gets a success event, K2 a skip message, K3 a
   * failure event and a warning, and the cycle returns normally.
   */
  lemma ThreeRecordCycle(k1: KBInfo, k2: KBInfo, k3: KBInfo, now: DateTime, env: Env)
    requires 25 * TICKS_PER_HOUR < now <= MAX_TICKS - TICKS_PER_HOUR
    requires k1.refreshFrequencyInHours == k2.refreshFrequencyInHours == k3.refreshFrequencyInHours == 24
    requires k1.lastRefreshDateTime == now - 25 * TICKS_PER_HOUR
    requires k2.lastRefreshDateTime == now - 23 * TICKS_PER_HOUR
    requires k3.lastRefreshDateTime == now - 25 * TICKS_PER_HOUR
    requires env.utcNow(0) == env.utcNow(1) == env.utcNow(2) == now
    requires env.refreshOutcome(0) == Succeeded && env.refreshOutcome(2) == Failed("timeout")
    ensures Cycle(Success([k1, k2, k3]), env) == Trace(
      Header(3) + [
        SuccessEvent(k1),
        Info(SkippingRefresh(k2.kbId, 24)),
        FailureEvent(k3, "timeout"),
        Warning(FailedToRefresh(k3.kbId, "timeout"), "timeout")],
      [0, 2],
      Returned)
  {
    var kbs := [k1, k2, k3];
    assert kbs[1..] == [k2, k3] && kbs[1..][1..] == kbs[2..] == [k3] && kbs[2..][1..] == [];
    assert !Overflows(k1) && !Overflows(k2) && !Overflows(k3);
    assert FirstOverflow([k3]) == 1;
    assert FirstOverflow([k2, k3]) == 2;
    assert FirstOverflow(kbs) == 3;
    assert Classify(k1, now) == Due && Classify(k2, now) == NotDue && Classify(k3, now) == Due;
    assert DuePositions(kbs, env, 1) == [0];
    assert DuePositions(kbs, env, 2) == [0];
    assert DuePositions(kbs, env, 3) == [0, 2];
    var logs := RecordLogs(kbs, env);
    assert logs[..3] == [logs[0], logs[1], logs[2]];
    assert Flatten(logs[..3]) == logs[0] + logs[1] + logs[2] by {
      assert [logs[0], logs[1], logs[2]][1..] == [logs[1], logs[2]];
      assert [logs[1], logs[2]][1..] == [logs[2]];
      assert [logs[2]][1..] == [];
      assert Flatten([logs[2]]) == logs[2];
      assert Flatten([logs[1], logs[2]]) == logs[1] + logs[2];
    }
  }
}
