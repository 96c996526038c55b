// The navigation logger: a scenario state machine over two fixed-size
// buffers. Events are kept only while there is room; parameters are written
// round the parameter buffer by their running count, so the buffer always
// holds the most recent ones. Buffer sizes are constructor parameters.

module NavLogging {

  import opened ImageTypes
  import opened NavLogTypes

  /** Two indices less than `m` apart never share a slot modulo `m`. */
  lemma {:induction false} DistinctSlots(i: int, p: int, m: int)
    requires 0 <= i < p < i + m
    ensures i % m != p % m
  {
    var qi, qp := i / m, p / m;
    if i % m == p % m {
      var k := qp - qi;
      assert p - i == k * m;
      if k <= 0 {
        MulNonPositive(k, m);
      } else {
        MulAtLeast(k, m);
      }
    }
  }

  lemma MulNonPositive(k: int, m: int)
    requires k <= 0 < m
    ensures k * m <= 0
  {
  }

  lemma MulAtLeast(k: int, m: int)
    requires 0 < k && 0 < m
    ensures m <= k * m
  {
  }

  lemma ModSmall(i: int, m: int)
    requires 0 <= i < m
    ensures i % m == i
  {
  }

  // ---------------------------------------------------------------------
  // The logger's mutex

  /**
   * The lock requests a call makes on the logger's mutex, in order, each
   * given by the number of lockers of the same thread already holding it.
   * The mutex is not recursive: a request made while it is held never
   * returns.
   */
  predicate SelfDeadlocks(requests: seq<nat>)
  {
    exists i :: 0 <= i < |requests| && requests[i] > 0
  }

  /** logEvent locks once, after its enabled and active-scenario test, with `held` lockers already holding the mutex. */
  function LogEventLocks(enabled: bool, active: bool, held: nat): (r: seq<nat>)
    ensures |r| == (if enabled && active then 1 else 0)
    ensures forall i :: 0 <= i < |r| ==> r[i] == held
  {
    if enabled && active then [held] else []
  }

  /** flushLogs locks once, after its enabled test, with `held` lockers already holding the mutex. */
  function FlushLogsLocks(enabled: bool, held: nat): (r: seq<nat>)
    ensures |r| == (if enabled then 1 else 0)
    ensures forall i :: 0 <= i < |r| ==> r[i] == held
  {
    if enabled then [held] else []
  }

  /**
   * endScenario as written: after its test it takes its own locker and
   * calls logEvent and flushLogs while still holding it.
   */
  function EndScenarioLocksAsWritten(enabled: bool, active: bool): seq<nat>
  {
    if !enabled || !active then []
    else [0] + LogEventLocks(enabled, active, 1) + FlushLogsLocks(enabled, 1)
  }

  /** As written, every call that gets past the test blocks on its own mutex; the others return. */
  lemma EndScenarioDeadlocksAsWritten(enabled: bool, active: bool)
    ensures SelfDeadlocks(EndScenarioLocksAsWritten(enabled, active)) <==> enabled && active
  {
    var r := EndScenarioLocksAsWritten(enabled, active);
    if enabled && active {
      assert r[1] == 1;
    }
  }

  /**
   * endScenario corrected: the end event is logged and the report flushed
   * with the mutex free, each callee taking it in turn.
   */
  function EndScenarioLocksCorrected(enabled: bool, active: bool): seq<nat>
  {
    if !enabled || !active then []
    else [0] + LogEventLocks(enabled, active, 0) + FlushLogsLocks(enabled, 0)
  }

  /** Corrected, an active end takes the mutex three times, each time free. */
  lemma EndScenarioCorrectedNeverBlocks(enabled: bool, active: bool)
    ensures !SelfDeadlocks(EndScenarioLocksCorrected(enabled, active))
    ensures |EndScenarioLocksCorrected(enabled, active)| == (if enabled && active then 3 else 0)
  {
  }

  /**
   * beginScenario: after its enabled test it locks, and the endScenario it
   * calls for a running scenario sees no active scenario and returns.
   */
  function BeginScenarioLocks(enabled: bool, active: bool): seq<nat>
  {
    if !enabled then []
    else [0] + (if active then EndScenarioLocksAsWritten(enabled, false) else [])
  }

  /** beginScenario never blocks, even with a scenario still running. */
  lemma BeginScenarioNeverBlocks(enabled: bool, active: bool)
    ensures !SelfDeadlocks(BeginScenarioLocks(enabled, active))
    ensures |BeginScenarioLocks(enabled, active)| == (if enabled then 1 else 0)
  {
  }

  class NavLogger {
    const maxEvents: nat
    const maxParams: nat
    const events: array<NavEvent>
    const params: array<NavParam>
    var eventCount: int
    var paramCount: int
    var activeScenario: NavScenarioType
    var enabled: bool
    var nodeCount: int
    var textureCount: int
    var renderTimeMs: int
    /** Every parameter written since the scenario began, oldest first. */
    ghost var paramLog: seq<NavParam>

    /** The event count stays within the event buffer, and an active scenario has logged its start. */
    ghost predicate EventsValid()
      reads this`eventCount, this`activeScenario
    {
      events.Length == maxEvents && 0 < maxEvents &&
      0 <= eventCount <= maxEvents &&
      (activeScenario != ScenarioNone ==> 1 <= eventCount)
    }

    /** The parameter buffer holds the last `maxParams` parameters of the log, each in the slot of its position. */
    ghost predicate ParamsValid()
      reads this`paramCount, this`paramLog, params
    {
      params.Length == maxParams && 0 < maxParams &&
      paramCount == |paramLog| &&
      forall i :: 0 <= i < paramCount && paramCount - maxParams <= i ==> params[i % maxParams] == paramLog[i]
    }

    ghost predicate Valid()
      reads this`eventCount, this`activeScenario, this`paramCount, this`paramLog, params
    {
      EventsValid() && ParamsValid()
    }

    /** The events logged in the current scenario, oldest first. */
    function Events(): seq<NavEvent>
      reads this`eventCount, events
      requires 0 <= eventCount <= events.Length
    {
      events[..eventCount]
    }

    /** The most recent parameters, those the buffer still holds. */
    ghost function RecentParams(): (r: seq<NavParam>)
      reads this`paramCount, this`paramLog, params
      requires ParamsValid()
      ensures |r| <= maxParams
      ensures |r| == if paramCount < maxParams then paramCount else maxParams
      ensures forall k :: 0 <= k < |r| ==> r[k] == params[(paramCount - |r| + k) % maxParams]
    {
      var from := if paramCount < maxParams then 0 else paramCount - maxParams;
      var r := paramLog[from..];
      assert forall k :: 0 <= k < |r| ==> r[k] == paramLog[from + k];
      r
    }

    /** A new logger: enabled, no scenario, nothing logged, no metrics. */
    constructor(maxEvents: nat, maxParams: nat)
      requires 0 < maxEvents && 0 < maxParams
      ensures this.maxEvents == maxEvents && this.maxParams == maxParams
      ensures Valid() && fresh(events) && fresh(params)
      ensures enabled && !IsScenarioActive()
      ensures eventCount == 0 && paramCount == 0 && paramLog == []
      ensures nodeCount == 0 && textureCount == 0 && renderTimeMs == 0
    {
      this.maxEvents := maxEvents;
      this.maxParams := maxParams;
      events := new NavEvent[maxEvents](_ => NavEvent(ScenarioStart, ScenarioNone, 0, 0));
      params := new NavParam[maxParams](_ => NavParam(0, 0, 0.0));
      eventCount := 0;
      paramCount := 0;
      activeScenario := ScenarioNone;
      enabled := true;
      nodeCount := 0;
      textureCount := 0;
      renderTimeMs := 0;
      paramLog := [];
    }

    predicate IsScenarioActive()
      reads this`activeScenario
    {
      activeScenario != ScenarioNone
    }

    function IsEnabled(): bool
      reads this`enabled
    {
      enabled
    }

    /** Switch logging on or off; the next query reports the new setting. */
    method SetEnabled(b: bool)
      modifies this`enabled
      ensures IsEnabled() == b
    {
      enabled := b;
    }

    /** Write an event into the next free slot. */
    method RecordEvent(t: NavEventType, s: NavScenarioType, index: int16, timestamp: int)
      requires events.Length == maxEvents && 0 <= eventCount < maxEvents
      modifies this`eventCount, events
      ensures eventCount == old(eventCount) + 1
      ensures Events() == old(Events()) + [NavEvent(t, s, index, timestamp)]
    {
      ModSmall(eventCount, maxEvents);
      var eventIndex := eventCount % maxEvents;
      events[eventIndex] := NavEvent(t, s, index, timestamp);
      eventCount := eventCount + 1;
    }

    /** Write a parameter into the slot of its position, overwriting the oldest once the buffer is full. */
    method AppendParam(p: NavParam)
      requires ParamsValid()
      modifies this`paramCount, this`paramLog, params
      ensures paramCount == old(paramCount) + 1
      ensures paramLog == old(paramLog) + [p]
      ensures ParamsValid()
    {
      var paramIndex := paramCount % maxParams;
      params[paramIndex] := p;
      paramLog := paramLog + [p];
      paramCount := paramCount + 1;
      forall i | 0 <= i < paramCount && paramCount - maxParams <= i
        ensures params[i % maxParams] == paramLog[i]
      {
        if i < paramCount - 1 {
          DistinctSlots(i, paramCount - 1, maxParams);
        }
      }
    }

    /**
     * Log an event of the active scenario with the elapsed time; when the
     * event buffer is full the event is dropped with a warning.
     */
    method LogEvent(t: NavEventType, index: int16, elapsed: nat) returns (warned: bool)
      requires EventsValid()
      modifies this`eventCount, events
      ensures EventsValid()
      ensures warned <==> enabled && IsScenarioActive() && old(eventCount) >= maxEvents
      ensures Events() == if enabled && IsScenarioActive() && old(eventCount) < maxEvents
                          then old(Events()) + [NavEvent(t, activeScenario, index, Uint32(elapsed))]
                          else old(Events())
    {
      warned := false;
      if !enabled || activeScenario == ScenarioNone {
        return;
      }
      if eventCount >= maxEvents {
        warned := true;
        return;
      }
      RecordEvent(t, activeScenario, index, Uint32(elapsed));
    }

    /**
     * Log an event with an integer parameter: the event is kept while there
     * is room; the parameter is dropped with a warning once the parameter
     * count reaches the buffer size.
     */
    method LogEventWithIntParam(t: NavEventType, index: int16, nameChecksum: nat, value: int32, elapsed: nat)
      returns (warned: bool)
      requires Valid()
      modifies this`eventCount, events, this`paramCount, this`paramLog, params
      ensures Valid()
      ensures warned <==> enabled && IsScenarioActive() && old(paramCount) >= maxParams
      ensures Events() == if enabled && IsScenarioActive() && old(eventCount) < maxEvents
                          then old(Events()) + [NavEvent(t, activeScenario, index, Uint32(elapsed))]
                          else old(Events())
      ensures paramLog == if enabled && IsScenarioActive() && old(paramCount) < maxParams
                          then old(paramLog) + [NavParam(ParamTypeOf(nameChecksum), Uint32(value as int), 0.0)]
                          else old(paramLog)
    {
      warned := LogParamEvent(t, index, NavParam(ParamTypeOf(nameChecksum), Uint32(value as int), 0.0), elapsed);
    }

    /** The floating-point overload: the same, with the value in the floating-point field. */
    method LogEventWithFloatParam(t: NavEventType, index: int16, nameChecksum: nat, value: real, elapsed: nat)
      returns (warned: bool)
      requires Valid()
      modifies this`eventCount, events, this`paramCount, this`paramLog, params
      ensures Valid()
      ensures warned <==> enabled && IsScenarioActive() && old(paramCount) >= maxParams
      ensures Events() == if enabled && IsScenarioActive() && old(eventCount) < maxEvents
                          then old(Events()) + [NavEvent(t, activeScenario, index, Uint32(elapsed))]
                          else old(Events())
      ensures paramLog == if enabled && IsScenarioActive() && old(paramCount) < maxParams
                          then old(paramLog) + [NavParam(ParamTypeOf(nameChecksum), 0, value)]
                          else old(paramLog)
    {
      warned := LogParamEvent(t, index, NavParam(ParamTypeOf(nameChecksum), 0, value), elapsed);
    }

    /** The body both overloads share: the event when there is room, then the parameter when there is room. */
    method LogParamEvent(t: NavEventType, index: int16, p: NavParam, elapsed: nat) returns (warned: bool)
      requires Valid()
      modifies this`eventCount, events, this`paramCount, this`paramLog, params
      ensures Valid()
      ensures warned <==> enabled && IsScenarioActive() && old(paramCount) >= maxParams
      ensures Events() == if enabled && IsScenarioActive() && old(eventCount) < maxEvents
                          then old(Events()) + [NavEvent(t, activeScenario, index, Uint32(elapsed))]
                          else old(Events())
      ensures paramLog == if enabled && IsScenarioActive() && old(paramCount) < maxParams
                          then old(paramLog) + [p]
                          else old(paramLog)
    {
      warned := false;
      if !enabled || activeScenario == ScenarioNone {
        return;
      }
      if eventCount < maxEvents {
        RecordEvent(t, activeScenario, index, Uint32(elapsed));
      }
      if paramCount >= maxParams {
        warned := true;
        return;
      }
      AppendParam(p);
    }

    /**
     * Log a position checkpoint: a position event, then the x and y
     * coordinates as two parameters, written whatever the parameter count.
     */
    method LogPosition(checkpointChecksum: nat, x: real, y: real, index: int16, elapsed: nat)
      returns (warned: bool)
      requires Valid()
      modifies this`eventCount, events, this`paramCount, this`paramLog, params
      ensures Valid()
      ensures warned <==> enabled && IsScenarioActive() && old(eventCount) >= maxEvents
      ensures Events() == if enabled && IsScenarioActive() && old(eventCount) < maxEvents
                          then old(Events()) + [NavEvent(CalcPos, activeScenario, index, Uint32(elapsed))]
                          else old(Events())
      ensures paramLog == if enabled && IsScenarioActive()
                          then old(paramLog) + [NavParam(ParamTypeOf(checkpointChecksum), 0, x), NavParam(0, 0, y)]
                          else old(paramLog)
    {
      warned := false;
      if !enabled || activeScenario == ScenarioNone {
        return;
      }
      warned := LogEvent(CalcPos, index, elapsed);
      AppendParam(NavParam(ParamTypeOf(checkpointChecksum), 0, x));
      AppendParam(NavParam(0, 0, y));
    }

    /**
     * Log a bounds check: a bounds-check event without an index, then the
     * value, minimum, maximum and result as four parameters, written whatever
     * the parameter count.
     */
    method LogBoundsCheck(boundTypeChecksum: nat, value: real, min: real, max: real, result: real, elapsed: nat)
      returns (warned: bool)
      requires Valid()
      modifies this`eventCount, events, this`paramCount, this`paramLog, params
      ensures Valid()
      ensures warned <==> enabled && IsScenarioActive() && old(eventCount) >= maxEvents
      ensures Events() == if enabled && IsScenarioActive() && old(eventCount) < maxEvents
                          then old(Events()) + [NavEvent(BoundsCheck, activeScenario, -1, Uint32(elapsed))]
                          else old(Events())
      ensures paramLog == if enabled && IsScenarioActive()
                          then old(paramLog) + [NavParam(ParamTypeOf(boundTypeChecksum), 0, value), NavParam(1, 0, min),
                                                NavParam(2, 0, max), NavParam(3, 0, result)]
                          else old(paramLog)
    {
      warned := false;
      if !enabled || activeScenario == ScenarioNone {
        return;
      }
      warned := LogEvent(BoundsCheck, -1, elapsed);
      AppendParam(NavParam(ParamTypeOf(boundTypeChecksum), 0, value));
      AppendParam(NavParam(1, 0, min));
      AppendParam(NavParam(2, 0, max));
      AppendParam(NavParam(3, 0, result));
    }

    /** Record a metrics snapshot whenever logging is enabled, scenario or not. */
    method LogMetrics(nodes: int, textures: int, renderTime: int)
      modifies this`nodeCount, this`textureCount, this`renderTimeMs
      ensures enabled ==> nodeCount == nodes && textureCount == textures && renderTimeMs == renderTime
      ensures !enabled ==> nodeCount == old(nodeCount) && textureCount == old(textureCount) && renderTimeMs == old(renderTimeMs)
    {
      if !enabled {
        return;
      }
      nodeCount := nodes;
      textureCount := textures;
      renderTimeMs := renderTime;
    }

    /**
     * The report of the current scenario: nothing when disabled or when no
     * event was logged; otherwise the summary and one timeline line per
     * logged event, in the order they were logged.
     */
    method FlushLogs(elapsed: nat) returns (report: Option<Report>)
      requires EventsValid()
      ensures report.Some? <==> enabled && eventCount > 0
      ensures report.Some? ==> report.value == Report(ScenarioName(activeScenario), Uint32(elapsed), eventCount,
                                                      nodeCount, textureCount, Timeline(Events()))
      ensures report.Some? ==> |report.value.timeline| <= maxEvents
    {
      if !enabled || eventCount == 0 {
        return None;
      }
      var totalDuration := Uint32(elapsed);
      var outputLimit := if eventCount < maxEvents then eventCount else maxEvents;
      // The event count never exceeds the buffer, so the timeline starts at the first event.
      var lines: seq<TimelineLine> := [];
      var i := 0;
      while i < eventCount && i < outputLimit
        invariant 0 <= i <= eventCount
        invariant lines == Timeline(events[..i])
      {
        ModSmall(i, maxEvents);
        var idx := i % maxEvents;
        var evt := events[idx];
        assert events[..i + 1][..i] == events[..i];
        assert Timeline(events[..i + 1]) == Timeline(events[..i]) + [LineOf(evt)];
        lines := lines + [LineOf(evt)];
        i := i + 1;
      }
      report := Some(Report(ScenarioName(activeScenario), totalDuration, eventCount, nodeCount, textureCount, lines));
    }

    /**
     * End the active scenario: log its completion, report it and return to
     * no scenario. Nothing happens when disabled or with no active scenario.
     */
    method EndScenario(elapsed: nat) returns (report: Option<Report>)
      requires EventsValid()
      modifies this`eventCount, events, this`activeScenario
      ensures EventsValid()
      ensures !old(enabled && IsScenarioActive()) ==>
                report == None && eventCount == old(eventCount) && activeScenario == old(activeScenario) &&
                Events() == old(Events())
      ensures old(enabled && IsScenarioActive()) ==>
                !IsScenarioActive() &&
                Events() == old(Events()) + (if old(eventCount) < maxEvents
                                             then [NavEvent(CalcComplete, old(activeScenario), -1, Uint32(elapsed))]
                                             else []) &&
                report == Some(Report(ScenarioName(old(activeScenario)), Uint32(elapsed), eventCount,
                                      nodeCount, textureCount, Timeline(Events())))
    {
      if !enabled || activeScenario == ScenarioNone {
        return None;
      }
      var _ := LogEvent(CalcComplete, -1, elapsed);
      report := FlushLogs(elapsed);
      activeScenario := ScenarioNone;
    }

    /**
     * Start a scenario of type `t`: both buffers restart from empty with the
     * start event. The events of a scenario still active are discarded
     * without a report: the nested end sees no active scenario.
     */
    method BeginScenario(t: NavScenarioType) returns (report: Option<Report>)
      requires Valid()
      modifies this`eventCount, events, this`activeScenario, this`paramCount, this`paramLog
      ensures Valid()
      ensures report == None
      ensures !enabled ==>
                eventCount == old(eventCount) && paramCount == old(paramCount) && paramLog == old(paramLog) &&
                activeScenario == old(activeScenario) && Events() == old(Events())
      ensures enabled ==>
                activeScenario == t && Events() == [NavEvent(ScenarioStart, t, -1, 0)] &&
                paramCount == 0 && paramLog == []
    {
      report := None;
      if !enabled {
        return;
      }
      if activeScenario != ScenarioNone {
        var oldType := activeScenario;
        activeScenario := ScenarioNone;
        report := EndScenario(0);
        activeScenario := oldType;
      }
      activeScenario := t;
      eventCount := 0;
      paramCount := 0;
      paramLog := [];
      RecordEvent(ScenarioStart, t, -1, 0);
    }
  }
}
