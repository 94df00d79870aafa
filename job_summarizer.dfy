/**
 * The production-job summary of a list of parsed log events
 * (`analyze_data`): the lot and panel count of the first `LOADSTART`
 * command, whether and how fast the job completed, and the operators,
 * magazines and control-state changes seen anywhere in the log.
 */
module JobSummarizer {
  import opened Wrappers
  import opened Text
  import opened Timestamps
  import opened Sequences

  /** A value in an event's `details`: absent (or null), a string, or an integer. */
  datatype Value = Missing | Str(s: string) | Int(i: int)

  /** Python truthiness of a details value. */
  predicate Truthy(v: Value) {
    match v
    case Missing => false
    case Str(s) => s != ""
    case Int(i) => i != 0
  }

  /** The `details` fields the summary looks at. */
  datatype Details = Details(
    rcmd: Value, ceid: Value, lotId: Value, panelCount: Value, operatorId: Value, magazineId: Value)

  datatype Event = Event(timestamp: string, details: Details)

  datatype JobStatus = NoJobFound | StartedNotCompleted | Completed | TimeCalculationError

  /** The status as the summary spells it. */
  function StatusText(status: JobStatus): (text: string)
    ensures text != ""
  {
    match status
    case NoJobFound => "No Job Found"
    case StartedNotCompleted => "Started but did not complete"
    case Completed => "Completed"
    case TimeCalculationError => "Time Calculation Error"
  }

  datatype ControlState = Local | Remote

  datatype StateChange = StateChange(timestamp: string, state: ControlState)

  /**
   * The summary. Durations are whole microseconds; the average cycle time
   * is the duration divided by the panel count, rounded down.
   */
  datatype Summary = Summary(
    operators: set<Value>,
    magazines: set<Value>,
    lotId: Value,
    panelCount: int,
    jobStartTime: string,
    jobEndTime: string,
    totalDurationMicros: int,
    avgCycleMicros: int,
    jobStatus: JobStatus,
    controlStateChanges: seq<StateChange>)

  const NotAvailable: string := "N/A"
  const DummyLot: string := "Dummy/Test Panels"

  /** The summary before anything is known about the log. */
  function InitialSummary(): Summary {
    Summary({}, {}, Str(NotAvailable), 0, NotAvailable, NotAvailable, 0, 0, NoJobFound, [])
  }

  /** The event carries the `LOADSTART` remote command. */
  predicate IsLoadStart(e: Event) {
    e.details.rcmd == Str("LOADSTART")
  }

  /** The event reports collection event 131 or 132, which end a job. */
  predicate IsJobEnd(e: Event) {
    e.details.ceid == Int(131) || e.details.ceid == Int(132)
  }

  /** The event reports collection event 120 or 127, which mark dummy or test panels. */
  predicate IsDummyMarker(e: Event) {
    e.details.ceid == Int(120) || e.details.ceid == Int(127)
  }

  predicate HasLotId(e: Event) {
    Truthy(e.details.lotId)
  }

  function LoadStart(): Event -> bool { (e: Event) => IsLoadStart(e) }
  function JobEnd(): Event -> bool { (e: Event) => IsJobEnd(e) }
  function DummyMarker(): Event -> bool { (e: Event) => IsDummyMarker(e) }
  function LotIdGiven(): Event -> bool { (e: Event) => HasLotId(e) }

  /** The position of the first event at or after `from` that satisfies `p`. */
  function FirstFrom(events: seq<Event>, from: nat, p: Event -> bool): (r: Option<nat>)
    ensures r.None? <==> forall j :: from <= j < |events| ==> !p(events[j])
    ensures r.Some? ==> from <= r.value < |events| && p(events[r.value])
    ensures r.Some? ==> forall j :: from <= j < r.value ==> !p(events[j])
    decreases |events| - from
  {
    if from >= |events| then None
    else if p(events[from]) then Some(from)
    else FirstFrom(events, from + 1, p)
  }

  /**
   * The lot of a job that `start` opens: its own `LotID` unless that is
   * empty or "N/A", otherwise the first non-empty `LotID` in the log,
   * otherwise "N/A".
   */
  function JobLotId(events: seq<Event>, start: Event): Value {
    var own := if start.details.lotId.Missing? then Str(NotAvailable) else start.details.lotId;
    if Truthy(own) && own != Str(NotAvailable) then own
    else match FirstFrom(events, 0, LotIdGiven())
      case Some(k) => events[k].details.lotId
      case None => Str(NotAvailable)
  }

  /** `int(PanelCount)`, with 0 when it is absent or does not convert. */
  function PanelCountOf(v: Value): int {
    match v
    case Missing => 0
    case Int(i) => i
    case Str(s) => ParseInt(s).GetOr(0)
  }

  /** The event reports collection event 12 (control state LOCAL) or 13 (REMOTE). */
  predicate IsControlChange(e: Event) {
    e.details.ceid == Int(12) || e.details.ceid == Int(13)
  }

  function ControlChange(): Event -> bool { (e: Event) => IsControlChange(e) }

  /** The state of a CEID 12 or 13 event. */
  function StateOf(e: Event): ControlState {
    if e.details.ceid == Int(12) then Local else Remote
  }

  /** The control-state change an event records, if any. */
  function ChangeOf(e: Event): seq<StateChange> {
    if IsControlChange(e) then [StateChange(e.timestamp, StateOf(e))] else []
  }

  /** The control-state changes of the log, in order. */
  function StateChanges(events: seq<Event>): seq<StateChange> {
    if events == [] then []
    else StateChanges(events[..|events| - 1]) + ChangeOf(events[|events| - 1])
  }

  function Operators(events: seq<Event>): set<Value> {
    set e | e in events && Truthy(e.details.operatorId) :: e.details.operatorId
  }

  function Magazines(events: seq<Event>): set<Value> {
    set e | e in events && Truthy(e.details.magazineId) :: e.details.magazineId
  }

  /**
   * 2^1024 - 2^970, the least positive integer that Python cannot convert to
   * a float: conversion rounds to the nearest double, and from here on that
   * is past the largest one, so dividing a float by it raises `OverflowError`.
   */
  const FloatOverflow: int :=
    0xFFFF_FFFF_FFFF_FC00_0000_0000_0000_0000_0000_0000_0000_0000_0000_0000_0000_0000_0000_0000_0000_0000_0000_0000_0000_0000_0000_0000_0000_0000_0000_0000_0000_0000_0000_0000_0000_0000_0000_0000_0000_0000_0000_0000_0000_0000_0000_0000_0000_0000_0000_0000_0000_0000_0000_0000_0000_0000_0000_0000_0000_0000_0000_0000_0000_0000

  /**
   * The status and durations of a job whose start and end timestamps parse
   * to `t0` and `t1` (None where they do not parse) and that holds `panels`
   * panels. The total is recorded before the average is computed, so a panel
   * count too large for a float leaves the total set and reports a time
   * calculation error.
   */
  function Timed(started: Summary, t0: Option<int>, t1: Option<int>, panels: int): Summary {
    if t0.None? || t1.None? then started.(jobStatus := TimeCalculationError)
    else
      var d := t1.value - t0.value;
      if d >= 0 then
        var timed := started.(jobStatus := Completed, totalDurationMicros := d);
        if panels <= 0 then timed
        else if panels >= FloatOverflow then timed.(jobStatus := TimeCalculationError)
        else timed.(avgCycleMicros := d / panels)
      else started.(jobStatus := Completed)
  }

  /** The job fields right after the `LOADSTART` command at position `i`, before any end is looked for. */
  function StartedNoEnd(events: seq<Event>, i: nat): Summary
    requires i < |events|
  {
    var start := events[i];
    InitialSummary().(lotId := JobLotId(events, start), panelCount := PanelCountOf(start.details.panelCount),
                      jobStartTime := start.timestamp, jobStatus := StartedNotCompleted)
  }

  /** The job fields once the first `LOADSTART` command is at position `i`. */
  function StartedJob(events: seq<Event>, i: nat): Summary
    requires i < |events|
  {
    var started := StartedNoEnd(events, i);
    match FirstFrom(events, i, JobEnd())
    case None => started
    case Some(k) => Timed(started, ParseTimestamp(events[i].timestamp), ParseTimestamp(events[k].timestamp),
                          started.panelCount)
  }

  /** The job fields when the log holds no `LOADSTART` command. */
  function NoJob(events: seq<Event>): Summary {
    if FirstFrom(events, 0, DummyMarker()).Some? then InitialSummary().(lotId := Str(DummyLot)) else InitialSummary()
  }

  /** The job fields of the summary. */
  function JobPart(events: seq<Event>): Summary {
    match FirstFrom(events, 0, LoadStart())
    case None => NoJob(events)
    case Some(i) => StartedJob(events, i)
  }

  /** The summary of the whole log. */
  function Summarize(events: seq<Event>): Summary {
    if events == [] then InitialSummary()
    else
      JobPart(events).(operators := Operators(events), magazines := Magazines(events),
                       controlStateChanges := StateChanges(events))
  }

  /** The first position at or after `from` whose event satisfies `p`. */
  method FindFirst(events: seq<Event>, from: nat, p: Event -> bool) returns (r: Option<nat>)
    ensures r == FirstFrom(events, from, p)
  {
    var j := from;
    while j < |events|
      invariant from <= j
      invariant FirstFrom(events, from, p) == FirstFrom(events, j, p)
      decreases |events| - j
    {
      if p(events[j]) {
        return Some(j);
      }
      j := j + 1;
    }
    return None;
  }

  /** The scan over all events, which fills in the operators, magazines and control-state changes. */
  method ScanEvents(events: seq<Event>, job: Summary) returns (s: Summary)
    ensures s == job.(operators := Operators(events), magazines := Magazines(events),
                      controlStateChanges := StateChanges(events))
  {
    var operators, magazines, changes := {}, {}, [];
    var i := 0;
    while i < |events|
      invariant 0 <= i <= |events|
      invariant operators == Operators(events[..i])
      invariant magazines == Magazines(events[..i])
      invariant changes == StateChanges(events[..i])
    {
      var e := events[i];
      ScanStep(events, i);
      var d := e.details;
      if Truthy(d.operatorId) {
        operators := operators + {d.operatorId};
      }
      if Truthy(d.magazineId) {
        magazines := magazines + {d.magazineId};
      }
      if d.ceid == Int(12) {
        changes := changes + [StateChange(e.timestamp, Local)];
      } else if d.ceid == Int(13) {
        changes := changes + [StateChange(e.timestamp, Remote)];
      }
      i := i + 1;
    }
    assert events[..i] == events;
    s := job.(operators := operators, magazines := magazines, controlStateChanges := changes);
  }

  /** Extending the scanned prefix by one event. */
  lemma ScanStep(events: seq<Event>, i: nat)
    requires i < |events|
    ensures Operators(events[..i + 1])
              == Operators(events[..i]) + (if Truthy(events[i].details.operatorId) then {events[i].details.operatorId} else {})
    ensures Magazines(events[..i + 1])
              == Magazines(events[..i]) + (if Truthy(events[i].details.magazineId) then {events[i].details.magazineId} else {})
    ensures StateChanges(events[..i + 1]) == StateChanges(events[..i]) + ChangeOf(events[i])
  {
    var pre := events[..i];
    assert events[..i + 1] == pre + [events[i]];
    assert events[..i + 1][..i] == pre;
  }

  /** The job fields: the first `LOADSTART`, its lot and panel count, and the end of the job. */
  method FindJob(events: seq<Event>) returns (summary: Summary)
    ensures summary == JobPart(events)
  {
    summary := InitialSummary();
    var start := FindFirst(events, 0, LoadStart());
    if start.Some? {
      var e := events[start.value];
      summary := summary.(lotId := if e.details.lotId.Missing? then Str(NotAvailable) else e.details.lotId);
      if !Truthy(summary.lotId) || summary.lotId == Str(NotAvailable) {
        var firstLot := FindFirst(events, 0, LotIdGiven());
        summary := summary.(lotId := if firstLot.Some? then events[firstLot.value].details.lotId else Str(NotAvailable));
      }
      assert summary.lotId == JobLotId(events, e);
      summary := summary.(panelCount := PanelCountOf(e.details.panelCount));
      summary := summary.(jobStartTime := e.timestamp, jobStatus := StartedNotCompleted);
      var end := FindFirst(events, start.value, JobEnd());
      if end.Some? {
        summary := TimeJob(summary, e.timestamp, events[end.value].timestamp);
      }
    } else {
      var dummy := FindFirst(events, 0, DummyMarker());
      if dummy.Some? {
        summary := summary.(lotId := Str(DummyLot));
      }
    }
  }

  /** The status and durations of a job that has an end event. */
  method TimeJob(started: Summary, startTs: string, endTs: string) returns (summary: Summary)
    ensures summary == Timed(started, ParseTimestamp(startTs), ParseTimestamp(endTs), started.panelCount)
  {
    var t0 := ParseTimestamp(startTs);
    var t1 := ParseTimestamp(endTs);
    summary := TimeReadings(started, t0, t1);
  }

  /** Timing a started job from its two parsed timestamps, None where one did not parse. */
  method TimeReadings(started: Summary, t0: Option<int>, t1: Option<int>) returns (summary: Summary)
    ensures summary == Timed(started, t0, t1, started.panelCount)
  {
    summary := started.(jobStatus := Completed);
    if t0.Some? && t1.Some? {
      var duration := t1.value - t0.value;
      if duration >= 0 {
        summary := summary.(totalDurationMicros := duration);
        if summary.panelCount > 0 {
          if summary.panelCount >= FloatOverflow {
            summary := summary.(jobStatus := TimeCalculationError);
          } else {
            summary := summary.(avgCycleMicros := duration / summary.panelCount);
          }
        }
      }
    } else {
      summary := summary.(jobStatus := TimeCalculationError);
    }
  }

  /** `analyze_data`. */
  method AnalyzeData(events: seq<Event>) returns (summary: Summary)
    ensures summary == Summarize(events)
  {
    summary := InitialSummary();
    if events == [] {
      return;
    }
    summary := FindJob(events);
    summary := ScanEvents(events, summary);
  }

  /** The summary's job fields are those the job search finds; the scan leaves them alone. */
  lemma JobFields(events: seq<Event>)
    ensures var s, job := Summarize(events), JobPart(events);
      && s.lotId == job.lotId && s.panelCount == job.panelCount
      && s.jobStartTime == job.jobStartTime && s.jobEndTime == job.jobEndTime
      && s.totalDurationMicros == job.totalDurationMicros && s.avgCycleMicros == job.avgCycleMicros
      && s.jobStatus == job.jobStatus
  {
    if events == [] {
      assert FirstFrom(events, 0, LoadStart()).None?;
      assert FirstFrom(events, 0, DummyMarker()).None?;
    }
  }

  /** The summary's operators, magazines and control-state changes are those the scan collects. */
  lemma ScanFields(events: seq<Event>)
    ensures var s := Summarize(events);
      s.operators == Operators(events) && s.magazines == Magazines(events)
      && s.controlStateChanges == StateChanges(events)
  {
  }

  /** An empty log gives the initial summary. */
  lemma EmptyLog()
    ensures var s := Summarize([]);
      && s.jobStatus == NoJobFound && s.lotId == Str(NotAvailable) && s.panelCount == 0
      && s.jobStartTime == NotAvailable && s.jobEndTime == NotAvailable
      && s.totalDurationMicros == 0 && s.avgCycleMicros == 0
      && s.operators == {} && s.magazines == {} && s.controlStateChanges == []
  {
  }

  /** The four statuses are spelled differently. */
  lemma StatusTextDistinct(a: JobStatus, b: JobStatus)
    ensures StatusText(a) == StatusText(b) <==> a == b
  {
    if a != b {
      assert StatusText(a)[0] != StatusText(b)[0] || |StatusText(a)| != |StatusText(b)|;
    }
  }

  /**
   * Without a `LOADSTART` command no job is found: the lot is
   * "Dummy/Test Panels" exactly when some event reports CEID 120 or 127,
   * and "N/A" otherwise, and the other job fields keep their defaults.
   */
  lemma NoLoadStart(events: seq<Event>)
    requires forall j :: 0 <= j < |events| ==> !IsLoadStart(events[j])
    ensures var s := Summarize(events);
      && s.jobStatus == NoJobFound
      && (s.lotId == Str(DummyLot) <==> exists j :: 0 <= j < |events| && IsDummyMarker(events[j]))
      && (s.lotId != Str(DummyLot) ==> s.lotId == Str(NotAvailable))
      && s.panelCount == 0 && s.jobStartTime == NotAvailable
      && s.totalDurationMicros == 0 && s.avgCycleMicros == 0
  {
    JobFields(events);
    assert FirstFrom(events, 0, LoadStart()).None? by {
      forall j | 0 <= j < |events| ensures !LoadStart()(events[j]) {
      }
    }
    if exists j :: 0 <= j < |events| && IsDummyMarker(events[j]) {
      var j :| 0 <= j < |events| && IsDummyMarker(events[j]);
      assert DummyMarker()(events[j]);
    }
  }

  /** Position `i` holds the first `LOADSTART` command of the log. */
  predicate FirstLoadStart(events: seq<Event>, i: nat) {
    i < |events| && IsLoadStart(events[i]) && forall j :: 0 <= j < i ==> !IsLoadStart(events[j])
  }

  lemma FirstLoadStartFound(events: seq<Event>, i: nat)
    requires FirstLoadStart(events, i)
    ensures FirstFrom(events, 0, LoadStart()) == Some(i)
  {
    assert LoadStart()(events[i]);
  }

  /**
   * The first `LOADSTART` command starts the job: its timestamp is the
   * start time, its `PanelCount` converts to the panel count, and its lot
   * follows `JobLotId`.
   */
  lemma JobStart(events: seq<Event>, i: nat)
    requires FirstLoadStart(events, i)
    ensures var s := Summarize(events);
      && s.jobStatus != NoJobFound
      && s.jobStartTime == events[i].timestamp
      && s.panelCount == PanelCountOf(events[i].details.panelCount)
      && s.lotId == JobLotId(events, events[i])
  {
    JobFields(events);
    FirstLoadStartFound(events, i);
    var started := StartedNoEnd(events, i);
    match FirstFrom(events, i, JobEnd())
    case None =>
    case Some(k) =>
      TimedResult(started, ParseTimestamp(events[i].timestamp), ParseTimestamp(events[k].timestamp));
  }

  /** A job is found exactly when the log holds a `LOADSTART` command. */
  lemma JobFoundIffLoadStart(events: seq<Event>)
    ensures Summarize(events).jobStatus == NoJobFound <==> forall j :: 0 <= j < |events| ==> !IsLoadStart(events[j])
  {
    var r := FirstFrom(events, 0, LoadStart());
    if r.Some? {
      assert FirstLoadStart(events, r.value) by {
        forall j | 0 <= j < r.value ensures !IsLoadStart(events[j]) {
          assert !LoadStart()(events[j]);
        }
      }
      JobStart(events, r.value);
    } else {
      forall j | 0 <= j < |events| ensures !IsLoadStart(events[j]) {
        assert !LoadStart()(events[j]);
      }
      NoLoadStart(events);
    }
  }

  /**
   * The lot of a job: the start event's own `LotID` when it is non-empty
   * and not "N/A"; otherwise the `LotID` of the first event anywhere in the
   * log with a non-empty one; otherwise "N/A".
   */
  lemma JobLotIdRule(events: seq<Event>, start: Event)
    ensures var own := start.details.lotId;
      && (Truthy(own) && own != Str(NotAvailable) ==> JobLotId(events, start) == own)
      && (!(Truthy(own) && own != Str(NotAvailable)) && (exists k :: 0 <= k < |events| && HasLotId(events[k])) ==>
            exists k :: 0 <= k < |events| && HasLotId(events[k]) && (forall j :: 0 <= j < k ==> !HasLotId(events[j]))
                        && JobLotId(events, start) == events[k].details.lotId)
      && (!(Truthy(own) && own != Str(NotAvailable)) && (forall k :: 0 <= k < |events| ==> !HasLotId(events[k])) ==>
            JobLotId(events, start) == Str(NotAvailable))
  {
    var r := FirstFrom(events, 0, LotIdGiven());
    if r.Some? {
      assert HasLotId(events[r.value]) by {
        assert LotIdGiven()(events[r.value]);
      }
      forall j | 0 <= j < r.value ensures !HasLotId(events[j]) {
        assert !LotIdGiven()(events[j]);
      }
    } else {
      forall k | 0 <= k < |events| ensures !HasLotId(events[k]) {
        assert !LotIdGiven()(events[k]);
      }
    }
  }

  /**
   * An integer panel count is itself; written out as a decimal string it
   * converts back to itself, unless it has more digits than `int()` converts,
   * which gives 0.
   */
  lemma PanelCountRoundTrip(n: int)
    ensures PanelCountOf(Str(IntToString(n))) == if |NatToDigits(Abs(n))| <= MaxStrDigits then n else 0
    ensures PanelCountOf(Int(n)) == n
  {
    IntRoundTrip(n);
  }

  /** An absent or non-numeric panel count becomes 0. */
  lemma PanelCountDefault(s: string)
    requires ParseInt(s).None?
    ensures PanelCountOf(Str(s)) == 0 && PanelCountOf(Missing) == 0
  {
  }

  /**
   * With no CEID 131 or 132 at or after the start, the job stays "Started
   * but did not complete" and both durations stay 0.
   */
  lemma NoEndMarker(events: seq<Event>, i: nat)
    requires FirstLoadStart(events, i)
    requires forall j :: i <= j < |events| ==> !IsJobEnd(events[j])
    ensures var s := Summarize(events);
      s.jobStatus == StartedNotCompleted && s.totalDurationMicros == 0 && s.avgCycleMicros == 0
  {
    JobFields(events);
    FirstLoadStartFound(events, i);
    assert FirstFrom(events, i, JobEnd()).None? by {
      forall j | i <= j < |events| ensures !JobEnd()(events[j]) {
      }
    }
  }

  /**
   * The first CEID 131 or 132 at or after the start (the start itself
   * included) ends the job. If either timestamp does not parse the status is
   * "Time Calculation Error" and both durations stay 0. Otherwise a
   * non-negative duration is the total, divided by the panel count for the
   * average when that is positive; the job is "Completed", unless the panel
   * count is too large for a float, which gives "Time Calculation Error"
   * with the total kept and the average left at 0.
   */
  lemma EndMarker(events: seq<Event>, i: nat, k: nat)
    requires FirstLoadStart(events, i)
    requires i <= k < |events| && IsJobEnd(events[k])
    requires forall j :: i <= j < k ==> !IsJobEnd(events[j])
    ensures var s := Summarize(events);
      var t0, t1 := ParseTimestamp(events[i].timestamp), ParseTimestamp(events[k].timestamp);
      && (t0.None? || t1.None? ==>
            s.jobStatus == TimeCalculationError && s.totalDurationMicros == 0 && s.avgCycleMicros == 0)
      && (t0.Some? && t1.Some? ==>
            var d := t1.value - t0.value;
            && s.jobStatus == (if d >= 0 && s.panelCount >= FloatOverflow then TimeCalculationError else Completed)
            && s.totalDurationMicros == (if d >= 0 then d else 0)
            && s.avgCycleMicros == (if d >= 0 && 0 < s.panelCount < FloatOverflow then d / s.panelCount else 0))
  {
    JobFields(events);
    EndFound(events, i, k);
    TimedResult(StartedNoEnd(events, i), ParseTimestamp(events[i].timestamp), ParseTimestamp(events[k].timestamp));
  }

  lemma EndFound(events: seq<Event>, i: nat, k: nat)
    requires FirstLoadStart(events, i)
    requires i <= k < |events| && IsJobEnd(events[k])
    requires forall j :: i <= j < k ==> !IsJobEnd(events[j])
    ensures JobPart(events) == Timed(StartedNoEnd(events, i), ParseTimestamp(events[i].timestamp),
                                     ParseTimestamp(events[k].timestamp), StartedNoEnd(events, i).panelCount)
  {
    FirstLoadStartFound(events, i);
    assert FirstFrom(events, i, JobEnd()) == Some(k) by {
      assert JobEnd()(events[k]);
    }
  }

  /**
   * When both timestamps of a job that has an end event parse, its total
   * duration is the time between them when the end is not earlier than the
   * start, and both durations stay 0 otherwise. The job is "Completed",
   * except that a recorded duration with a panel count too large for a
   * float gives "Time Calculation Error".
   */
  lemma CompletedDuration(events: seq<Event>, i: nat, k: nat)
    requires FirstLoadStart(events, i)
    requires i <= k < |events| && IsJobEnd(events[k])
    requires forall j :: i <= j < k ==> !IsJobEnd(events[j])
    requires Fields(events[i].timestamp).Some? && Fields(events[k].timestamp).Some?
    ensures var s := Summarize(events);
      var t0, t1 := Fields(events[i].timestamp).value, Fields(events[k].timestamp).value;
      && s.jobStatus == (if NotLater(t0, t1) && s.panelCount >= FloatOverflow then TimeCalculationError else Completed)
      && (NotLater(t0, t1) ==> s.totalDurationMicros == ToMicros(t1) - ToMicros(t0))
      && (!NotLater(t0, t1) ==> s.totalDurationMicros == 0 && s.avgCycleMicros == 0)
  {
    EndMarker(events, i, k);
    MicrosOrder(Fields(events[i].timestamp).value, Fields(events[k].timestamp).value);
  }

  /** What `Timed` yields, stated field by field. */
  predicate TimedOutcome(s: Summary, t0: Option<int>, t1: Option<int>) {
    && (t0.None? || t1.None? ==>
          s.jobStatus == TimeCalculationError && s.totalDurationMicros == 0 && s.avgCycleMicros == 0)
    && (t0.Some? && t1.Some? ==>
          var d := t1.value - t0.value;
          && s.jobStatus == (if d >= 0 && s.panelCount >= FloatOverflow then TimeCalculationError else Completed)
          && s.totalDurationMicros == (if d >= 0 then d else 0)
          && s.avgCycleMicros == (if d >= 0 && 0 < s.panelCount < FloatOverflow then d / s.panelCount else 0))
  }

  /** Timing a started job sets its status and durations and keeps its other fields. */
  lemma TimedResult(started: Summary, t0: Option<int>, t1: Option<int>)
    requires started.totalDurationMicros == 0 && started.avgCycleMicros == 0
    ensures var s := Timed(started, t0, t1, started.panelCount);
      && TimedOutcome(s, t0, t1)
      && s.jobStatus != NoJobFound
      && s.lotId == started.lotId && s.panelCount == started.panelCount
      && s.jobStartTime == started.jobStartTime && s.jobEndTime == started.jobEndTime
  {
  }

  /**
   * Whatever the log: the total duration is never negative; the average is
   * 0 unless the panel count is positive and convertible to a float, and is
   * otherwise the total divided by the panel count; the average is 0 unless
   * the job completed, and so is the total unless the panel count is too
   * large for a float; and the end time is never filled in.
   */
  lemma DurationBounds(events: seq<Event>)
    ensures var s := Summarize(events);
      && s.totalDurationMicros >= 0 && s.avgCycleMicros >= 0
      && (s.panelCount <= 0 || s.panelCount >= FloatOverflow ==> s.avgCycleMicros == 0)
      && (0 < s.panelCount < FloatOverflow ==> s.avgCycleMicros == s.totalDurationMicros / s.panelCount)
      && (s.jobStatus != Completed ==> s.avgCycleMicros == 0)
      && (s.jobStatus != Completed && s.panelCount < FloatOverflow ==> s.totalDurationMicros == 0)
      && s.jobEndTime == NotAvailable
  {
    JobFields(events);
    match FirstFrom(events, 0, LoadStart())
    case None =>
      assert DurationsSound(NoJob(events));
    case Some(i) =>
      StartedJobSound(events, i);
  }

  /** The duration facts `DurationBounds` states, for one summary. */
  predicate DurationsSound(s: Summary) {
    && s.totalDurationMicros >= 0 && s.avgCycleMicros >= 0
    && (s.panelCount <= 0 || s.panelCount >= FloatOverflow ==> s.avgCycleMicros == 0)
    && (0 < s.panelCount < FloatOverflow ==> s.avgCycleMicros == s.totalDurationMicros / s.panelCount)
    && (s.jobStatus != Completed ==> s.avgCycleMicros == 0)
    && (s.jobStatus != Completed && s.panelCount < FloatOverflow ==> s.totalDurationMicros == 0)
    && s.jobEndTime == NotAvailable
  }

  lemma StartedJobSound(events: seq<Event>, i: nat)
    requires i < |events|
    ensures DurationsSound(StartedJob(events, i))
  {
    var started := StartedNoEnd(events, i);
    match FirstFrom(events, i, JobEnd())
    case None =>
    case Some(k) =>
      TimedSound(started, ParseTimestamp(events[i].timestamp), ParseTimestamp(events[k].timestamp));
  }

  lemma TimedSound(started: Summary, t0: Option<int>, t1: Option<int>)
    requires started.totalDurationMicros == 0 && started.avgCycleMicros == 0
    requires started.jobEndTime == NotAvailable
    ensures DurationsSound(Timed(started, t0, t1, started.panelCount))
  {
    if t0.Some? && t1.Some? {
      var d, p := t1.value - t0.value, started.panelCount;
      if d >= 0 && 0 < p < FloatOverflow {
        assert d / p >= 0;
      }
    }
  }

  /**
   * Whatever the job search found, the operators and magazines are exactly
   * the non-empty `OperatorID` and `MagazineID` values of all events.
   */
  lemma ScanSets(events: seq<Event>)
    ensures var s := Summarize(events);
      && (forall v :: v in s.operators <==>
            exists j :: 0 <= j < |events| && Truthy(events[j].details.operatorId) && events[j].details.operatorId == v)
      && (forall v :: v in s.magazines <==>
            exists j :: 0 <= j < |events| && Truthy(events[j].details.magazineId) && events[j].details.magazineId == v)
  {
    ScanFields(events);
    forall v | v in Operators(events)
      ensures exists j :: 0 <= j < |events| && Truthy(events[j].details.operatorId) && events[j].details.operatorId == v
    {
      var e :| e in events && Truthy(e.details.operatorId) && e.details.operatorId == v;
      var j :| 0 <= j < |events| && events[j] == e;
    }
    forall v | v in Magazines(events)
      ensures exists j :: 0 <= j < |events| && Truthy(events[j].details.magazineId) && events[j].details.magazineId == v
    {
      var e :| e in events && Truthy(e.details.magazineId) && e.details.magazineId == v;
      var j :| 0 <= j < |events| && events[j] == e;
    }
  }

  /** The control-state changes of two logs in a row are those of the first, then those of the second. */
  lemma {:induction false} StateChangesAppend(a: seq<Event>, b: seq<Event>)
    ensures StateChanges(a + b) == StateChanges(a) + StateChanges(b)
    decreases |b|
  {
    if b != [] {
      var n := |b| - 1;
      assert (a + b)[..|a + b| - 1] == a + b[..n];
      StateChangesAppend(a, b[..n]);
    } else {
      assert a + b == a;
    }
  }

  /**
   * The control-state changes hold one entry per CEID 12 or 13 event, in
   * log order, with that event's timestamp and its state.
   */
  lemma {:induction false} StateChangesArePositions(events: seq<Event>)
    ensures var ps := Positions(events, 0, |events|, ControlChange());
      && |StateChanges(events)| == |ps|
      && forall k :: 0 <= k < |ps| ==>
           StateChanges(events)[k] == StateChange(events[ps[k]].timestamp, StateOf(events[ps[k]]))
  {
    if events != [] {
      var n := |events| - 1;
      var pre := events[..n];
      var ps := Positions(events, 0, |events|, ControlChange());
      var qs := Positions(pre, 0, n, ControlChange());
      assert ps == qs + (if IsControlChange(events[n]) then [n] else []) by {
        PositionsPrefix(events, pre, 0, n, ControlChange());
      }
      assert forall k :: 0 <= k < |qs| ==> qs[k] < n;
      var sc := StateChanges(events);
      assert sc == StateChanges(pre) + ChangeOf(events[n]);
      StateChangesArePositions(pre);
      forall k | 0 <= k < |qs|
        ensures sc[k] == StateChange(events[ps[k]].timestamp, StateOf(events[ps[k]]))
      {
        assert ps[k] == qs[k] && events[qs[k]] == pre[qs[k]];
      }
    }
  }
}
