/** laikad's dispatcher: process_ublox_msg and the state it keeps between
    messages (the time of the first measurement report, and the AstroDog
    ephemeris store), plus main's rule for what it publishes. */
module Laikad {
  import opened Wrappers
  import opened Gnss
  import opened MeasurementMsg

  /** What process_ublox_msg hands back: the message it returns (None for
      every "nothing to publish" exit) or the exception that escapes it. */
  type Outcome = Result<Option<GnssMeasurements>, Failure>

  /** The state process_ublox_msg reads and writes, as values: the global
      time_first_gnss_message and the ephemerides inserted into the dog. */
  datatype State = State(timeFirstGnssMessage: Option<GpsTime>, ephemerides: seq<Ephemeris>)

  datatype StepOutcome = StepOutcome(state: State, outcome: Outcome)

  /** GPSTime(report.gpsWeek, report.rcvTow). */
  function ReportTime(report: MeasurementReport): GpsTime {
    GpsTime(report.gpsWeek, report.rcvTow)
  }

  /** pos_fix[:3]: at most the first three components (a shorter fix is
      passed on as it is, as Python slicing does). */
  function Position(fix: seq<real>): (p: seq<real>)
    ensures |p| == if |fix| < 3 then |fix| else 3
    ensures p <= fix
  {
    if |fix| < 3 then fix else fix[..3]
  }

  /** The optional correction step. calc_pos_fix(measurements)[0] raises
      IndexError when calc_pos_fix returns an empty sequence; an empty fix
      leaves the measurements as they are. */
  function Corrected(laika: Laika, measurements: seq<GnssMeasurement>, dog: seq<Ephemeris>, correct: bool)
    : (r: Result<seq<GnssMeasurement>, Failure>)
    ensures !correct ==> r == Success(measurements)
    ensures r.Failure? <==> correct && |laika.calcPosFix(measurements)| == 0
    ensures r.Failure? ==> r.error == IndexError
    ensures r.Success? && r.value != measurements ==>
      && correct && |laika.calcPosFix(measurements)[0]| > 0
      && r.value == laika.correctMeasurements(measurements, Position(laika.calcPosFix(measurements)[0]), dog)
    ensures correct && |laika.calcPosFix(measurements)| > 0 && |laika.calcPosFix(measurements)[0]| > 0 ==>
      r == Success(laika.correctMeasurements(measurements, Position(laika.calcPosFix(measurements)[0]), dog))
  {
    if !correct then Success(measurements)
    else
      var solution := laika.calcPosFix(measurements);
      if |solution| == 0 then Failure(IndexError)
      else
        var posFix := solution[0];
        if |posFix| > 0 then Success(laika.correctMeasurements(measurements, Position(posFix), dog))
        else Success(measurements)
  }

  /** The measurements that survive qualification. */
  function Qualified(laika: Laika, report: MeasurementReport, dog: seq<Ephemeris>): seq<GnssMeasurement> {
    laika.processMeasurements(laika.readRawUblox(report), dog)
  }

  /** The measurement-report branch after its empty check: qualify, optionally
      correct, serialise. It does not read the latch. */
  function ReportOutcome(laika: Laika, report: MeasurementReport, dog: seq<Ephemeris>, monoTime: int, correct: bool)
    : (r: Outcome)
    ensures |Qualified(laika, report, dog)| == 0 ==> r == Success(None)
    ensures r.Success? && r.value.Some? ==>
      && |Qualified(laika, report, dog)| > 0
      && r.value.value.ubloxMonoTime == monoTime
      && (!correct ==> |r.value.value.correctedMeasurements| == |Qualified(laika, report, dog)|)
    ensures r.Failure? ==> (correct && r.error == IndexError) || r.error.KeyError? || r.error.ValueError?
    ensures |Qualified(laika, report, dog)| > 0 && r.Success? ==> r.value.Some?
  {
    var measurements := Qualified(laika, report, dog);
    if |measurements| == 0 then Success(None)
    else
      var corrected :- Corrected(laika, measurements, dog, correct);
      var records :- CreateMeasurementMsgs(corrected);
      Success(Some(GnssMeasurements(monoTime, records)))
  }

  /** One call of process_ublox_msg, as a function of the state before it. */
  function Step(laika: Laika, s: State, msg: UbloxGnss, monoTime: int, correct: bool): (r: StepOutcome)
    ensures s.timeFirstGnssMessage.Some? ==> r.state.timeFirstGnssMessage == s.timeFirstGnssMessage
    ensures r.state.timeFirstGnssMessage != s.timeFirstGnssMessage ==>
      IsNonEmptyReport(msg) && r.state.timeFirstGnssMessage == Some(ReportTime(msg.report))
    ensures s.ephemerides <= r.state.ephemerides && |r.state.ephemerides| <= |s.ephemerides| + 1
    ensures |r.state.ephemerides| > |s.ephemerides| ==> msg.EphemerisMsg? && s.timeFirstGnssMessage.Some?
    ensures r.outcome != Success(None) ==> IsNonEmptyReport(msg)
  {
    match msg
    case MeasurementReportMsg(report) =>
      if |report.measurements| == 0 then StepOutcome(s, Success(None))
      else
        var latch := if s.timeFirstGnssMessage.None? then Some(ReportTime(report)) else s.timeFirstGnssMessage;
        StepOutcome(s.(timeFirstGnssMessage := latch), ReportOutcome(laika, report, s.ephemerides, monoTime, correct))
    case EphemerisMsg(ephemeris) =>
      if s.timeFirstGnssMessage.Some? then
        var converted := laika.convertUbloxEphem(ephemeris, s.timeFirstGnssMessage.value);
        StepOutcome(s.(ephemerides := s.ephemerides + [converted]), Success(None))
      else StepOutcome(s, Success(None))
    case OtherMsg => StepOutcome(s, Success(None))
  }

  /** laika's AstroDog, seen only through what laikad does to it: add_ephem
      inserts one ephemeris. The store is its insertion history; how laika
      files and replaces orbits is its own business. */
  class AstroDog {
    var ephemerides: seq<Ephemeris>

    constructor ()
      ensures ephemerides == []
    {
      ephemerides := [];
    }

    method AddEphem(ephem: Ephemeris)
      modifies this
      ensures ephemerides == old(ephemerides) + [ephem]
    {
      ephemerides := ephemerides + [ephem];
    }
  }

  /** The laikad module: its global time_first_gnss_message and the laika
      library it calls. */
  class Daemon {
    const laika: Laika
    var timeFirstGnssMessage: Option<GpsTime>

    constructor (laika: Laika)
      ensures this.laika == laika && timeFirstGnssMessage == None
    {
      this.laika := laika;
      timeFirstGnssMessage := None;
    }

    /** process_ublox_msg(ublox_msg, dog, ublox_mono_time, correct). */
    method ProcessUbloxMsg(msg: UbloxGnss, dog: AstroDog, monoTime: int, correct: bool := false)
      returns (r: Outcome)
      modifies this, dog
      ensures var o := Step(laika, State(old(timeFirstGnssMessage), old(dog.ephemerides)), msg, monoTime, correct);
              && timeFirstGnssMessage == o.state.timeFirstGnssMessage
              && dog.ephemerides == o.state.ephemerides
              && r == o.outcome
    {
      match msg
      case MeasurementReportMsg(report) =>
        if |report.measurements| == 0 {
          return Success(None);
        }
        var newMeas := laika.readRawUblox(report);
        if timeFirstGnssMessage.None? {
          timeFirstGnssMessage := Some(ReportTime(report));
        }
        var measurements := laika.processMeasurements(newMeas, dog.ephemerides);
        if |measurements| == 0 {
          return Success(None);
        }
        if correct {
          var solution := laika.calcPosFix(measurements);
          if |solution| == 0 {
            return Failure(IndexError);
          }
          var posFix := solution[0];
          if |posFix| > 0 {
            measurements := laika.correctMeasurements(measurements, Position(posFix), dog.ephemerides);
          }
        }
        var records := CreateMeasurementMsgs(measurements);
        if records.Failure? {
          return Failure(records.error);
        }
        return Success(Some(GnssMeasurements(monoTime, records.value)));
      case EphemerisMsg(ephemeris) =>
        if timeFirstGnssMessage.Some? {
          var ephem := laika.convertUbloxEphem(ephemeris, timeFirstGnssMessage.value);
          dog.AddEphem(ephem);
        }
        return Success(None);
      case OtherMsg =>
        return Success(None);
    }
  }

  /** main: a None from process_ublox_msg is replaced by a freshly created,
      empty gnssMeasurements message before publishing. */
  function Published(returned: Option<GnssMeasurements>): (m: GnssMeasurements)
    ensures returned.Some? ==> m == returned.value
    ensures returned.None? ==> m.correctedMeasurements == [] && m.ubloxMonoTime == 0
  {
    match returned
    case Some(msg) => msg
    case None => GnssMeasurements(0, [])
  }

  // ---------------------------------------------------------------------
  // One call of process_ublox_msg
  // ---------------------------------------------------------------------

  predicate IsNonEmptyReport(msg: UbloxGnss) {
    msg.MeasurementReportMsg? && |msg.report.measurements| > 0
  }

  /** An empty measurement report returns nothing and changes nothing: the
      empty check comes before the latch is set. */
  lemma EmptyReportChangesNothing(laika: Laika, s: State, report: MeasurementReport, monoTime: int, correct: bool)
    requires |report.measurements| == 0
    ensures Step(laika, s, MeasurementReportMsg(report), monoTime, correct) == StepOutcome(s, Success(None))
  {
  }

  /** The first non-empty report sets the latch to its own week and time of
      week, whatever becomes of its measurements; the store is untouched. */
  lemma FirstReportSetsLatch(laika: Laika, s: State, report: MeasurementReport, monoTime: int, correct: bool)
    requires s.timeFirstGnssMessage.None? && |report.measurements| > 0
    ensures var o := Step(laika, s, MeasurementReportMsg(report), monoTime, correct);
            && o.state.timeFirstGnssMessage == Some(GpsTime(report.gpsWeek, report.rcvTow))
            && o.state.ephemerides == s.ephemerides
  {
  }

  /** Once set, the latch is never overwritten, whatever arrives. */
  lemma LatchNeverOverwritten(laika: Laika, s: State, msg: UbloxGnss, monoTime: int, correct: bool)
    requires s.timeFirstGnssMessage.Some?
    ensures Step(laika, s, msg, monoTime, correct).state.timeFirstGnssMessage == s.timeFirstGnssMessage
  {
  }

  /** The latch is set before qualification: a first report none of whose
      measurements qualify still sets it, and returns nothing. */
  lemma LatchSetBeforeQualification(laika: Laika, s: State, report: MeasurementReport, monoTime: int, correct: bool)
    requires s.timeFirstGnssMessage.None? && |report.measurements| > 0
    requires Qualified(laika, report, s.ephemerides) == []
    ensures Step(laika, s, MeasurementReportMsg(report), monoTime, correct)
         == StepOutcome(s.(timeFirstGnssMessage := Some(ReportTime(report))), Success(None))
  {
  }

  /** An ephemeris arriving before any measurement report cannot be anchored
      in time and is dropped. */
  lemma EphemerisDroppedWithoutLatch(laika: Laika, s: State, ephemeris: UbloxEphemeris, monoTime: int, correct: bool)
    requires s.timeFirstGnssMessage.None?
    ensures Step(laika, s, EphemerisMsg(ephemeris), monoTime, correct) == StepOutcome(s, Success(None))
  {
  }

  /** Once the latch is set, an ephemeris adds exactly one converted
      ephemeris, anchored at the latch, to the end of the store. */
  lemma EphemerisAnchoredAtLatch(laika: Laika, s: State, ephemeris: UbloxEphemeris, monoTime: int, correct: bool)
    requires s.timeFirstGnssMessage.Some?
    ensures Step(laika, s, EphemerisMsg(ephemeris), monoTime, correct)
         == StepOutcome(
              State(s.timeFirstGnssMessage,
                    s.ephemerides + [laika.convertUbloxEphem(ephemeris, s.timeFirstGnssMessage.value)]),
              Success(None))
  {
  }

  /** Variants other than measurementReport and ephemeris are ignored. */
  lemma OtherVariantIgnored(laika: Laika, s: State, monoTime: int, correct: bool)
    ensures Step(laika, s, OtherMsg, monoTime, correct) == StepOutcome(s, Success(None))
  {
  }

  /** The store changes only by one appended ephemeris, and only for an
      ephemeris message; the latch changes only from unset to the time of a
      non-empty report. */
  lemma StepFrame(laika: Laika, s: State, msg: UbloxGnss, monoTime: int, correct: bool)
    ensures var t := Step(laika, s, msg, monoTime, correct).state;
            && (t.ephemerides == s.ephemerides
                || (msg.EphemerisMsg? && |t.ephemerides| == |s.ephemerides| + 1
                    && t.ephemerides[..|s.ephemerides|] == s.ephemerides))
            && (t.timeFirstGnssMessage == s.timeFirstGnssMessage
                || (s.timeFirstGnssMessage.None? && IsNonEmptyReport(msg)
                    && t.timeFirstGnssMessage == Some(ReportTime(msg.report))))
  {
    match msg
    case EphemerisMsg(e) =>
      if s.timeFirstGnssMessage.Some? {
        var t := Step(laika, s, msg, monoTime, correct).state;
        assert t.ephemerides[..|s.ephemerides|] == s.ephemerides;
      }
    case _ =>
  }

  /** What is returned does not depend on the latch: a latch set by this very
      report is not used until later messages. */
  lemma OutcomeIndependentOfLatch(laika: Laika, s: State, latch: Option<GpsTime>, msg: UbloxGnss, monoTime: int, correct: bool)
    ensures Step(laika, s.(timeFirstGnssMessage := latch), msg, monoTime, correct).outcome
         == Step(laika, s, msg, monoTime, correct).outcome
  {
  }

  /** With correct=false (the default, and what main passes), neither the
      position solver nor the corrector is consulted. */
  lemma NoCorrectionWhenDisabled(
    laika: Laika, s: State, msg: UbloxGnss, monoTime: int,
    solver: seq<GnssMeasurement> -> seq<seq<real>>,
    corrector: (seq<GnssMeasurement>, seq<real>, seq<Ephemeris>) -> seq<GnssMeasurement>)
    ensures Step(laika.(calcPosFix := solver, correctMeasurements := corrector), s, msg, monoTime, false)
         == Step(laika, s, msg, monoTime, false)
  {
  }

  /** The measurements that reach serialisation: the qualified ones, replaced
      by the corrector's result only when correction is on and the fix is
      non-empty; the corrector sees only the fix's first three components. */
  lemma SerialisedMeasurements(laika: Laika, s: State, report: MeasurementReport, monoTime: int, correct: bool)
    requires |report.measurements| > 0 && |Qualified(laika, report, s.ephemerides)| > 0
    requires correct ==> |laika.calcPosFix(Qualified(laika, report, s.ephemerides))| > 0
    ensures var q := Qualified(laika, report, s.ephemerides);
            var ms := if correct && |laika.calcPosFix(q)[0]| > 0
                      then laika.correctMeasurements(q, Position(laika.calcPosFix(q)[0]), s.ephemerides)
                      else q;
            var records := CreateMeasurementMsgs(ms);
            var o := Step(laika, s, MeasurementReportMsg(report), monoTime, correct).outcome;
            && (records.Success? ==> o == Success(Some(GnssMeasurements(monoTime, records.value))))
            && (records.Failure? ==> o == Failure(records.error))
  {
  }

  /** With correction on, a solver that returns nothing makes the subscript
      [0] raise IndexError. */
  lemma CorrectionWithoutSolutionRaises(laika: Laika, s: State, report: MeasurementReport, monoTime: int)
    requires |report.measurements| > 0 && |Qualified(laika, report, s.ephemerides)| > 0
    requires laika.calcPosFix(Qualified(laika, report, s.ephemerides)) == []
    ensures Step(laika, s, MeasurementReportMsg(report), monoTime, true).outcome == Failure(IndexError)
  {
  }

  /** The corrector may drop measurements, so with correction on a returned
      message can be empty although measurements qualified. */
  lemma CorrectedMessageMayBeEmpty(laika: Laika, s: State, report: MeasurementReport, monoTime: int)
    requires |report.measurements| > 0
    requires var q := Qualified(laika, report, s.ephemerides);
             && |q| > 0 && |laika.calcPosFix(q)| > 0 && |laika.calcPosFix(q)[0]| > 0
             && laika.correctMeasurements(q, Position(laika.calcPosFix(q)[0]), s.ephemerides) == []
    ensures Step(laika, s, MeasurementReportMsg(report), monoTime, true).outcome
         == Success(Some(GnssMeasurements(monoTime, [])))
  {
  }

  /** A returned message carries the input's timestamp and exactly one record
      per measurement that reached serialisation, in order; it comes only from
      a non-empty report whose measurements qualified. */
  lemma ReturnedMessageShape(laika: Laika, s: State, msg: UbloxGnss, monoTime: int, correct: bool)
    requires Step(laika, s, msg, monoTime, correct).outcome.Success?
    requires Step(laika, s, msg, monoTime, correct).outcome.value.Some?
    ensures var m := Step(laika, s, msg, monoTime, correct).outcome.value.value;
            && IsNonEmptyReport(msg)
            && |Qualified(laika, msg.report, s.ephemerides)| > 0
            && m.ubloxMonoTime == monoTime
            && var ms := Corrected(laika, Qualified(laika, msg.report, s.ephemerides), s.ephemerides, correct).value;
               |m.correctedMeasurements| == |ms|
               && forall i :: 0 <= i < |ms| ==> CreateMeasurementMsg(ms[i]) == Success(m.correctedMeasurements[i])
  {
  }

  /** Without correction a returned message is never empty: the case of no
      qualified measurement returned earlier. */
  lemma UncorrectedMessageNonEmpty(laika: Laika, s: State, msg: UbloxGnss, monoTime: int, correct: bool)
    requires Step(laika, s, msg, monoTime, correct).outcome.Success?
    requires Step(laika, s, msg, monoTime, correct).outcome.value.Some?
    requires var q := Qualified(laika, msg.report, s.ephemerides);
             !correct || (|laika.calcPosFix(q)| > 0 && |laika.calcPosFix(q)[0]| == 0)
    ensures |Step(laika, s, msg, monoTime, correct).outcome.value.value.correctedMeasurements|
         == |Qualified(laika, msg.report, s.ephemerides)| > 0
  {
  }

  /** An exception escapes only from a non-empty report, after the latch was
      set and with the store untouched. */
  lemma RaisedAfterLatch(laika: Laika, s: State, msg: UbloxGnss, monoTime: int, correct: bool)
    ensures var o := Step(laika, s, msg, monoTime, correct);
            var t := o.state;
            o.outcome.Failure? ==>
            && IsNonEmptyReport(msg)
            && t.timeFirstGnssMessage.Some?
            && t.ephemerides == s.ephemerides
  {
  }

  // ---------------------------------------------------------------------
  // A stream of messages
  // ---------------------------------------------------------------------

  /** One ubloxGnss message with the monotonic time it was logged at. */
  datatype Input = Input(msg: UbloxGnss, monoTime: int)

  /** The state after process_ublox_msg has handled each input in turn. */
  function Run(laika: Laika, s: State, inputs: seq<Input>, correct: bool): (r: State)
    ensures s.timeFirstGnssMessage.Some? ==> r.timeFirstGnssMessage == s.timeFirstGnssMessage
    ensures s.ephemerides <= r.ephemerides
    decreases |inputs|
  {
    if |inputs| == 0 then s
    else Run(laika, Step(laika, s, inputs[0].msg, inputs[0].monoTime, correct).state, inputs[1..], correct)
  }

  /** The week and time of week of the first non-empty measurement report. */
  function FirstReportTime(inputs: seq<Input>): Option<GpsTime> {
    if |inputs| == 0 then None
    else if IsNonEmptyReport(inputs[0].msg) then Some(ReportTime(inputs[0].msg.report))
    else FirstReportTime(inputs[1..])
  }

  /** The inputs after the first non-empty measurement report (none if there
      is no such report). */
  function AfterFirstReport(inputs: seq<Input>): seq<Input> {
    if |inputs| == 0 then []
    else if IsNonEmptyReport(inputs[0].msg) then inputs[1..]
    else AfterFirstReport(inputs[1..])
  }

  /** Each ephemeris message among the inputs, converted with anchor t. */
  function Ingested(laika: Laika, t: GpsTime, inputs: seq<Input>): seq<Ephemeris> {
    if |inputs| == 0 then []
    else
      (if inputs[0].msg.EphemerisMsg? then [laika.convertUbloxEphem(inputs[0].msg.ephemeris, t)] else [])
      + Ingested(laika, t, inputs[1..])
  }

  /** The latch ends up holding the time of the first non-empty measurement
      report ever seen, and keeps a value it already had. */
  lemma {:induction false} RunLatch(laika: Laika, s: State, inputs: seq<Input>, correct: bool)
    ensures Run(laika, s, inputs, correct).timeFirstGnssMessage
         == if s.timeFirstGnssMessage.Some? then s.timeFirstGnssMessage else FirstReportTime(inputs)
    decreases |inputs|
  {
    if |inputs| > 0 {
      RunLatch(laika, Step(laika, s, inputs[0].msg, inputs[0].monoTime, correct).state, inputs[1..], correct);
    }
  }

  /** With the latch set to t, the store grows by exactly the ephemeris
      messages received, in order, each anchored at t. */
  lemma {:induction false} RunIngestsAnchored(laika: Laika, s: State, t: GpsTime, inputs: seq<Input>, correct: bool)
    requires s.timeFirstGnssMessage == Some(t)
    ensures Run(laika, s, inputs, correct).ephemerides == s.ephemerides + Ingested(laika, t, inputs)
    decreases |inputs|
  {
    if |inputs| > 0 {
      var next := Step(laika, s, inputs[0].msg, inputs[0].monoTime, correct).state;
      RunIngestsAnchored(laika, next, t, inputs[1..], correct);
    }
  }

  /** From a fresh start, ephemerides that arrive before the first non-empty
      measurement report are lost; every later one is stored, anchored at that
      report's time. */
  lemma {:induction false} RunFromUnsetLatch(laika: Laika, s: State, inputs: seq<Input>, correct: bool)
    requires s.timeFirstGnssMessage.None?
    ensures Run(laika, s, inputs, correct).ephemerides
         == s.ephemerides + match FirstReportTime(inputs)
                            case None => []
                            case Some(t) => Ingested(laika, t, AfterFirstReport(inputs))
    decreases |inputs|
  {
    if |inputs| > 0 {
      var next := Step(laika, s, inputs[0].msg, inputs[0].monoTime, correct).state;
      if IsNonEmptyReport(inputs[0].msg) {
        RunIngestsAnchored(laika, next, ReportTime(inputs[0].msg.report), inputs[1..], correct);
      } else {
        RunFromUnsetLatch(laika, next, inputs[1..], correct);
      }
    }
  }

  // ---------------------------------------------------------------------
  // What main publishes
  // ---------------------------------------------------------------------

  /** Every ubloxGnss update that process_ublox_msg handles without raising
      leads to exactly one published gnssMeasurements: the returned one, or an
      empty one, which is what every ephemeris and other-variant update and
      every report without qualified measurements publishes. */
  lemma PublishedPerUpdate(laika: Laika, s: State, msg: UbloxGnss, monoTime: int, correct: bool)
    requires Step(laika, s, msg, monoTime, correct).outcome.Success?
    ensures var m := Published(Step(laika, s, msg, monoTime, correct).outcome.value);
            && (!IsNonEmptyReport(msg) ==> m == GnssMeasurements(0, []))
            && (IsNonEmptyReport(msg) && |Qualified(laika, msg.report, s.ephemerides)| == 0
                ==> m == GnssMeasurements(0, []))
  {
  }
}
