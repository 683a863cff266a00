/** The records laikad reads and writes, and the laika library calls it makes.
    Floating-point observables are kept as opaque `real`s: nothing in laikad
    computes with them, it only selects and copies them. */
module Gnss {

  /** laika's GPSTime: a GPS week number and a time of week in seconds. */
  datatype GpsTime = GpsTime(week: int, tow: real)

  /** laika's ConstellationId (the u-blox GNSS identifiers). */
  datatype ConstellationId = GPS | SBAS | GALILEO | BEIDOU | IMES | QZNSS | GLONASS

  /** laika's GNSSMeasurement, limited to the fields laikad touches.
      `observables`, `observablesFinal` and `observablesStd` are Python dicts
      keyed by observable code ("C1C" pseudorange, "D1C" Doppler);
      `observablesFinal` stays empty until a correction fills it. */
  datatype GnssMeasurement = GnssMeasurement(
    constellationId: ConstellationId,
    prn: string,
    glonassFreq: int,
    observables: map<string, real>,
    observablesFinal: map<string, real>,
    observablesStd: map<string, real>,
    satPos: seq<real>,
    satPosFinal: seq<real>,
    satVel: seq<real>)

  /** One satellite entry of a u-blox RXM-RAWX report, as laika's
      read_raw_ublox consumes it. */
  datatype UbloxMeasurement = UbloxMeasurement(
    gnssId: nat, svId: nat, pseudorange: real, doppler: real, carrierCycles: real)

  /** The measurementReport variant's payload. */
  datatype MeasurementReport = MeasurementReport(
    gpsWeek: int, rcvTow: real, measurements: seq<UbloxMeasurement>)

  /** The ephemeris variant's payload: broadcast orbit and clock parameters. */
  datatype UbloxEphemeris = UbloxEphemeris(svId: nat, parameters: seq<real>)

  /** laika's internal ephemeris object, as inserted into the AstroDog. */
  datatype Ephemeris = Ephemeris(prn: string, epoch: GpsTime, parameters: seq<real>)

  /** The ubloxGnss message: a union discriminated by `which`. Variants laikad
      does not look at (ionoData, hwStatus, ...) are all `OtherMsg`. */
  datatype UbloxGnss =
    | MeasurementReportMsg(report: MeasurementReport)
    | EphemerisMsg(ephemeris: UbloxEphemeris)
    | OtherMsg

  /** One record of gnssMeasurements.correctedMeasurements. */
  datatype CorrectedMeasurement = CorrectedMeasurement(
    constellationId: ConstellationId,
    svId: nat,
    glonassFrequency: int,
    pseudorange: real,
    pseudorangeStd: real,
    pseudorangeRate: real,
    pseudorangeRateStd: real,
    satPos: seq<real>,
    satVel: seq<real>)

  /** The gnssMeasurements message laikad publishes. */
  datatype GnssMeasurements = GnssMeasurements(
    ubloxMonoTime: int, correctedMeasurements: seq<CorrectedMeasurement>)

  /** The Python exceptions laikad's own code can raise. */
  datatype Failure =
    | ValueError(literal: string)  // int() of a string that is not a decimal number
    | KeyError(key: string)        // a missing observable in a dict lookup
    | IndexError                   // subscript [0] of an empty sequence

  /** The laika library functions laikad calls. Their behaviour is not part of
      this model: each is an arbitrary total function, so every property below
      holds whatever they compute. The AstroDog they consult is given as the
      sequence of ephemerides inserted into it so far.
      - readRawUblox: read_raw_ublox(report)
      - processMeasurements: process_measurements(measurements, dog)
      - calcPosFix: calc_pos_fix(measurements), the returned tuple as a sequence
        whose element 0 is the position-and-clock fix (possibly empty)
      - correctMeasurements: correct_measurements(measurements, position, dog)
      - convertUbloxEphem: convert_ublox_ephem(ephemeris, anchor time) */
  datatype Laika = Laika(
    readRawUblox: MeasurementReport -> seq<GnssMeasurement>,
    processMeasurements: (seq<GnssMeasurement>, seq<Ephemeris>) -> seq<GnssMeasurement>,
    calcPosFix: seq<GnssMeasurement> -> seq<seq<real>>,
    correctMeasurements: (seq<GnssMeasurement>, seq<real>, seq<Ephemeris>) -> seq<GnssMeasurement>,
    convertUbloxEphem: (UbloxEphemeris, GpsTime) -> Ephemeris)
}
