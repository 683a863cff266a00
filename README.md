# laikad: u-blox message dispatch and measurement serialisation

A Dafny model of openpilot's `laikad` daemon core
(`selfdrive/locationd/laikad.py`). laikad receives `ubloxGnss` messages from
the GNSS receiver and publishes `gnssMeasurements`. Its core has two parts:

- `process_ublox_msg` dispatches on the message variant.
  - A measurement report: an empty report returns nothing. A non-empty report
    sets the process-wide `time_first_gnss_message` latch if it is unset, then
    has laika qualify the measurements. If none qualify it returns nothing.
    With `correct` on and a non-empty position fix, the measurements are
    corrected. Each one is then serialised and one message is returned.
  - An ephemeris: converted with the latch as its time anchor and added to
    the `AstroDog` store, but only once the latch is set.
  - Any other variant is ignored.
- `create_measurement_msg` turns one laika measurement into one output record.
  - The satellite number is `int(prn[1:])`.
  - Pseudorange and rate come from the corrected observables if there are any,
    otherwise from the raw ones.
  - Standard deviations always come from `observables_std`.
  - The GLONASS frequency channel is 0 for other constellations.
  - The position is `sat_pos_final`; the velocity is the uncorrected `sat_vel`.

Files:

- `wrappers.dfy`: `Option`, and a `Result` that supports `:-`.
- `gnss.dfy`: the message and measurement records, and `Laika`, a record of
  the five laika library functions laikad calls.
- `measurement_msg.dfy`: `create_measurement_msg` and the PRN parse.
- `laikad.dfy`: the `AstroDog` store, the `Daemon` class holding the latch, and
  `process_ublox_msg` as a method. It also has `Step`, the same call as a
  function of the state before it, with the lemmas about one call and about a
  stream of calls (`Run`). Last comes `main`'s rule for what is published.

The laika library functions are not modelled. Each is an arbitrary total
function held in a `Laika` value, so every property holds whatever laika
computes. The store they consult is given to them as the sequence of
ephemerides inserted so far. The Python exceptions laikad's own code can
raise are modelled as `Failure` values:

- `ValueError` from `int()`;
- `KeyError` from the `'C1C'`/`'D1C'` lookups;
- `IndexError` from `calc_pos_fix(...)[0]` when the solver returns an empty
  sequence.

An exception leaves the latch as it was set earlier in the same call.

Two consequences of the code worth knowing:

- `main` publishes one `gnssMeasurements` for every `ubloxGnss` update,
  ephemeris and other variants included; it is empty when nothing was
  returned (laikad.py:73-78).
- A returned message is guaranteed non-empty only when no correction ran:
  `correct` is off, or the position fix is empty (`UncorrectedMessageNonEmpty`).
  The corrector belongs to laika and may return fewer measurements than it
  was given, so with correction on the message can be empty (`CorrectedMessageMayBeEmpty`).

## Model

| member | source | states |
|---|---|---|
| `MeasurementMsg.ParseSvId` | selfdrive/locationd/laikad.py:48 | `int(prn[1:])` succeeds exactly when the PRN has at least one character after its letter and all of those are decimal digits; the value is the number they denote; otherwise `ValueError` of the stripped text (empty for an empty PRN) |
| `MeasurementMsg.PrnRoundTrip` | selfdrive/locationd/laikad.py:48 | parsing a PRN printed as letter plus zero-padded two-digit number gives back that satellite number, for every letter and number |
| `MeasurementMsg.SelectedObservables` | selfdrive/locationd/laikad.py:49-52 | the observables used are the corrected ones when that dict is non-empty, the raw ones otherwise |
| `MeasurementMsg.Lookup` | selfdrive/locationd/laikad.py:55-58 | a dict subscript returns the key's value when the key is present and raises `KeyError` of that key otherwise |
| `MeasurementMsg.CreateMeasurementMsg` | selfdrive/locationd/laikad.py:45-61 | returns exactly when the PRN parses and `C1C`/`D1C` exist in both the selected observables and `observables_std`. The record keeps the constellation. Its satellite number is the parsed PRN suffix. Its frequency channel is the measurement's for GLONASS and 0 otherwise. Pseudorange and rate come from the corrected observables when non-empty, else from the raw ones. Std fields come from `observables_std`. Position is `sat_pos_final`, velocity `sat_vel`. A parse failure raises that `ValueError`; otherwise the failure is `KeyError('C1C')` when `C1C` is missing from the selected observables or from `observables_std`, else `KeyError('D1C')`, following the source's statement order |
| `MeasurementMsg.CreateMeasurementMsgs` | selfdrive/locationd/laikad.py:31 | the list comprehension succeeds exactly when every measurement serialises; then it has one record per measurement, in order, each the serialisation of its measurement; otherwise it raises the exception of some measurement all of whose predecessors serialise |
| `MeasurementMsg.RawObservablesIgnoredWhenCorrected` | selfdrive/locationd/laikad.py:49-50 | with non-empty corrected observables, the raw observables do not affect the record or whether it is produced |
| `MeasurementMsg.RawObservablesUsedWhenUncorrected` | selfdrive/locationd/laikad.py:51-57 | with empty corrected observables, pseudorange and rate are the raw `C1C` and `D1C` values |
| `MeasurementMsg.StdIndependentOfObservables` | selfdrive/locationd/laikad.py:56-58 | the two std fields are the same whatever the raw and corrected observables are |
| `MeasurementMsg.UncorrectedPositionIgnored` | selfdrive/locationd/laikad.py:59-60 | the uncorrected `sat_pos` never affects the result (position comes from `sat_pos_final`) |
| `MeasurementMsg.GlonassFrequencyOnlyForGlonass` | selfdrive/locationd/laikad.py:54 | a non-GLONASS measurement's frequency channel never affects the result |
| `MeasurementMsg.CorrectedPseudorangePreferred` | selfdrive/locationd/test/test_laikad.py:24-36 | a GPS measurement "G01" with zero observables gives a GPS record, satellite 1, all zeros; once corrected observables carry pseudorange 1.0 the record's pseudorange is 1.0 |
| `MeasurementMsg.GlonassRecordKeepsChannel` | selfdrive/locationd/laikad.py:48-54 | a serialisable GLONASS measurement "R14" gives satellite 14 and keeps its frequency channel |
| `Laikad.Daemon.constructor` | selfdrive/locationd/laikad.py:9 | the latch starts unset |
| `Laikad.AstroDog.constructor` | selfdrive/locationd/laikad.py:65 | `AstroDog()` starts with no ephemerides inserted |
| `Laikad.Qualified` | selfdrive/locationd/laikad.py:18-21 | the measurements that survive qualification are `process_measurements(read_raw_ublox(report), dog)`; a definition shared by `ReportOutcome` and the lemmas, with no contract of its own |
| `Laikad.AstroDog.AddEphem` | selfdrive/locationd/laikad.py:41 | `add_ephem` appends exactly the given ephemeris to the store |
| `Laikad.Daemon.ProcessUbloxMsg` | selfdrive/locationd/laikad.py:12-42 | the new latch, the new store and the returned value or exception are those `Step` gives for the old latch and store |
| `Laikad.Corrected` | selfdrive/locationd/laikad.py:26-29 | with `correct` off the measurements pass unchanged; with it on, an empty solver result raises `IndexError` (and nothing else fails); the measurements are replaced exactly when correction is on and the fix is non-empty, and then by the corrector's output on the fix's first three components |
| `Laikad.ReportOutcome` | selfdrive/locationd/laikad.py:21-38 | no qualified measurements means nothing is returned, while with some qualified a normal return always carries a message; a returned message has at least one qualified measurement behind it and carries the input timestamp, and without correction one record per qualified measurement; a raised exception is `IndexError` (only with correction on) or a `KeyError`/`ValueError` from serialisation |
| `Laikad.Step` | selfdrive/locationd/laikad.py:12-42 | one call never overwrites a set latch, changes it only to a non-empty report's time, keeps the old store as a prefix of the new one and adds at most one entry, and only for an ephemeris with the latch set; anything other than a plain `None` return comes from a non-empty report |
| `Laikad.Run` | selfdrive/locationd/laikad.py:9-41 | over any stream of calls a set latch stays as it was and the old store stays a prefix of the new one |
| `Laikad.Position` | selfdrive/locationd/laikad.py:29 | `pos_fix[:3]` is a prefix of the fix of length min(3, length of the fix) |
| `Laikad.EmptyReportChangesNothing` | selfdrive/locationd/laikad.py:16-17 | an empty measurement report returns nothing and leaves latch and store as they were |
| `Laikad.FirstReportSetsLatch` | selfdrive/locationd/laikad.py:19-20 | a non-empty report with the latch unset sets it to the report's (gpsWeek, rcvTow) and leaves the store |
| `Laikad.LatchNeverOverwritten` | selfdrive/locationd/laikad.py:19-20 | once the latch is set, no message of any variant changes it |
| `Laikad.LatchSetBeforeQualification` | selfdrive/locationd/laikad.py:19-23 | a first non-empty report none of whose measurements qualify still sets the latch, and returns nothing |
| `Laikad.EphemerisDroppedWithoutLatch` | selfdrive/locationd/laikad.py:39 | an ephemeris with the latch unset returns nothing and changes nothing |
| `Laikad.EphemerisAnchoredAtLatch` | selfdrive/locationd/laikad.py:39-41 | an ephemeris with the latch set appends exactly one ephemeris, converted with the latch as anchor, returns nothing and keeps the latch |
| `Laikad.OtherVariantIgnored` | selfdrive/locationd/laikad.py:39-42 | any other variant returns nothing and changes nothing |
| `Laikad.StepFrame` | selfdrive/locationd/laikad.py:12-41 | a call either keeps the store or (for an ephemeris) extends it by one entry at the end; it either keeps the latch or sets an unset one to a non-empty report's time |
| `Laikad.OutcomeIndependentOfLatch` | selfdrive/locationd/laikad.py:21-38 | what a call returns or raises does not depend on the latch |
| `Laikad.NoCorrectionWhenDisabled` | selfdrive/locationd/laikad.py:12-29 | with `correct` false (the default) the result and the new state are the same whatever the position solver and corrector compute |
| `Laikad.SerialisedMeasurements` | selfdrive/locationd/laikad.py:21-37 | for a report with qualified measurements, the measurements serialised are the corrector's output, given the fix's first three components, when `correct` is on and the fix is non-empty; otherwise the qualified ones unchanged. The call returns a message with the input timestamp and their records, or raises what serialising them raises |
| `Laikad.CorrectionWithoutSolutionRaises` | selfdrive/locationd/laikad.py:27 | with `correct` on and a solver returning an empty sequence, `[0]` raises `IndexError` |
| `Laikad.CorrectedMessageMayBeEmpty` | selfdrive/locationd/laikad.py:26-37 | with `correct` on, a corrector returning no measurements yields a returned message with no records |
| `Laikad.ReturnedMessageShape` | selfdrive/locationd/laikad.py:22-37 | a returned message comes only from a non-empty report with at least one qualified measurement. It carries the input timestamp and one record per measurement that reached serialisation, in order |
| `Laikad.UncorrectedMessageNonEmpty` | selfdrive/locationd/laikad.py:22-31 | when no correction runs (`correct` off, or an empty fix) a returned message has exactly as many records as qualified measurements, and at least one |
| `Laikad.RaisedAfterLatch` | selfdrive/locationd/laikad.py:16-31 | an exception escapes only for a non-empty report, with the latch set and the store untouched |
| `Laikad.RunLatch` | selfdrive/locationd/laikad.py:9-20 | over any stream of messages the latch ends as its old value if set, else as the time of the first non-empty report |
| `Laikad.RunIngestsAnchored` | selfdrive/locationd/laikad.py:39-41 | with the latch set to t, a stream grows the store by exactly its ephemeris messages, in order, each converted with anchor t |
| `Laikad.RunFromUnsetLatch` | selfdrive/locationd/laikad.py:9-41 | from an unset latch, ephemerides arriving before the first non-empty report are lost. Every later one is stored, anchored at that report's time. With no such report the store is unchanged |
| `Laikad.Published` | selfdrive/locationd/laikad.py:76-78 | `main` publishes the returned message, or an empty default `gnssMeasurements` when nothing was returned |
| `Laikad.PublishedPerUpdate` | selfdrive/locationd/laikad.py:73-78 | every update handled without an exception publishes one message; it is the empty one for ephemeris and other variants and for reports without qualified measurements |

## Left out

- The `main` loop (laikad.py:64-78): subscribing, publishing, the endless loop and the log timestamps are transport. Only its rule for a `None` result is modelled (`Published`). An exception escaping `process_ublox_msg` ends `main`; that is not modelled beyond the `Failure` value.
- The laika library is not part of this model: `read_raw_ublox`, `process_measurements`, `calc_pos_fix`, `correct_measurements`, `convert_ublox_ephem` and `AstroDog.add_ephem`'s filing and replacement policy. Each is an arbitrary total function, pure in the store's insertion history. Exceptions raised inside them, and their network downloads, are not modelled.
- The `dog.orbits` argument of `add_ephem` (laikad.py:41) is not modelled; the store is the sequence of ephemerides inserted.
- `float(...)` and numpy `.tolist()` (laikad.py:55-60): observables are opaque reals and vectors are copied as sequences of any length. Floating-point values and NaN are not modelled.
- Cap'n Proto details: `new_message`, the enum `.value` of the constellation, field widths and range checks on assignment, and the `logMonoTime` of the message envelope.
- `MeasurementMsg.ParseSvId`: accepts only plain ASCII digit strings. Python's `int()` also accepts surrounding whitespace, a sign, underscores and other Unicode digits, which laika's PRNs do not contain.
- The commented-out `ionoData` branch (laikad.py:42) is not code; such messages fall in the ignored variant.
- `test_ephemeris` (test_laikad.py:38-49) replays a downloaded drive log. It is an end-to-end check of laika's numerics, not a property of this core.
