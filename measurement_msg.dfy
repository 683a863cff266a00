/** create_measurement_msg: one processed laika measurement to one
    gnssMeasurements.correctedMeasurements record. */
module MeasurementMsg {
  import opened Wrappers
  import opened Gnss

  /** Observable codes laikad reads: L1 C/A pseudorange and Doppler. */
  const C1C: string := "C1C"
  const D1C: string := "D1C"

  // ---------------------------------------------------------------------
  // Satellite number: Python's int() applied to the PRN without its letter
  // ---------------------------------------------------------------------

  predicate IsDigit(c: char) {
    '0' <= c <= '9'
  }

  predicate AllDigits(s: string) {
    forall i :: 0 <= i < |s| ==> IsDigit(s[i])
  }

  function DigitValue(c: char): (d: nat)
    requires IsDigit(c)
    ensures d < 10
  {
    (c as int) - ('0' as int)
  }

  function DigitChar(d: nat): (c: char)
    requires d < 10
    ensures IsDigit(c) && DigitValue(c) == d
  {
    (('0' as int) + d) as char
  }

  /** The number a string of decimal digits denotes, most significant first. */
  function DecimalValue(s: string): nat
    requires AllDigits(s)
  {
    if |s| == 0 then 0 else DecimalValue(s[..|s| - 1]) * 10 + DigitValue(s[|s| - 1])
  }

  /** int(s) for the decimal literals laika's PRNs carry; anything else is
      the ValueError int() raises. */
  function ParseInt(s: string): (r: Result<nat, Failure>)
    ensures r.Success? <==> |s| > 0 && AllDigits(s)
    ensures r.Failure? ==> r.error == ValueError(s)
  {
    if |s| > 0 && AllDigits(s) then Success(DecimalValue(s)) else Failure(ValueError(s))
  }

  /** int(prn[1:]): the satellite number is the PRN with its constellation
      letter stripped. Python's slice of an empty string is empty. */
  function ParseSvId(prn: string): (r: Result<nat, Failure>)
    ensures r.Success? <==> |prn| > 1 && AllDigits(prn[1..])
    ensures r.Success? ==> r.value == DecimalValue(prn[1..])
    ensures r.Failure? ==> r.error == ValueError(if |prn| == 0 then "" else prn[1..])
  {
    ParseInt(if |prn| == 0 then "" else prn[1..])
  }

  /** Shortest decimal rendering of n. */
  function Decimal(n: nat): (s: string)
    ensures |s| > 0 && AllDigits(s)
  {
    if n < 10 then [DigitChar(n)] else Decimal(n / 10) + [DigitChar(n % 10)]
  }

  /** s left-padded with '0' to at least `width` characters ("%0*d"). */
  function ZeroPad(s: string, width: nat): (p: string)
    ensures |p| >= |s| && |p| >= width
    ensures p[|p| - |s|..] == s
    decreases width - |s|
  {
    if |s| >= width then s else ZeroPad("0" + s, width)
  }

  /** laika's PRN naming: the constellation letter followed by the satellite
      number printed with at least two digits ("G01", "R14"). */
  function Prn(letter: char, svId: nat): string {
    [letter] + ZeroPad(Decimal(svId), 2)
  }

  lemma {:induction false} DecimalRoundTrip(n: nat)
    ensures DecimalValue(Decimal(n)) == n
  {
    if n >= 10 {
      DecimalRoundTrip(n / 10);
      var s := Decimal(n);
      assert s[..|s| - 1] == Decimal(n / 10);
    }
  }

  /** A leading zero does not change the value of a decimal literal. */
  lemma {:induction false} LeadingZero(s: string)
    requires AllDigits(s)
    ensures AllDigits("0" + s) && DecimalValue("0" + s) == DecimalValue(s)
  {
    if |s| > 0 {
      var t := "0" + s;
      assert t[..|t| - 1] == "0" + s[..|s| - 1];
      LeadingZero(s[..|s| - 1]);
    }
  }

  lemma {:induction false} ZeroPadValue(s: string, width: nat)
    requires AllDigits(s)
    ensures AllDigits(ZeroPad(s, width)) && DecimalValue(ZeroPad(s, width)) == DecimalValue(s)
    decreases width - |s|
  {
    if |s| < width {
      LeadingZero(s);
      ZeroPadValue("0" + s, width);
    }
  }

  /** Parsing a PRN recovers the satellite number it was printed from. */
  lemma PrnRoundTrip(letter: char, svId: nat)
    ensures ParseSvId(Prn(letter, svId)) == Success(svId)
  {
    var digits := ZeroPad(Decimal(svId), 2);
    assert Prn(letter, svId)[1..] == digits;
    ZeroPadValue(Decimal(svId), 2);
    DecimalRoundTrip(svId);
  }

  // ---------------------------------------------------------------------
  // The record
  // ---------------------------------------------------------------------

  /** The observables the record is built from: the corrected ones when a
      correction filled them, the raw ones otherwise. */
  function SelectedObservables(m: GnssMeasurement): (obs: map<string, real>)
    ensures |m.observablesFinal| > 0 ==> obs == m.observablesFinal
    ensures |m.observablesFinal| == 0 ==> obs == m.observables
  {
    if |m.observablesFinal| > 0 then m.observablesFinal else m.observables
  }

  /** Python's d[key], raising KeyError when the key is absent. */
  function Lookup(d: map<string, real>, key: string): (r: Result<real, Failure>)
    ensures r.Success? <==> key in d
    ensures r.Success? ==> r.value == d[key]
    ensures r.Failure? ==> r.error == KeyError(key)
  {
    if key in d then Success(d[key]) else Failure(KeyError(key))
  }

  /** Whether create_measurement_msg returns rather than raises. */
  predicate Serializable(m: GnssMeasurement) {
    && ParseSvId(m.prn).Success?
    && C1C in SelectedObservables(m) && D1C in SelectedObservables(m)
    && C1C in m.observablesStd && D1C in m.observablesStd
  }

  /** create_measurement_msg. The statements run in source order, so the
      first failing one decides which exception escapes. */
  function CreateMeasurementMsg(m: GnssMeasurement): (r: Result<CorrectedMeasurement, Failure>)
    ensures r.Success? <==> Serializable(m)
    ensures r.Success? ==>
      && r.value.constellationId == m.constellationId
      && r.value.svId == DecimalValue(m.prn[1..])
      && r.value.glonassFrequency == (if m.constellationId == GLONASS then m.glonassFreq else 0)
      && (|m.observablesFinal| > 0 ==>
            r.value.pseudorange == m.observablesFinal[C1C]
            && r.value.pseudorangeRate == m.observablesFinal[D1C])
      && (|m.observablesFinal| == 0 ==>
            r.value.pseudorange == m.observables[C1C]
            && r.value.pseudorangeRate == m.observables[D1C])
      && r.value.pseudorangeStd == m.observablesStd[C1C]
      && r.value.pseudorangeRateStd == m.observablesStd[D1C]
      && r.value.satPos == m.satPosFinal
      && r.value.satVel == m.satVel
    ensures r.Failure? && ParseSvId(m.prn).Failure? ==> r.error == ParseSvId(m.prn).error
    ensures r.Failure? && ParseSvId(m.prn).Success? ==>
      r.error == if C1C !in SelectedObservables(m) || C1C !in m.observablesStd then KeyError(C1C) else KeyError(D1C)
  {
    var svId :- ParseSvId(m.prn);
    var observables := SelectedObservables(m);
    var glonassFrequency := if m.constellationId == GLONASS then m.glonassFreq else 0;
    var pseudorange :- Lookup(observables, C1C);
    var pseudorangeStd :- Lookup(m.observablesStd, C1C);
    var pseudorangeRate :- Lookup(observables, D1C);
    var pseudorangeRateStd :- Lookup(m.observablesStd, D1C);
    Success(CorrectedMeasurement(
      m.constellationId, svId, glonassFrequency,
      pseudorange, pseudorangeStd, pseudorangeRate, pseudorangeRateStd,
      m.satPosFinal, m.satVel))
  }

  /** [create_measurement_msg(m) for m in measurements]: one record per
      measurement, in order, or the exception of the first one that raises. */
  function CreateMeasurementMsgs(ms: seq<GnssMeasurement>): (r: Result<seq<CorrectedMeasurement>, Failure>)
    ensures r.Success? <==> forall i :: 0 <= i < |ms| ==> Serializable(ms[i])
    ensures r.Success? ==>
      |r.value| == |ms| && forall i :: 0 <= i < |ms| ==> CreateMeasurementMsg(ms[i]) == Success(r.value[i])
    ensures r.Failure? ==>
      exists i :: 0 <= i < |ms| && CreateMeasurementMsg(ms[i]) == Failure(r.error)
                  && forall j :: 0 <= j < i ==> Serializable(ms[j])
  {
    if |ms| == 0 then Success([])
    else
      var head :- CreateMeasurementMsg(ms[0]);
      var tail :- CreateMeasurementMsgs(ms[1..]);
      Success([head] + tail)
  }

  // ---------------------------------------------------------------------
  // What the record does and does not depend on
  // ---------------------------------------------------------------------

  /** Once corrected observables exist, the raw ones no longer matter. */
  lemma RawObservablesIgnoredWhenCorrected(m: GnssMeasurement, raw: map<string, real>)
    requires |m.observablesFinal| > 0
    ensures CreateMeasurementMsg(m.(observables := raw)) == CreateMeasurementMsg(m)
  {
  }

  /** Without corrected observables, the raw ones are used. */
  lemma RawObservablesUsedWhenUncorrected(m: GnssMeasurement)
    requires |m.observablesFinal| == 0 && Serializable(m)
    ensures CreateMeasurementMsg(m).value.pseudorange == m.observables[C1C]
    ensures CreateMeasurementMsg(m).value.pseudorangeRate == m.observables[D1C]
  {
  }

  /** Standard deviations always come from observables_std, never from the
      corrected or raw observables. */
  lemma StdIndependentOfObservables(m: GnssMeasurement, raw: map<string, real>, final: map<string, real>)
    requires Serializable(m) && Serializable(m.(observables := raw, observablesFinal := final))
    ensures CreateMeasurementMsg(m.(observables := raw, observablesFinal := final)).value.pseudorangeStd
         == CreateMeasurementMsg(m).value.pseudorangeStd
    ensures CreateMeasurementMsg(m.(observables := raw, observablesFinal := final)).value.pseudorangeRateStd
         == CreateMeasurementMsg(m).value.pseudorangeRateStd
  {
  }

  /** The position comes from sat_pos_final; the uncorrected sat_pos is never
      read, while the velocity is the uncorrected sat_vel. */
  lemma UncorrectedPositionIgnored(m: GnssMeasurement, pos: seq<real>)
    ensures CreateMeasurementMsg(m.(satPos := pos)) == CreateMeasurementMsg(m)
  {
  }

  /** The frequency channel of a non-GLONASS satellite is never read. */
  lemma GlonassFrequencyOnlyForGlonass(m: GnssMeasurement, freq: int)
    requires m.constellationId != GLONASS
    ensures CreateMeasurementMsg(m.(glonassFreq := freq)) == CreateMeasurementMsg(m)
  {
  }

  /** A GPS measurement with zero-valued observables serialises to a GPS
      record with zero pseudorange; once corrected observables carry a
      pseudorange of 1.0, the record carries 1.0 although the raw one is 0. */
  lemma CorrectedPseudorangePreferred()
    ensures var zeros := map[C1C := 0.0, D1C := 0.0];
            var m := GnssMeasurement(GPS, "G01", 0, zeros, map[], zeros, [], [], []);
            && CreateMeasurementMsg(m) == Success(CorrectedMeasurement(GPS, 1, 0, 0.0, 0.0, 0.0, 0.0, [], []))
            && CreateMeasurementMsg(m.(observablesFinal := map[C1C := 1.0, D1C := 0.0])).value.pseudorange == 1.0
  {
    var zeros := map[C1C := 0.0, D1C := 0.0];
    var m := GnssMeasurement(GPS, "G01", 0, zeros, map[], zeros, [], [], []);
    assert m.prn[1..] == "01";
    assert DecimalValue("01") == 1 by {
      assert "01"[..1] == "0";
    }
  }

  /** A GLONASS PRN "R14" gives satellite 14 and keeps its frequency channel. */
  lemma GlonassRecordKeepsChannel(m: GnssMeasurement)
    requires m.constellationId == GLONASS && m.prn == "R14" && Serializable(m)
    ensures CreateMeasurementMsg(m).value.svId == 14
    ensures CreateMeasurementMsg(m).value.glonassFrequency == m.glonassFreq
  {
    assert m.prn[1..] == "14";
    assert DecimalValue("14") == 14 by {
      assert "14"[..1] == "1";
      assert DecimalValue("1") == 1 by { assert "1"[..0] == ""; }
    }
  }
}
