/**
 Sensor measurements (src/app/sensor_data.cpp): the 11-byte payload and the range checks.
 Temperature and humidity are kept in tenths, the integers on the wire.
 */
module Sensor {
  import opened Words
  import opened Frames

  datatype SensorData = SensorData(
    deviceId: Byte,
    cmd: Byte,
    temperatureX10: int,
    humidityX10: int,
    gasPpm: Word,
    batteryMv: Word,
    status: Byte,
    sequence: Word,
    valid: bool,
    warnings: seq<string>
  )

  const PAYLOAD_SIZE: nat := 11

  function ReadU16(data: seq<Byte>, offset: nat): Word
    requires offset + 2 <= |data|
  {
    Join(data[offset + 1], data[offset])
  }

  /** The same two bytes read as a two's complement number. */
  function ReadI16(data: seq<Byte>, offset: nat): int
    requires offset + 2 <= |data|
  {
    Signed(ReadU16(data, offset))
  }

  function Signed(w: Word): int { if w < 0x8000 then w else w - 0x10000 }

  function Warn(d: SensorData, condition: bool, warning: string): SensorData {
    if condition then d.(valid := false, warnings := d.warnings + [warning]) else d
  }

  /** validate_sensor_data_impl: each rule broken adds its warning, in this order. */
  function ApplyRules(d: SensorData): SensorData {
    var d := Warn(d, d.temperatureX10 < -400 || d.temperatureX10 > 850, "temperature out of range");
    var d := Warn(d, d.humidityX10 < 0 || d.humidityX10 > 1000, "humidity out of range");
    var d := Warn(d, d.gasPpm > 5000, "gas concentration out of range");
    var d := Warn(d, d.batteryMv < 3000 || d.batteryMv > 4200, "battery voltage out of range");
    var d := Warn(d, d.status % 2 == 1, "device reports sensor fault");
    var d := Warn(d, d.status / 2 % 2 == 1, "device reports low battery");
    Warn(d, d.status / 4 % 2 == 1, "device is calibrating")
  }

  /** validate_sensor_data: earlier results are discarded first. */
  function Validate(d: SensorData): SensorData {
    ApplyRules(d.(valid := true, warnings := []))
  }

  /** parse_sensor_data; the result is accepted when it is valid. */
  function ParseSensorData(f: Frame): SensorData {
    if |f.payload| != PAYLOAD_SIZE then
      SensorData(f.deviceId, f.cmd, 0, 0, 0, 0, 0, 0, false, ["invalid payload length"])
    else
      ApplyRules(Reading(f))
  }

  function Reading(f: Frame): SensorData
    requires |f.payload| == PAYLOAD_SIZE
  {
    var p := f.payload;
    SensorData(f.deviceId, f.cmd, ReadI16(p, 0), ReadU16(p, 2), ReadU16(p, 4),
               ReadU16(p, 6), p[8], ReadU16(p, 9), true, [])
  }

  /** The documented ranges, with none of the three fault bits set. */
  predicate InRange(d: SensorData) {
    && -400 <= d.temperatureX10 <= 850
    && 0 <= d.humidityX10 <= 1000
    && d.gasPpm <= 5000
    && 3000 <= d.batteryMv <= 4200
    && d.status % 8 == 0
  }

  predicate SameReading(a: SensorData, b: SensorData) {
    a.(valid := true, warnings := []) == b.(valid := true, warnings := [])
  }

  /** The three status tests together. */
  lemma StatusRules(status: Byte)
    ensures status % 8 == 0 <==> status % 2 != 1 && status / 2 % 2 != 1 && status / 4 % 2 != 1
  {}

  lemma RulesExact(d: SensorData)
    requires d.valid && d.warnings == []
    ensures var v := ApplyRules(d);
            && SameReading(v, d)
            && (InRange(d) <==> v == d) && (v.valid <==> v == d) && (v.warnings == [] <==> v == d)
  {
    StatusRules(d.status);
  }

  /** Validation keeps the reading, flags it exactly when it is out of range, and explains
      every flag with at least one warning. */
  lemma ValidateExact(d: SensorData)
    ensures var v := Validate(d);
            SameReading(v, d) && (v.valid <==> InRange(d)) && (v.valid <==> v.warnings == [])
  {
    hide ApplyRules;
    RulesExact(d.(valid := true, warnings := []));
  }

  /** Validation looks at the reading only, and validating twice changes nothing. */
  lemma ValidateReading(d: SensorData, e: SensorData)
    requires SameReading(d, e)
    ensures Validate(d) == Validate(e) && Validate(Validate(d)) == Validate(d)
  {
    hide ApplyRules;
    ValidateExact(d);
  }

  /** An accepted frame gives a validated measurement. */
  lemma AcceptedIsValidated(f: Frame)
    requires ParseSensorData(f).valid
    ensures ParseSensorData(f) == Validate(ParseSensorData(f))
  {
    hide ApplyRules, ReadU16, ReadI16;
    if |f.payload| == PAYLOAD_SIZE { RulesExact(Reading(f)); }
  }

  /** A text is the warning of a rule that the reading breaks. */
  predicate Explains(x: string, d: SensorData) {
    || (x == "temperature out of range" && !(-400 <= d.temperatureX10 <= 850))
    || (x == "humidity out of range" && !(0 <= d.humidityX10 <= 1000))
    || (x == "gas concentration out of range" && d.gasPpm > 5000)
    || (x == "battery voltage out of range" && !(3000 <= d.batteryMv <= 4200))
    || (x == "device reports sensor fault" && d.status % 2 == 1)
    || (x == "device reports low battery" && d.status / 2 % 2 == 1)
    || (x == "device is calibrating" && d.status / 4 % 2 == 1)
  }

  /** The warnings are exactly those of the broken rules. */
  lemma WarningsExact(d: SensorData, x: string)
    ensures x in Validate(d).warnings <==> Explains(x, d)
  {
    hide Warn;
    var d0 := d.(valid := true, warnings := []);
    var d1 := Adds(d0, d0.temperatureX10 < -400 || d0.temperatureX10 > 850, "temperature out of range", x);
    var d2 := Adds(d1, d1.humidityX10 < 0 || d1.humidityX10 > 1000, "humidity out of range", x);
    var d3 := Adds(d2, d2.gasPpm > 5000, "gas concentration out of range", x);
    var d4 := Adds(d3, d3.batteryMv < 3000 || d3.batteryMv > 4200, "battery voltage out of range", x);
    var d5 := Adds(d4, d4.status % 2 == 1, "device reports sensor fault", x);
    var d6 := Adds(d5, d5.status / 2 % 2 == 1, "device reports low battery", x);
    var d7 := Adds(d6, d6.status / 4 % 2 == 1, "device is calibrating", x);
  }

  lemma Adds(d: SensorData, condition: bool, warning: string, x: string) returns (e: SensorData)
    ensures e == Warn(d, condition, warning) && SameReading(e, d)
    ensures x in e.warnings <==> x in d.warnings || (condition && x == warning)
  {
    e := Warn(d, condition, warning);
  }

  function When(condition: bool, text: string): seq<string> { if condition then [text] else [] }

  lemma Lists(d: SensorData, condition: bool, text: string)
    ensures var e := Warn(d, condition, text);
            SameReading(e, d) && e.warnings == d.warnings + When(condition, text)
  {}

  /** Rules applied one after the other list their warnings one after the other. */
  lemma FourRules(d: SensorData, a: bool, s: string, b: bool, t: string, c: bool, u: string, e: bool, v: string)
    ensures var r := Warn(Warn(Warn(Warn(d, a, s), b, t), c, u), e, v);
            SameReading(r, d) && r.warnings == d.warnings + When(a, s) + When(b, t) + When(c, u) + When(e, v)
  {
    hide Warn, When;
    var d1, d2 := Warn(d, a, s), Warn(Warn(d, a, s), b, t);
    Lists(d, a, s);
    Lists(d1, b, t);
    Lists(d2, c, u);
    Lists(Warn(d2, c, u), e, v);
  }

  lemma {:induction false} RulesUnfold(d: SensorData)
    ensures ApplyRules(d) ==
            Warn(Warn(Warn(Warn(Warn(Warn(Warn(d,
              d.temperatureX10 < -400 || d.temperatureX10 > 850, "temperature out of range"),
              d.humidityX10 < 0 || d.humidityX10 > 1000, "humidity out of range"),
              d.gasPpm > 5000, "gas concentration out of range"),
              d.batteryMv < 3000 || d.batteryMv > 4200, "battery voltage out of range"),
              d.status % 2 == 1, "device reports sensor fault"),
              d.status / 2 % 2 == 1, "device reports low battery"),
              d.status / 4 % 2 == 1, "device is calibrating")
  {}

  /** The whole list of warnings: one for each rule broken, in the order of the rules. */
  lemma {:induction false} WarningsInOrder(d: SensorData)
    ensures Validate(d).warnings ==
            [] + When(d.temperatureX10 < -400 || d.temperatureX10 > 850, "temperature out of range")
            + When(d.humidityX10 < 0 || d.humidityX10 > 1000, "humidity out of range")
            + When(d.gasPpm > 5000, "gas concentration out of range")
            + When(d.batteryMv < 3000 || d.batteryMv > 4200, "battery voltage out of range")
            + When(d.status % 2 == 1, "device reports sensor fault")
            + When(d.status / 2 % 2 == 1, "device reports low battery")
            + When(d.status / 4 % 2 == 1, "device is calibrating")
  {
    var r := d.(valid := true, warnings := []);
    RulesUnfold(r);
    hide Warn, When, ApplyRules;
    var hot, humid := d.temperatureX10 < -400 || d.temperatureX10 > 850, d.humidityX10 < 0 || d.humidityX10 > 1000;
    var gas, power := d.gasPpm > 5000, d.batteryMv < 3000 || d.batteryMv > 4200;
    FourRules(r, hot, "temperature out of range", humid, "humidity out of range",
              gas, "gas concentration out of range", power, "battery voltage out of range");
    var s := Warn(Warn(Warn(Warn(r, hot, "temperature out of range"), humid, "humidity out of range"),
                       gas, "gas concentration out of range"), power, "battery voltage out of range");
    Lists(s, d.status % 2 == 1, "device reports sensor fault");
    var t := Warn(s, d.status % 2 == 1, "device reports sensor fault");
    Lists(t, d.status / 2 % 2 == 1, "device reports low battery");
    Lists(Warn(t, d.status / 2 % 2 == 1, "device reports low battery"),
          d.status / 4 % 2 == 1, "device is calibrating");
  }

  /** What a frame gives, byte by byte: 11 bytes high byte first, and anything else refused. */
  lemma {:induction false} ReadingBytes(f: Frame)
    ensures var d, p := ParseSensorData(f), f.payload;
            && d.deviceId == f.deviceId && d.cmd == f.cmd
            && (|p| != 11 ==> !d.valid && d.warnings == ["invalid payload length"])
            && (|p| == 11 ==>
                  var t := 256 * p[0] as int + p[1] as int;
                  && d == Validate(d)
                  && d.temperatureX10 == (if t < 32768 then t else t - 65536)
                  && d.humidityX10 == 256 * p[2] as int + p[3] as int
                  && d.gasPpm == 256 * p[4] as int + p[5] as int
                  && d.batteryMv == 256 * p[6] as int + p[7] as int
                  && d.status == p[8]
                  && d.sequence == 256 * p[9] as int + p[10] as int)
  {
    hide ApplyRules;
    if |f.payload| == 11 {
      RulesExact(Reading(f));
      ValidateReading(Reading(f), Reading(f));
    }
  }

  function PutU16(w: Word): seq<Byte> { [High(w), Low(w)] }

  function Unsigned(t: int): Word
    requires -0x8000 <= t < 0x8000
  {
    if t < 0 then t + 0x10000 else t
  }

  /** What a terminal sends for a reading. */
  function EncodePayload(d: SensorData): (p: seq<Byte>)
    requires InRange(d)
    ensures |p| == PAYLOAD_SIZE
  {
    PutU16(Unsigned(d.temperatureX10)) + PutU16(d.humidityX10) + PutU16(d.gasPpm)
    + PutU16(d.batteryMv) + [d.status] + PutU16(d.sequence)
  }

  /** An accepted frame is exactly the encoding of one reading in range: nothing else is
      accepted, and the reading comes back unchanged. */
  lemma ParseSensorExact(f: Frame, d: SensorData)
    requires InRange(d) && d.valid && d.warnings == []
    ensures ParseSensorData(f) == d <==>
            f.deviceId == d.deviceId && f.cmd == d.cmd && f.payload == EncodePayload(d)
  {
    hide ApplyRules, ReadU16, ReadI16, EncodePayload;
    if |f.payload| == PAYLOAD_SIZE {
      RulesExact(Reading(f));
      if f.payload == EncodePayload(d) { PayloadRoundTrip(d); }
      if Reading(f) == d { PayloadOfReading(f); }
    }
  }

  lemma PayloadRoundTrip(d: SensorData)
    requires InRange(d)
    ensures var p := EncodePayload(d);
            && ReadI16(p, 0) == d.temperatureX10 && ReadU16(p, 2) == d.humidityX10
            && ReadU16(p, 4) == d.gasPpm && ReadU16(p, 6) == d.batteryMv
            && p[8] == d.status && ReadU16(p, 9) == d.sequence
  {
    JoinSplit(Unsigned(d.temperatureX10));
    JoinSplit(d.humidityX10);
    JoinSplit(d.gasPpm);
    JoinSplit(d.batteryMv);
    JoinSplit(d.sequence);
    hide Join, Low, High;
  }

  lemma PayloadOfReading(f: Frame)
    requires |f.payload| == PAYLOAD_SIZE && InRange(Reading(f))
    ensures EncodePayload(Reading(f)) == f.payload
  {
    var p := f.payload;
    SplitJoin(p[1], p[0]);
    SplitJoin(p[3], p[2]);
    SplitJoin(p[5], p[4]);
    SplitJoin(p[7], p[6]);
    SplitJoin(p[10], p[9]);
    hide Join, Low, High;
    assert Unsigned(ReadI16(p, 0)) == ReadU16(p, 0);
  }

  lemma AcceptedInRange(f: Frame)
    requires ParseSensorData(f).valid
    ensures InRange(ParseSensorData(f)) && ParseSensorData(f).warnings == [] && |f.payload| == PAYLOAD_SIZE
  {
    hide ApplyRules, ReadU16, ReadI16;
    if |f.payload| == PAYLOAD_SIZE { RulesExact(Reading(f)); }
  }
}
