/**
 The JSON text of a measurement (sensor_data_to_json in src/app/sensor_data.cpp). For the
 measurements the devices deliver it contains no control character, which the line framing over
 TCP and the text-file cache rely on, and it determines the measurement it was made from.
 */
module SensorJson {
  import opened Sensor

  function DigitChar(d: nat): char
    requires d < 10
  {
    "0123456789"[d]
  }

  function Decimal(n: nat): (s: string)
    ensures |s| > 0
  {
    if n < 10 then [DigitChar(n)] else Decimal(n / 10) + [DigitChar(n % 10)]
  }

  function Abs(t: int): nat { if t < 0 then -t else t }

  /** A number of tenths with one digit after the point. */
  function Tenths(t: int): string {
    (if t < 0 then "-" else "") + Decimal(Abs(t) / 10) + "." + Decimal(Abs(t) % 10)
  }

  function Member(name: string, value: string): string { "\"" + name + "\":" + value }

  function Warnings(ws: seq<string>): string {
    if |ws| == 0 then ""
    else if |ws| == 1 then "\"" + ws[0] + "\""
    else Warnings(ws[..|ws| - 1]) + "," + "\"" + ws[|ws| - 1] + "\""
  }

  /** What follows the last number. */
  function Ending(d: SensorData): string {
    Member("valid", if d.valid then "true" else "false")
    + (if |d.warnings| == 0 then "" else ",\"warnings\":[" + Warnings(d.warnings) + "]") + "}"
  }

  function Texts(d: SensorData): seq<string> {
    ["{" + Member("device_id", Decimal(d.deviceId)), Member("cmd", Decimal(d.cmd)),
     Member("temperature_c", Tenths(d.temperatureX10)), Member("humidity_percent", Tenths(d.humidityX10)),
     Member("gas_ppm", Decimal(d.gasPpm)), Member("battery_mv", Decimal(d.batteryMv)),
     Member("status", Decimal(d.status)), Member("sequence", Decimal(d.sequence))]
  }

  function Separated(texts: seq<string>, ending: string): string {
    if |texts| == 0 then ending else texts[0] + "," + Separated(texts[1..], ending)
  }

  function ToJson(d: SensorData): string {
    Separated(Texts(d), Ending(d))
  }

  // ----- characters -----

  predicate Control(c: char) { c < ' ' }

  lemma {:induction false} DecimalDigits(n: nat, c: char)
    requires c < '0' || c > '9'
    ensures c !in Decimal(n)
  {
    if n >= 10 { DecimalDigits(n / 10, c); }
  }

  lemma {:induction false} WarningsClean(ws: seq<string>, c: char)
    requires Control(c) && forall i :: 0 <= i < |ws| ==> c !in ws[i]
    ensures c !in Warnings(ws)
  {
    if |ws| > 1 { WarningsClean(ws[..|ws| - 1], c); }
  }

  lemma {:induction false} SeparatedClean(texts: seq<string>, ending: string, c: char)
    requires Control(c) && c !in ending && forall i :: 0 <= i < |texts| ==> c !in texts[i]
    ensures c !in Separated(texts, ending)
  {
    if |texts| > 0 { SeparatedClean(texts[1..], ending, c); }
  }

  lemma TenthsClean(t: int, c: char)
    requires (c < '0' || c > '9') && c != '-' && c != '.'
    ensures c !in Tenths(t)
  {
    DecimalDigits(Abs(t) / 10, c);
    DecimalDigits(Abs(t) % 10, c);
  }

  lemma TextsClean(d: SensorData, c: char)
    requires Control(c) || c == ','
    ensures forall i :: 0 <= i < |Texts(d)| ==> c !in Texts(d)[i]
  {
    hide Decimal, Tenths, Member;
    NumberClean("device_id", d.deviceId, c);
    NumberClean("cmd", d.cmd, c);
    TenthsMemberClean("temperature_c", d.temperatureX10, c);
    TenthsMemberClean("humidity_percent", d.humidityX10, c);
    NumberClean("gas_ppm", d.gasPpm, c);
    NumberClean("battery_mv", d.batteryMv, c);
    NumberClean("status", d.status, c);
    NumberClean("sequence", d.sequence, c);
  }

  lemma {:induction false} NumberClean(name: string, n: nat, c: char)
    requires c !in name && (Control(c) || c == ',')
    ensures c !in Member(name, Decimal(n))
  {
    hide Decimal;
    DecimalDigits(n, c);
  }

  lemma TenthsMemberClean(name: string, t: int, c: char)
    requires c !in name && (Control(c) || c == ',')
    ensures c !in Member(name, Tenths(t))
  {
    hide Tenths;
    TenthsClean(t, c);
  }

  lemma EndingClean(d: SensorData, c: char)
    requires Control(c) && forall i :: 0 <= i < |d.warnings| ==> c !in d.warnings[i]
    ensures c !in Ending(d)
  {
    hide Warnings;
    WarningsClean(d.warnings, c);
  }

  /** The JSON of a measurement has a control character only if one of its warnings has. */
  lemma JsonClean(d: SensorData, c: char)
    requires Control(c) && forall i :: 0 <= i < |d.warnings| ==> c !in d.warnings[i]
    ensures c !in ToJson(d)
  {
    hide Texts, Separated, Ending;
    TextsClean(d, c);
    EndingClean(d, c);
    SeparatedClean(Texts(d), Ending(d), c);
  }

  /** Characters that the warnings of the rules do not contain. */
  predicate Special(c: char) { Control(c) || c == ',' || c == '"' }

  lemma RangeTextClean(x: string, c: char)
    requires x == "temperature out of range" || x == "humidity out of range"
    requires Special(c)
    ensures c !in x
  {}

  lemma LevelTextClean(x: string, c: char)
    requires x == "gas concentration out of range" || x == "battery voltage out of range"
    requires Special(c)
    ensures c !in x
  {}

  lemma StatusTextClean(x: string, c: char)
    requires x == "device reports sensor fault" || x == "device reports low battery" || x == "device is calibrating"
    requires Special(c)
    ensures c !in x
  {}

  lemma ExplanationClean(x: string, d: SensorData, c: char)
    requires Explains(x, d) && Special(c)
    ensures c !in x
  {
    if x == "temperature out of range" || x == "humidity out of range" {
      RangeTextClean(x, c);
    } else if x == "gas concentration out of range" || x == "battery voltage out of range" {
      LevelTextClean(x, c);
    } else {
      StatusTextClean(x, c);
    }
  }

  /** A measurement as validation leaves it. */
  predicate Checked(d: SensorData) { d == Validate(d) }

  lemma CheckedWarningsClean(d: SensorData, c: char)
    requires Checked(d) && Special(c)
    ensures forall i :: 0 <= i < |d.warnings| ==> c !in d.warnings[i]
  {
    hide Validate, Explains;
    forall i | 0 <= i < |d.warnings| ensures c !in d.warnings[i] {
      WarningsExact(d, d.warnings[i]);
      ExplanationClean(d.warnings[i], d, c);
    }
  }

  /** Its JSON is a single line without any control character. */
  lemma CheckedJsonClean(d: SensorData, c: char)
    requires Checked(d) && Control(c)
    ensures c !in ToJson(d)
  {
    hide ToJson, Checked;
    CheckedWarningsClean(d, c);
    JsonClean(d, c);
  }

  // ----- the text determines the reading -----

  /** Two texts split at their first separator. */
  lemma {:induction false} Peel(a: string, x: string, b: string, y: string, c: char)
    requires c !in a && c !in b && a + [c] + x == b + [c] + y
    ensures a == b && x == y
    decreases |a|
  {
    var s := a + [c] + x;
    assert s[0] == if |a| > 0 then a[0] else c;
    assert s[0] == if |b| > 0 then b[0] else c;
    if |a| == 0 {
      assert s[1..] == x && |b| == 0;
    } else {
      assert s[1..] == a[1..] + [c] + x == b[1..] + [c] + y;
      Peel(a[1..], x, b[1..], y, c);
    }
  }

  lemma {:induction false} SeparatedInjective(v: seq<string>, e: string, w: seq<string>, f: string)
    requires |v| == |w| && Separated(v, e) == Separated(w, f)
    requires forall i :: 0 <= i < |v| ==> ',' !in v[i] && ',' !in w[i]
    ensures v == w && e == f
  {
    if |v| > 0 {
      Peel(v[0], Separated(v[1..], e), w[0], Separated(w[1..], f), ',');
      SeparatedInjective(v[1..], e, w[1..], f);
      assert v == [v[0]] + v[1..] && w == [w[0]] + w[1..];
    }
  }

  lemma {:induction false} DecimalInjective(m: nat, n: nat)
    requires Decimal(m) == Decimal(n)
    ensures m == n
  {
    var s := Decimal(m);
    assert m >= 10 <==> |s| > 1;
    assert n >= 10 <==> |s| > 1;
    if m >= 10 {
      assert s[..|s| - 1] == Decimal(m / 10) == Decimal(n / 10);
      DecimalInjective(m / 10, n / 10);
      LastDigit(m);
      LastDigit(n);
    } else {
      assert s[0] == DigitChar(m) == DigitChar(n);
    }
  }

  lemma {:induction false} LastDigit(n: nat)
    requires n >= 10
    ensures Decimal(n)[|Decimal(n)| - 1] == DigitChar(n % 10)
  {}

  lemma {:induction false} DecimalFirst(n: nat)
    ensures Decimal(n)[0] != '-'
  {
    if n >= 10 { DecimalFirst(n / 10); }
  }

  lemma TenthsInjective(t: int, u: int)
    requires Tenths(t) == Tenths(u)
    ensures t == u
  {
    DecimalFirst(Abs(t) / 10);
    DecimalFirst(Abs(u) / 10);
    assert (Tenths(t)[0] == '-') == (t < 0) && (Tenths(u)[0] == '-') == (u < 0);
    var sign := if t < 0 then "-" else "";
    DecimalDigits(Abs(t) / 10, '.');
    DecimalDigits(Abs(u) / 10, '.');
    Peel(sign + Decimal(Abs(t) / 10), Decimal(Abs(t) % 10), sign + Decimal(Abs(u) / 10), Decimal(Abs(u) % 10), '.');
    assert (sign + Decimal(Abs(t) / 10))[|sign|..] == Decimal(Abs(t) / 10);
    assert (sign + Decimal(Abs(u) / 10))[|sign|..] == Decimal(Abs(u) / 10);
    DecimalInjective(Abs(t) / 10, Abs(u) / 10);
    DecimalInjective(Abs(t) % 10, Abs(u) % 10);
  }

  lemma MemberInjective(name: string, v: string, w: string)
    requires Member(name, v) == Member(name, w)
    ensures v == w
  {
    var n := |name| + 3;
    assert Member(name, v)[n..] == v && Member(name, w)[n..] == w;
  }

  lemma EndingValid(d: SensorData, e: SensorData)
    requires Ending(d) == Ending(e)
    ensures d.valid == e.valid
  {
    hide Warnings;
    assert Ending(d)[8] == if d.valid then 't' else 'f';
    assert Ending(e)[8] == if e.valid then 't' else 'f';
  }

  /** Equal texts come from equal readings with equal verdicts, and from equal measurements when
      both were validated: a receiver can recover the measurement. */
  lemma JsonInjective(d: SensorData, e: SensorData)
    requires ToJson(d) == ToJson(e)
    ensures SameReading(d, e) && d.valid == e.valid
    ensures Checked(d) && Checked(e) ==> d == e
  {
    hide ToJson, Validate;
    JsonReading(d, e);
    if Checked(d) && Checked(e) { ValidateReading(d, e); }
  }

  lemma JsonReading(d: SensorData, e: SensorData)
    requires ToJson(d) == ToJson(e)
    ensures SameReading(d, e) && d.valid == e.valid
  {
    hide Decimal, Tenths, Member, Ending, Separated;
    var v, w := Texts(d), Texts(e);
    TextsClean(d, ',');
    TextsClean(e, ',');
    SeparatedInjective(v, Ending(d), w, Ending(e));
    EndingValid(d, e);
    assert v[0] == w[0] && v[1] == w[1] && v[2] == w[2] && v[3] == w[3];
    assert v[4] == w[4] && v[5] == w[5] && v[6] == w[6] && v[7] == w[7];
    assert v[0][1..] == Member("device_id", Decimal(d.deviceId));
    assert w[0][1..] == Member("device_id", Decimal(e.deviceId));
    NumberMember("device_id", d.deviceId, e.deviceId);
    NumberMember("cmd", d.cmd, e.cmd);
    NumberMember("gas_ppm", d.gasPpm, e.gasPpm);
    NumberMember("battery_mv", d.batteryMv, e.batteryMv);
    NumberMember("status", d.status, e.status);
    NumberMember("sequence", d.sequence, e.sequence);
    TenthsMember("temperature_c", d.temperatureX10, e.temperatureX10);
    TenthsMember("humidity_percent", d.humidityX10, e.humidityX10);
  }

  lemma {:induction false} NumberMember(name: string, m: nat, n: nat)
    requires Member(name, Decimal(m)) == Member(name, Decimal(n))
    ensures m == n
  {
    hide Decimal, Member;
    MemberInjective(name, Decimal(m), Decimal(n));
    DecimalInjective(m, n);
  }

  lemma TenthsMember(name: string, t: int, u: int)
    requires Member(name, Tenths(t)) == Member(name, Tenths(u))
    ensures t == u
  {
    hide Tenths, Member;
    MemberInjective(name, Tenths(t), Tenths(u));
    TenthsInjective(t, u);
  }
}
