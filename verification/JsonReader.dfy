/**
 A receiver of the JSON text of a measurement (sensor_data_to_json in src/app/sensor_data.cpp):
 it splits the text at commas, looks fields up by their names and reads numbers by the codes of
 their digits. Nothing in it depends on how the text is printed; that every field comes back says
 which text it is.
 */
module JsonReader {
  import opened Sensor
  import opened SensorJson

  // ----- the receiver -----

  /** The text before the first c, or all of it. */
  function Until(s: string, c: char): string {
    if |s| == 0 || s[0] == c then "" else [s[0]] + Until(s[1..], c)
  }

  /** The text after the first c, or nothing. */
  function Beyond(s: string, c: char): string {
    if |s| == 0 then "" else if s[0] == c then s[1..] else Beyond(s[1..], c)
  }

  /** The text split at its commas. */
  function Pieces(s: string): (pieces: seq<string>)
    ensures |pieces| > 0
    decreases |s|
  {
    if ',' !in s then [s]
    else
      BeyondShorter(s, ',');
      [Until(s, ',')] + Pieces(Beyond(s, ','))
  }

  /** The pieces from the one that begins with a key, without the key. */
  function From(pieces: seq<string>, key: string): seq<string> {
    if |pieces| == 0 then []
    else if key <= pieces[0] then [pieces[0][|key|..]] + pieces[1..]
    else From(pieces[1..], key)
  }

  /** What an object gives for a name, as far as the next comma. */
  function Field(json: string, name: string): string {
    if |json| == 0 then ""
    else
      var found := From(Pieces(json[1..]), "\"" + name + "\":");
      if |found| == 0 then "" else found[0]
  }

  function DigitOf(c: char): int { c as int - '0' as int }

  function ReadDecimal(s: string): int {
    if |s| == 0 then 0 else 10 * ReadDecimal(s[..|s| - 1]) + DigitOf(s[|s| - 1])
  }

  /** A number with one digit after the point, in tenths. */
  function ReadTenths(s: string): int {
    if |s| < 3 || s[|s| - 2] != '.' then 0
    else if s[0] == '-' then -(10 * ReadDecimal(s[1..|s| - 2]) + DigitOf(s[|s| - 1]))
    else 10 * ReadDecimal(s[..|s| - 2]) + DigitOf(s[|s| - 1])
  }

  predicate ReadBool(s: string) { "true" <= s }

  /** The texts in quotes, one from each piece. */
  function ReadTexts(pieces: seq<string>): (texts: seq<string>)
    ensures |texts| == |pieces|
  {
    if |pieces| == 0 then [] else [Until(Beyond(pieces[0], '"'), '"')] + ReadTexts(pieces[1..])
  }

  /** The texts an object gives for its last name. */
  function TextsOf(json: string, name: string): seq<string> {
    if |json| == 0 then [] else ReadTexts(From(Pieces(json[1..]), "\"" + name + "\":"))
  }

  // ----- reading back numbers -----

  lemma {:induction false} BeyondShorter(s: string, c: char)
    requires c in s
    ensures |Beyond(s, c)| < |s|
  {
    if s[0] != c { BeyondShorter(s[1..], c); }
  }

  lemma {:induction false} DecimalReadBack(n: nat)
    ensures ReadDecimal(Decimal(n)) == n
  {
    if n < 10 {
      assert ReadDecimal([DigitChar(n)]) == 10 * ReadDecimal([DigitChar(n)][..0]) + DigitOf(DigitChar(n));
    } else {
      DecimalReadBack(n / 10);
      assert Decimal(n)[..|Decimal(n)| - 1] == Decimal(n / 10);
    }
  }

  lemma {:induction false} TenthsReadBack(t: int)
    ensures ReadTenths(Tenths(t)) == t
  {
    var i, f := Decimal(Abs(t) / 10), Decimal(Abs(t) % 10);
    OneDigit(Abs(t) % 10);
    DecimalReadBack(Abs(t) / 10);
    DecimalFirst(Abs(t) / 10);
    hide Decimal, ReadDecimal, DigitOf;
    var s := Tenths(t);
    if t < 0 {
      assert s[0] == '-' && s[1..|s| - 2] == i;
    } else {
      assert s[0] == i[0] && s[..|s| - 2] == i;
    }
  }

  lemma {:induction false} OneDigit(n: nat)
    requires n < 10
    ensures |Decimal(n)| == 1 && DigitOf(Decimal(n)[0]) == n
  {}

  // ----- finding the fields -----

  lemma {:induction false} FirstPiece(text: string, rest: string, c: char)
    requires c !in text
    ensures Until(text + [c] + rest, c) == text && Beyond(text + [c] + rest, c) == rest
    decreases |text|
  {
    var s := text + [c] + rest;
    if |text| == 0 {
      assert s[0] == c && s[1..] == rest;
    } else {
      assert s[0] == text[0] && s[1..] == text[1..] + [c] + rest;
      FirstPiece(text[1..], rest, c);
      assert text == [text[0]] + text[1..];
    }
  }

  lemma {:induction false} PieceOf(text: string, rest: string)
    requires ',' !in text
    ensures Pieces(text + "," + rest) == [text] + Pieces(rest)
  {
    FirstPiece(text, rest, ',');
    assert (text + "," + rest)[|text|] == ',';
  }

  lemma {:induction false} SeparatedPieces(texts: seq<string>, ending: string)
    requires forall i :: 0 <= i < |texts| ==> ',' !in texts[i]
    ensures Pieces(Separated(texts, ending)) == texts + Pieces(ending)
  {
    hide Pieces;
    if |texts| > 0 {
      SeparatedPieces(texts[1..], ending);
      PieceOf(texts[0], Separated(texts[1..], ending));
      assert texts == [texts[0]] + texts[1..];
    }
  }

  lemma {:induction false} KeyMatches(name: string, other: string, value: string)
    requires '"' !in name && '"' !in other
    ensures "\"" + name + "\":" <= Member(other, value) <==> name == other
    ensures Member(name, value)[|"\"" + name + "\":"|..] == value
  {
    var key, m := "\"" + name + "\":", Member(other, value);
    if key <= m {
      var rest := m[|key|..];
      assert m == key + rest;
      assert m[1..] == name + ['"'] + (":" + rest) == other + ['"'] + (":" + value);
      Peel(name, ":" + rest, other, ":" + value, '"');
    }
  }

  function Key(name: string): string { "\"" + name + "\":" }

  /** Members with these names and values. */
  function Members(names: seq<string>, values: seq<string>): (r: seq<string>)
    requires |names| == |values|
    ensures |r| == |names| && forall i :: 0 <= i < |r| ==> r[i] == Member(names[i], values[i])
  {
    seq(|names|, i requires 0 <= i < |names| => Member(names[i], values[i]))
  }

  predicate Plain(names: seq<string>) {
    && (forall i :: 0 <= i < |names| ==> '"' !in names[i])
    && (forall i, j :: 0 <= i < j < |names| ==> names[i] != names[j])
  }

  lemma {:induction false} FromFinds(names: seq<string>, values: seq<string>, rest: seq<string>, i: nat)
    requires |names| == |values| && Plain(names) && i < |names|
    ensures From(Members(names, values) + rest, Key(names[i]))
            == [values[i]] + Members(names, values)[i + 1..] + rest
    decreases i
  {
    hide Member;
    var ms := Members(names, values);
    KeyMatches(names[i], names[0], values[0]);
    if i == 0 {
      KeyMatches(names[0], names[0], values[0]);
      assert (ms + rest)[1..] == ms[1..] + rest;
    } else {
      var tail := Members(names[1..], values[1..]);
      assert ms == [ms[0]] + tail && (ms + rest)[1..] == tail + rest;
      FromFinds(names[1..], values[1..], rest, i - 1);
      assert tail[i..] == ms[i + 1..];
    }
  }

  lemma {:induction false} FromSkips(names: seq<string>, values: seq<string>, rest: seq<string>, name: string)
    requires |names| == |values| && Plain(names) && '"' !in name && name !in names
    ensures From(Members(names, values) + rest, Key(name)) == From(rest, Key(name))
    decreases |names|
  {
    hide Member;
    var ms := Members(names, values);
    if |names| == 0 {
      assert ms + rest == rest;
    } else {
      KeyMatches(name, names[0], values[0]);
      var tail := Members(names[1..], values[1..]);
      assert ms == [ms[0]] + tail && (ms + rest)[1..] == tail + rest;
      FromSkips(names[1..], values[1..], rest, name);
    }
  }

  // ----- a measurement -----

  function Names(): seq<string> {
    ["device_id", "cmd", "temperature_c", "humidity_percent", "gas_ppm", "battery_mv", "status", "sequence"]
  }

  function Values(d: SensorData): seq<string> {
    [Decimal(d.deviceId), Decimal(d.cmd), Tenths(d.temperatureX10), Tenths(d.humidityX10),
     Decimal(d.gasPpm), Decimal(d.batteryMv), Decimal(d.status), Decimal(d.sequence)]
  }

  lemma NamesPlain()
    ensures |Names()| == 8 && Plain(Names()) && "valid" !in Names() && "warnings" !in Names()
  {}

  lemma {:induction false} JsonPieces(d: SensorData)
    ensures |ToJson(d)| > 0 && Pieces(ToJson(d)[1..]) == Members(Names(), Values(d)) + Pieces(Ending(d))
  {
    hide Pieces, Decimal, Tenths, Ending, Separated, Member;
    TextsClean(d, ',');
    var texts, ms := Texts(d), Members(Names(), Values(d));
    OpeningBrace(d);
    assert ms == [texts[0][1..]] + texts[1..];
    SeparatedFirst(texts, Ending(d));
    SeparatedFirst(ms, Ending(d));
    var rest := Separated(texts[1..], Ending(d));
    assert ms[1..] == texts[1..] && ToJson(d) == texts[0] + "," + rest;
    assert (texts[0] + "," + rest)[1..] == texts[0][1..] + "," + rest;
    SeparatedPieces(ms, Ending(d));
  }

  lemma OpeningBrace(d: SensorData)
    ensures Texts(d)[0] == "{" + Member("device_id", Decimal(d.deviceId))
    ensures |Texts(d)| == 8 && Texts(d)[0][1..] == Member("device_id", Decimal(d.deviceId))
  {
    hide Member, Decimal;
  }

  lemma {:induction false} SeparatedFirst(texts: seq<string>, ending: string)
    requires |texts| > 0
    ensures Separated(texts, ending) == texts[0] + "," + Separated(texts[1..], ending)
  {}

  lemma {:induction false} FieldIs(d: SensorData, i: nat)
    requires i < 8
    ensures Field(ToJson(d), Names()[i]) == Values(d)[i]
  {
    hide Pieces, Decimal, Tenths, Ending, ToJson, Names, Values, From;
    ValuesLength(d);
    NamesPlain();
    JsonPieces(d);
    FromFinds(Names(), Values(d), Pieces(Ending(d)), i);
  }

  lemma ValuesLength(d: SensorData)
    ensures |Values(d)| == 8 && |Names()| == 8
  {}

  // ----- the end of the object -----

  lemma {:induction false} LastPiece(text: string)
    requires ',' !in text
    ensures Pieces(text) == [text]
  {}

  lemma {:induction false} WarningsCons(ws: seq<string>)
    requires |ws| > 1
    ensures Warnings(ws) == "\"" + ws[0] + "\"" + "," + Warnings(ws[1..])
    decreases |ws|
  {
    var n := |ws| - 1;
    if n > 1 {
      WarningsCons(ws[..n]);
      assert ws[..n][1..] == ws[1..][..n - 1];
    } else {
      assert ws[..1] == [ws[0]] && ws[1..] == [ws[1]];
    }
  }

  lemma {:induction false} QuotedText(prefix: string, text: string, suffix: string)
    requires '"' !in prefix && '"' !in text
    ensures Until(Beyond(prefix + "\"" + text + "\"" + suffix, '"'), '"') == text
  {
    FirstPiece(prefix, text + "\"" + suffix, '"');
    assert prefix + ['"'] + (text + "\"" + suffix) == prefix + "\"" + text + "\"" + suffix;
    FirstPiece(text, suffix, '"');
  }

  /** The pieces of an array of texts give back the texts, whatever is put before and after. */
  lemma {:induction false} WarningsReadBack(prefix: string, ws: seq<string>, suffix: string)
    requires |ws| > 0 && ',' !in prefix && '"' !in prefix && ',' !in suffix
    requires forall i :: 0 <= i < |ws| ==> ',' !in ws[i] && '"' !in ws[i]
    ensures ReadTexts(Pieces(prefix + Warnings(ws) + suffix)) == ws
    decreases |ws|
  {
    hide Pieces, Until, Beyond;
    if |ws| == 1 {
      var text := prefix + "\"" + ws[0] + "\"" + suffix;
      assert prefix + Warnings(ws) + suffix == text;
      LastPiece(text);
      QuotedText(prefix, ws[0], suffix);
      assert [text][1..] == [];
    } else {
      WarningsCons(ws);
      var text := prefix + "\"" + ws[0] + "\"";
      assert prefix + Warnings(ws) + suffix == text + "," + ("" + Warnings(ws[1..]) + suffix);
      PieceOf(text, "" + Warnings(ws[1..]) + suffix);
      QuotedText(prefix, ws[0], "");
      assert text + "" == text;
      WarningsReadBack("", ws[1..], suffix);
      assert ws == [ws[0]] + ws[1..];
    }
  }

  lemma {:induction false} PiecesAfter(head: string, s: string)
    requires ',' !in head
    ensures Pieces(head + s) == [head + Pieces(s)[0]] + Pieces(s)[1..]
  {
    if ',' in s {
      FirstComma(s);
      var first, rest := Until(s, ','), Beyond(s, ',');
      assert head + s == (head + first) + "," + rest;
      PieceOf(head + first, rest);
    } else {
      LastPiece(head + s);
    }
  }

  lemma {:induction false} FirstComma(s: string)
    requires ',' in s
    ensures s == Until(s, ',') + "," + Beyond(s, ',') && ',' !in Until(s, ',')
  {
    if s[0] != ',' {
      FirstComma(s[1..]);
      assert s == [s[0]] + s[1..];
    }
  }

  /** What follows a key, from a text that begins with it. */
  lemma {:induction false} FromKey(key: string, s: string)
    requires ',' !in key
    ensures From(Pieces(key + s), key) == Pieces(s)
  {
    hide Pieces;
    PiecesAfter(key, s);
    assert Pieces(s) == [Pieces(s)[0]] + Pieces(s)[1..];
  }

  function Verdict(d: SensorData): string { if d.valid then "true" else "false" }

  lemma {:induction false} EndingPieces(d: SensorData)
    ensures |From(Pieces(Ending(d)), Key("valid"))| > 0
    ensures From(Pieces(Ending(d)), Key("valid"))[0] == Verdict(d) + if |d.warnings| == 0 then "}" else ""
    ensures |d.warnings| > 0 ==>
              From(Pieces(Ending(d)), Key("warnings")) == Pieces("[" + Warnings(d.warnings) + "]}")
    ensures |d.warnings| == 0 ==> From(Pieces(Ending(d)), Key("warnings")) == []
  {
    hide Pieces, Warnings;
    var v := Member("valid", Verdict(d));
    if |d.warnings| == 0 {
      assert Ending(d) == Key("valid") + (Verdict(d) + "}");
      FromKey(Key("valid"), Verdict(d) + "}");
      LastPiece(Verdict(d) + "}");
      LastPiece(Ending(d));
      KeyMatches("warnings", "valid", Verdict(d) + "}");
    } else {
      var w := "[" + Warnings(d.warnings) + "]}";
      assert Ending(d) == v + "," + (Key("warnings") + w);
      PieceOf(v, Key("warnings") + w);
      KeyMatches("valid", "valid", Verdict(d));
      KeyMatches("warnings", "valid", Verdict(d));
      FromKey(Key("warnings"), w);
      assert ([v] + Pieces(Key("warnings") + w))[1..] == Pieces(Key("warnings") + w);
    }
  }

  /** A receiver that looks fields up by name gets back every field of the measurement, its
      verdict and its warnings. */
  lemma {:induction false} ReceiverReads(d: SensorData)
    requires forall i :: 0 <= i < |d.warnings| ==> ',' !in d.warnings[i] && '"' !in d.warnings[i]
    ensures var json := ToJson(d);
            && ReadDecimal(Field(json, "device_id")) == d.deviceId
            && ReadDecimal(Field(json, "cmd")) == d.cmd
            && ReadTenths(Field(json, "temperature_c")) == d.temperatureX10
            && ReadTenths(Field(json, "humidity_percent")) == d.humidityX10
            && ReadDecimal(Field(json, "gas_ppm")) == d.gasPpm
            && ReadDecimal(Field(json, "battery_mv")) == d.batteryMv
            && ReadDecimal(Field(json, "status")) == d.status
            && ReadDecimal(Field(json, "sequence")) == d.sequence
            && ReadBool(Field(json, "valid")) == d.valid
            && TextsOf(json, "warnings") == d.warnings
  {
    NumbersReadBack(d);
    EndingReadBack(d);
    hide *;
  }

  lemma {:induction false} NumbersReadBack(d: SensorData)
    ensures var json := ToJson(d);
            && ReadDecimal(Field(json, "device_id")) == d.deviceId
            && ReadDecimal(Field(json, "cmd")) == d.cmd
            && ReadTenths(Field(json, "temperature_c")) == d.temperatureX10
            && ReadTenths(Field(json, "humidity_percent")) == d.humidityX10
            && ReadDecimal(Field(json, "gas_ppm")) == d.gasPpm
            && ReadDecimal(Field(json, "battery_mv")) == d.batteryMv
            && ReadDecimal(Field(json, "status")) == d.status
            && ReadDecimal(Field(json, "sequence")) == d.sequence
  {
    FieldIs(d, 0);
    FieldIs(d, 1);
    FieldIs(d, 2);
    FieldIs(d, 3);
    FieldIs(d, 4);
    FieldIs(d, 5);
    FieldIs(d, 6);
    FieldIs(d, 7);
    DecimalReadBack(d.deviceId);
    DecimalReadBack(d.cmd);
    TenthsReadBack(d.temperatureX10);
    TenthsReadBack(d.humidityX10);
    DecimalReadBack(d.gasPpm);
    DecimalReadBack(d.batteryMv);
    DecimalReadBack(d.status);
    DecimalReadBack(d.sequence);
    hide Field, ReadDecimal, ReadTenths, ToJson, Decimal, Tenths;
  }

  lemma {:induction false} EndingReadBack(d: SensorData)
    requires forall i :: 0 <= i < |d.warnings| ==> ',' !in d.warnings[i] && '"' !in d.warnings[i]
    ensures ReadBool(Field(ToJson(d), "valid")) == d.valid && TextsOf(ToJson(d), "warnings") == d.warnings
  {
    hide Pieces, Decimal, Tenths, Ending, ToJson, Names, Values, From, Warnings, ReadTexts;
    ValuesLength(d);
    NamesPlain();
    JsonPieces(d);
    FromSkips(Names(), Values(d), Pieces(Ending(d)), "valid");
    FromSkips(Names(), Values(d), Pieces(Ending(d)), "warnings");
    EndingPieces(d);
    VerdictRead(d, if |d.warnings| == 0 then "}" else "");
    if |d.warnings| > 0 {
      WarningsReadBack("[", d.warnings, "]}");
    } else {
      NoTexts();
    }
  }

  lemma VerdictRead(d: SensorData, more: string)
    ensures ReadBool(Verdict(d) + more) <==> d.valid
  {
    assert (Verdict(d) + more)[0] == if d.valid then 't' else 'f';
  }

  lemma NoTexts()
    ensures ReadTexts([]) == []
  {}

  /** For the measurements the devices deliver no condition on the warnings is needed. */
  lemma {:induction false} CheckedReadBack(d: SensorData)
    requires Checked(d)
    ensures ReadBool(Field(ToJson(d), "valid")) == d.valid && TextsOf(ToJson(d), "warnings") == d.warnings
  {
    hide Field, TextsOf, ToJson, Checked, ReadBool;
    CheckedWarningsClean(d, ',');
    CheckedWarningsClean(d, '"');
    EndingReadBack(d);
  }
}
