/** The log-line parser of src/lib/gpsParser.ts: which lines of a GPS log become
    records, the degrees-and-minutes conversion and the date-field guards.
    `parseFloat`, `parseInt` and the `Date` constructor are parameters: a parse
    that gives NaN (or an infinite number, which the conversion turns into NaN)
    is `None`, and `makeDate` gives the epoch milliseconds of a local date and
    time, or `None` for an invalid date. */
module GpsParser {
  import opened Wrappers
  import opened Types
  import opened JsStrings
  import JsMath

  /** `parseFloat`: the finite number a field starts with, if any. */
  type ParseFloat = string -> Option<real>
  /** `parseInt` */
  type ParseInt = string -> Option<int>
  /** `new Date(year, month, day, hour, minute, second).getTime()`. */
  type MakeDate = (int, int, int, int, int, int) -> Option<int>

  // ---------------------------------------------------------------------------
  // Field conversions

  /** `convertDDMMToDecimal`: `floor(v / 100)` degrees plus `v % 100` minutes,
      negated for the southern and western hemispheres; `None` stands for NaN. */
  function DdmmToDecimal(ddmmStr: string, direction: string, parseFloat: ParseFloat): Option<real> {
    match parseFloat(ddmmStr)
    case None => None
    case Some(ddmm) =>
      var degrees := JsMath.Floor(ddmm / 100.0);
      var minutes := JsMath.Rem(ddmm, 100.0);
      var decimal := degrees as real + minutes / 60.0;
      Some(if direction == "S" || direction == "W" then -decimal else decimal)
  }

  /** For a non-negative field the result is whole degrees plus a minutes part
      in [0, 100) divided by 60, with the sign set by the hemisphere letter. */
  lemma DdmmOfNonNegative(ddmmStr: string, direction: string, parseFloat: ParseFloat)
    requires parseFloat(ddmmStr).Some? && parseFloat(ddmmStr).value >= 0.0
    ensures var v := parseFloat(ddmmStr).value;
      var degrees := (v / 100.0).Floor;
      var minutes := v - degrees as real * 100.0;
      var magnitude := degrees as real + minutes / 60.0;
      && 0 <= degrees && 0.0 <= minutes < 100.0
      && DdmmToDecimal(ddmmStr, direction, parseFloat)
         == Some(if direction == "S" || direction == "W" then -magnitude else magnitude)
  {
    var v := parseFloat(ddmmStr).value;
    JsMath.RemOfNonNegative(v, 100.0);
    JsMath.RemHundredBounds(v);
  }

  /** An unparseable field gives NaN. */
  lemma DdmmOfUnparseable(ddmmStr: string, direction: string, parseFloat: ParseFloat)
    requires parseFloat(ddmmStr).None?
    ensures DdmmToDecimal(ddmmStr, direction, parseFloat).None?
  {
  }

  /** `parseDateTime`: both fields must be exactly six characters, DDMMYY and
      HHMMSS; the year is 2000 + YY and the month is passed 0-based. A NaN field
      makes the date invalid. */
  function ParseDateTime(dateStr: string, timeStr: string, parseInt: ParseInt, makeDate: MakeDate): (r: Option<int>)
    ensures |dateStr| != 6 || |timeStr| != 6 ==> r.None?
  {
    if |dateStr| != 6 || |timeStr| != 6 then None
    else
      var day := parseInt(dateStr[0..2]);
      var month := parseInt(dateStr[2..4]);
      var year := parseInt(dateStr[4..6]);
      var hour := parseInt(timeStr[0..2]);
      var minute := parseInt(timeStr[2..4]);
      var second := parseInt(timeStr[4..6]);
      if day.None? || month.None? || year.None? || hour.None? || minute.None? || second.None? then None
      else makeDate(2000 + year.value, month.value - 1, day.value, hour.value, minute.value, second.value)
  }

  /** With six-character fields whose parts parse, the date is built from year
      2000 + YY and the 0-based month MM - 1. */
  lemma DateFields(dateStr: string, timeStr: string, parseInt: ParseInt, makeDate: MakeDate,
                   dd: int, mm: int, yy: int, hh: int, mi: int, ss: int)
    requires |dateStr| == 6 && |timeStr| == 6
    requires parseInt(dateStr[0..2]) == Some(dd) && parseInt(dateStr[2..4]) == Some(mm)
    requires parseInt(dateStr[4..6]) == Some(yy)
    requires parseInt(timeStr[0..2]) == Some(hh) && parseInt(timeStr[2..4]) == Some(mi)
    requires parseInt(timeStr[4..6]) == Some(ss)
    ensures ParseDateTime(dateStr, timeStr, parseInt, makeDate) == makeDate(2000 + yy, mm - 1, dd, hh, mi, ss)
  {
  }

  /** `parseFloat(field) || 0` on a field that may be absent (a destructured
      element past the end of the array): NaN and 0 both give 0. */
  function NumberOrZero(parts: seq<string>, i: nat, parseFloat: ParseFloat): real {
    if i < |parts| then parseFloat(parts[i]).GetOr(0.0) else 0.0
  }

  // ---------------------------------------------------------------------------
  // One line

  /** `line.replace(/;$/, '')`: one trailing semicolon removed. */
  function StripSemicolon(line: string): (r: string)
    ensures line != [] && line[|line| - 1] == ';' ==> r + [';'] == line
    ensures (line == [] || line[|line| - 1] != ';') ==> r == line
  {
    if line != [] && line[|line| - 1] == ';' then line[..|line| - 1] else line
  }

  /** The record a line gives, or `None` when the loop skips it. */
  function ParseLine(line: string, parseFloat: ParseFloat, parseInt: ParseInt, makeDate: MakeDate): Option<GpsDataPoint> {
    if Trim(line) == "" then None
    else
      var parts := Split(StripSemicolon(line), ',');
      if |parts| < 9 then None
      else if parts[0] != "A" then None
      else
        var latitude := DdmmToDecimal(parts[3], parts[4], parseFloat);
        var longitude := DdmmToDecimal(parts[5], parts[6], parseFloat);
        var timestamp := ParseDateTime(parts[1], parts[2], parseInt, makeDate);
        if timestamp.None? || latitude.None? || longitude.None? then None
        else Some(GpsDataPoint(parts[0], parts[1], parts[2], latitude.value, longitude.value,
          NumberOrZero(parts, 7, parseFloat),
          Acceleration(NumberOrZero(parts, 8, parseFloat), NumberOrZero(parts, 9, parseFloat), NumberOrZero(parts, 10, parseFloat)),
          timestamp.value))
  }

  /** `v` is what an optional numeric field should give: the parsed number
      when field `i` exists and parses, 0 when it is absent or does not parse. */
  ghost predicate ReadsField(parts: seq<string>, i: nat, parseFloat: ParseFloat, v: real) {
    && (i < |parts| && parseFloat(parts[i]).Some? ==> v == parseFloat(parts[i]).value)
    && (i >= |parts| || parseFloat(parts[i]).None? ==> v == 0.0)
  }

  /** A line gives a record exactly when it is not blank, has at least nine
      comma-separated fields after the trailing semicolon is removed, its first
      field is `A`, both coordinates convert and the date fields give a valid
      date; the record then holds those fields, and the speed and the three
      accelerations are the parsed numbers of fields 7 to 10, or 0 where a
      field is absent or does not parse. */
  lemma ParseLineSpec(line: string, parseFloat: ParseFloat, parseInt: ParseInt, makeDate: MakeDate)
    ensures var r := ParseLine(line, parseFloat, parseInt, makeDate);
      var parts := Split(StripSemicolon(line), ',');
      && (r.Some? <==>
            && Trim(line) != ""
            && |parts| >= 9
            && parts[0] == "A"
            && DdmmToDecimal(parts[3], parts[4], parseFloat).Some?
            && DdmmToDecimal(parts[5], parts[6], parseFloat).Some?
            && ParseDateTime(parts[1], parts[2], parseInt, makeDate).Some?)
      && (r.Some? ==>
            && r.value.valid == "A"
            && r.value.date == parts[1] && r.value.time == parts[2]
            && Some(r.value.latitude) == DdmmToDecimal(parts[3], parts[4], parseFloat)
            && Some(r.value.longitude) == DdmmToDecimal(parts[5], parts[6], parseFloat)
            && Some(r.value.timestamp) == ParseDateTime(parts[1], parts[2], parseInt, makeDate)
            && ReadsField(parts, 7, parseFloat, r.value.speed)
            && ReadsField(parts, 8, parseFloat, r.value.acceleration.x)
            && ReadsField(parts, 9, parseFloat, r.value.acceleration.y)
            && ReadsField(parts, 10, parseFloat, r.value.acceleration.z))
  {
  }

  // ---------------------------------------------------------------------------
  // The whole log

  /** `content.trim().split('\n')` */
  function Lines(content: string): seq<string> {
    Split(Trim(content), '\n')
  }

  /** The results of `f` on the elements it accepts, in order. */
  function FilterMap<T, U>(xs: seq<T>, f: T -> Option<U>): (r: seq<U>)
    ensures |r| <= |xs|
  {
    if xs == [] then []
    else
      var init := FilterMap(xs[..|xs| - 1], f);
      match f(xs[|xs| - 1])
      case None => init
      case Some(y) => init + [y]
  }

  /** The indices of the elements `f` accepts, in order. */
  function Accepted<T, U>(xs: seq<T>, f: T -> Option<U>): (r: seq<nat>)
    ensures forall k :: 0 <= k < |r| ==> r[k] < |xs|
  {
    if xs == [] then []
    else
      var init := Accepted(xs[..|xs| - 1], f);
      if f(xs[|xs| - 1]).Some? then init + [|xs| - 1] else init
  }

  /** The accepted indices strictly increase, and an index is accepted exactly
      when `f` gives a result there. */
  lemma {:induction false} AcceptedSpec<T, U>(xs: seq<T>, f: T -> Option<U>)
    ensures var idx := Accepted(xs, f);
      && (forall k, l :: 0 <= k < l < |idx| ==> idx[k] < idx[l])
      && (forall i :: 0 <= i < |xs| ==> (i in idx <==> f(xs[i]).Some?))
    decreases |xs|
  {
    if xs != [] {
      var n := |xs| - 1;
      var init := xs[..n];
      AcceptedSpec(init, f);
      forall i | 0 <= i < n ensures xs[i] == init[i] {}
    }
  }

  /** The k-th result is `f` of the k-th accepted element. */
  lemma {:induction false} FilterMapAt<T, U>(xs: seq<T>, f: T -> Option<U>)
    ensures var r := FilterMap(xs, f);
      var idx := Accepted(xs, f);
      && |r| == |idx|
      && (forall k :: 0 <= k < |r| ==> f(xs[idx[k]]) == Some(r[k]))
    decreases |xs|
  {
    if xs != [] {
      var n := |xs| - 1;
      var init := xs[..n];
      FilterMapAt(init, f);
      forall i | 0 <= i < n ensures xs[i] == init[i] {}
    }
  }

  /** The line parser with its parameters fixed. */
  function LineParser(parseFloat: ParseFloat, parseInt: ParseInt, makeDate: MakeDate): string -> Option<GpsDataPoint> {
    line => ParseLine(line, parseFloat, parseInt, makeDate)
  }

  /** The records of the lines that parse, in line order. */
  function ParseLines(lines: seq<string>, parseFloat: ParseFloat, parseInt: ParseInt, makeDate: MakeDate): seq<GpsDataPoint> {
    FilterMap(lines, LineParser(parseFloat, parseInt, makeDate))
  }

  /** The output holds the records of exactly the lines that parse, in line
      order: the accepted line indices strictly increase, a line is accepted
      iff it gives a record, and the k-th record is the k-th accepted line's. */
  lemma ParseLinesOrder(lines: seq<string>, parseFloat: ParseFloat, parseInt: ParseInt, makeDate: MakeDate)
    ensures var r := ParseLines(lines, parseFloat, parseInt, makeDate);
      var idx := Accepted(lines, LineParser(parseFloat, parseInt, makeDate));
      && |r| == |idx| <= |lines|
      && (forall k, l :: 0 <= k < l < |idx| ==> idx[k] < idx[l])
      && (forall i :: 0 <= i < |lines| ==> (i in idx <==> ParseLine(lines[i], parseFloat, parseInt, makeDate).Some?))
      && (forall k :: 0 <= k < |r| ==> ParseLine(lines[idx[k]], parseFloat, parseInt, makeDate) == Some(r[k]))
  {
    var f := LineParser(parseFloat, parseInt, makeDate);
    AcceptedSpec(lines, f);
    FilterMapAt(lines, f);
  }

  /** Every record the parser outputs has `valid = "A"`. */
  lemma AllValid(lines: seq<string>, parseFloat: ParseFloat, parseInt: ParseInt, makeDate: MakeDate)
    ensures var r := ParseLines(lines, parseFloat, parseInt, makeDate);
      forall k :: 0 <= k < |r| ==> r[k].valid == "A"
  {
    var r := ParseLines(lines, parseFloat, parseInt, makeDate);
    var idx := Accepted(lines, LineParser(parseFloat, parseInt, makeDate));
    ParseLinesOrder(lines, parseFloat, parseInt, makeDate);
    forall k | 0 <= k < |r| ensures r[k].valid == "A" {
      ParseLineSpec(lines[idx[k]], parseFloat, parseInt, makeDate);
    }
  }

  /** `parseGPSData`: the loop over the trimmed content's lines, pushing the
      record of each line that parses. */
  method ParseGpsData(content: string, parseFloat: ParseFloat, parseInt: ParseInt, makeDate: MakeDate)
    returns (parsedData: seq<GpsDataPoint>)
    ensures parsedData == ParseLines(Lines(content), parseFloat, parseInt, makeDate)
    ensures |parsedData| <= |Lines(content)|
  {
    var lines := Lines(content);
    parsedData := [];
    for i := 0 to |lines|
      invariant parsedData == ParseLines(lines[..i], parseFloat, parseInt, makeDate)
    {
      assert lines[..i + 1][..i] == lines[..i];
      var line := lines[i];
      if Trim(line) == "" {
        continue;
      }
      var cleanLine := StripSemicolon(line);
      var parts := Split(cleanLine, ',');
      if |parts| < 9 {
        continue;
      }
      if parts[0] != "A" {
        continue;
      }
      var latitude := DdmmToDecimal(parts[3], parts[4], parseFloat);
      var longitude := DdmmToDecimal(parts[5], parts[6], parseFloat);
      var timestamp := ParseDateTime(parts[1], parts[2], parseInt, makeDate);
      if timestamp.None? || latitude.None? || longitude.None? {
        continue;
      }
      parsedData := parsedData + [GpsDataPoint(parts[0], parts[1], parts[2], latitude.value, longitude.value,
        NumberOrZero(parts, 7, parseFloat),
        Acceleration(NumberOrZero(parts, 8, parseFloat), NumberOrZero(parts, 9, parseFloat), NumberOrZero(parts, 10, parseFloat)),
        timestamp.value)];
    }
    assert lines[..|lines|] == lines;
  }
}
