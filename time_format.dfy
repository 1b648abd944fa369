/**
 * The time conversion and formatting of `Timer` (`convert`, `format` and
 * `extend` in rubiks.timer.js): a millisecond count is broken into
 * calendar-style fields, and each configured field is written in decimal,
 * left-padded with '0' to a minimum width and then cut short at the end.
 */
module TimeFormat {
  import opened Wrappers

  /** The fields `convert` returns. */
  datatype Breakdown = Breakdown(ms: nat, sec: nat, min: nat, hour: nat, day: nat)

  const MsPerDay: int := 86400000

  /**
   * `convert`: the fields of the date `timeMs` milliseconds after midnight
   * of day 0, which is a Sunday, so `day` is a day of the week.  Euclidean
   * division matches the date arithmetic for negative counts as well.
   */
  function Convert(timeMs: int): (b: Breakdown)
    ensures b.ms < 1000 && b.sec < 60 && b.min < 60 && b.hour < 24 && b.day < 7
  {
    Breakdown(timeMs % 1000, (timeMs / 1000) % 60, (timeMs / 60000) % 60,
              (timeMs / 3600000) % 24, (timeMs / MsPerDay) % 7)
  }

  /** The time-of-day fields put back together give the count modulo one day; under a day, the count itself. */
  lemma ConvertReconstructs(timeMs: int)
    ensures var b := Convert(timeMs);
      b.ms + 1000 * (b.sec + 60 * (b.min + 60 * b.hour)) == timeMs % MsPerDay
    ensures 0 <= timeMs < MsPerDay ==>
      var b := Convert(timeMs);
      b.ms + 1000 * (b.sec + 60 * (b.min + 60 * b.hour)) == timeMs
  {
    var q1 := timeMs / 1000;
    var q2 := q1 / 60;
    var q3 := q2 / 60;
    assert q2 == timeMs / 60000;
    assert q3 == timeMs / 3600000;
    assert timeMs == 1000 * q1 + timeMs % 1000;
    assert q1 == 60 * q2 + q1 % 60;
    assert q2 == 60 * q3 + q2 % 60;
    assert q3 == 24 * (q3 / 24) + q3 % 24;
    assert q3 / 24 == timeMs / MsPerDay;
  }

  // ---------------------------------------------------------------------
  // Decimal strings

  predicate IsDigit(c: char)
  {
    '0' <= c <= '9'
  }

  predicate AllDigits(s: string)
  {
    forall i :: 0 <= i < |s| ==> IsDigit(s[i])
  }

  function DigitChar(d: nat): (c: char)
    requires d < 10
    ensures IsDigit(c) && c as int - '0' as int == d
  {
    ['0', '1', '2', '3', '4', '5', '6', '7', '8', '9'][d]
  }

  /** `Number.prototype.toString()` on a whole number that is not negative: no sign, no leading zero. */
  function DecimalString(n: nat): (s: string)
    ensures 1 <= |s| && AllDigits(s)
    ensures |s| > 1 ==> s[0] != '0'
  {
    if n < 10 then [DigitChar(n)] else DecimalString(n / 10) + [DigitChar(n % 10)]
  }

  /** The number a string of decimal digits denotes (leading zeros allowed). */
  function DecimalValue(s: string): nat
    requires AllDigits(s)
  {
    if s == [] then 0 else DecimalValue(s[..|s| - 1]) * 10 + (s[|s| - 1] as int - '0' as int)
  }

  /** Reading back the decimal string gives the number. */
  lemma {:induction false} DecimalRoundTrip(n: nat)
    ensures DecimalValue(DecimalString(n)) == n
  {
    if n >= 10 {
      DecimalRoundTrip(n / 10);
      var s := DecimalString(n);
      assert s[..|s| - 1] == DecimalString(n / 10);
    }
  }

  /** A number below 10^k takes at most k digits. */
  lemma {:induction false} DecimalLength(n: nat, k: nat)
    requires 1 <= k && n < Pow10(k)
    ensures |DecimalString(n)| <= k
  {
    if n >= 10 {
      assert k > 1;
      assert n / 10 < Pow10(k - 1);
      DecimalLength(n / 10, k - 1);
    }
  }

  function Pow10(k: nat): (p: nat)
    ensures p >= 1
  {
    if k == 0 then 1 else 10 * Pow10(k - 1)
  }

  // ---------------------------------------------------------------------
  // Padding and truncation

  function Zeros(k: nat): (z: string)
    ensures |z| == k && forall i :: 0 <= i < k ==> z[i] == '0'
  {
    seq(k, _ => '0')
  }

  /** The padding loop's outcome: `s` preceded by enough '0's to reach `digits` characters. */
  function Padded(s: string, digits: int): (r: string)
  {
    if |s| < digits then Zeros(digits - |s|) + s else s
  }

  /** Padding keeps `s` as the tail, adds only '0's in front, and reaches at least `digits` characters. */
  lemma PaddedShape(s: string, digits: int)
    ensures var r := Padded(s, digits);
      && |r| == (if |s| < digits then digits else |s|)
      && r[|r| - |s|..] == s
      && forall i :: 0 <= i < |r| - |s| ==> r[i] == '0'
  {
  }

  /** Leading zeros do not change the number a digit string denotes. */
  lemma {:induction false} ZerosDoNotCount(k: nat, s: string)
    requires AllDigits(s)
    ensures AllDigits(Zeros(k) + s) && DecimalValue(Zeros(k) + s) == DecimalValue(s)
    decreases |s|
  {
    var z := Zeros(k) + s;
    if s == [] {
      assert z == Zeros(k);
      ZerosAreZero(k);
    } else {
      var init := s[..|s| - 1];
      assert z[..|z| - 1] == Zeros(k) + init;
      ZerosDoNotCount(k, init);
    }
  }

  lemma {:induction false} ZerosAreZero(k: nat)
    ensures AllDigits(Zeros(k)) && DecimalValue(Zeros(k)) == 0
  {
    if k > 0 {
      assert Zeros(k)[..k - 1] == Zeros(k - 1);
      ZerosAreZero(k - 1);
    }
  }

  /** Padding a decimal string keeps its value: the padded field still reads as the same number. */
  lemma PaddedValue(n: nat, digits: int)
    ensures AllDigits(Padded(DecimalString(n), digits))
    ensures DecimalValue(Padded(DecimalString(n), digits)) == n
  {
    var s := DecimalString(n);
    DecimalRoundTrip(n);
    if |s| < digits {
      ZerosDoNotCount(digits - |s|, s);
    }
  }

  /**
   * The `while (strValue.length < digits)` loop of `format`: prepends '0'
   * until the string is `digits` characters long.
   */
  method PadLeft(s: string, digits: int) returns (r: string)
    ensures r == Padded(s, digits)
  {
    r := s;
    while |r| < digits
      invariant |s| <= |r|
      invariant r == Zeros(|r| - |s|) + s
      invariant |s| < digits ==> |r| <= digits
      invariant |s| >= digits ==> r == s
      decreases digits - |r|
    {
      r := "0" + r;
    }
  }

  /**
   * `strValue.substr(0, strValue.length - trim)`: the first `|s| - trim`
   * characters; nothing when that is not positive, all of `s` when it
   * exceeds the length.
   */
  function Truncated(s: string, trim: int): (r: string)
    ensures |r| == (if |s| - trim <= 0 then 0 else if trim < 0 then |s| else |s| - trim)
    ensures r == s[..|r|]
  {
    var len := |s| - trim;
    if len <= 0 then "" else if len > |s| then s else s[..len]
  }

  // ---------------------------------------------------------------------
  // Configuration and `format`

  /**
   * One entry of a time format: minimum width, then characters cut from
   * the end.  Either property may be missing from the object (`None`).
   */
  datatype FieldFormat = FieldFormat(digits: Option<int>, trim: Option<int>)

  /** A time format: field name to its entry. */
  type FormatConfig = map<string, FieldFormat>

  /** The default time format of `Timer`'s options. */
  function DefaultTimeFormat(): FormatConfig
  {
    map["ms" := FieldFormat(Some(3), Some(1)), "sec" := FieldFormat(Some(2), Some(0)),
        "min" := FieldFormat(Some(1), Some(0)), "hour" := FieldFormat(Some(1), Some(0)),
        "day" := FieldFormat(Some(1), Some(0))]
  }

  /** The names of the fields `convert` fills in. */
  const FieldNames: set<string> := {"ms", "sec", "min", "hour", "day"}

  /** `time[name]` for one of the field names. */
  function FieldOf(b: Breakdown, name: string): nat
    requires name in FieldNames
  {
    if name == "ms" then b.ms
    else if name == "sec" then b.sec
    else if name == "min" then b.min
    else if name == "hour" then b.hour
    else b.day
  }

  /**
   * `extend(objA, objB)`: copies every entry of `objB` into `objA`, so
   * `objB` wins on shared keys and nothing is merged below the top level.
   */
  method Extend<K, V>(objA: map<K, V>, objB: map<K, V>) returns (r: map<K, V>)
    ensures r.Keys == objA.Keys + objB.Keys
    ensures forall k :: k in objB ==> r[k] == objB[k]
    ensures forall k :: k in objA && k !in objB ==> r[k] == objA[k]
  {
    r := objA;
    var pending := objB.Keys;
    while pending != {}
      invariant pending <= objB.Keys
      invariant r.Keys == objA.Keys + (objB.Keys - pending)
      invariant forall k :: k in objB.Keys - pending ==> r[k] == objB[k]
      invariant forall k :: k in objA && k !in objB.Keys - pending ==> r[k] == objA[k]
      decreases pending
    {
      var k :| k in pending;
      r := r[k := objB[k]];
      pending := pending - {k};
    }
  }

  /** A field of the object `format` returns: a number left as `convert` gave it, or the formatted text. */
  datatype Shown = Number(n: nat) | Text(s: string)

  /**
   * The padding loop under a possibly missing `digits`: `length < undefined`
   * is false, so without `digits` nothing is added.
   */
  function PaddedTo(s: string, digits: Option<int>): string
  {
    if digits.Some? then Padded(s, digits.value) else s
  }

  /**
   * The text `format` writes for a field of value `value` under the entry
   * `f`.  Without `trim`, `length - undefined` is `NaN`, which `substr`
   * reads as a length of 0, so the text is empty.
   */
  function Render(value: nat, f: FieldFormat): string
  {
    if f.trim.Some? then Truncated(PaddedTo(DecimalString(value), f.digits), f.trim.value) else ""
  }

  /** True when the time format names something that is not one of `convert`'s fields. */
  predicate NamesUnknownField(defaults: FormatConfig)
  {
    exists name :: name in defaults && name !in FieldNames
  }

  /**
   * One field of what `format` returns: rendered with the merged entry
   * when the timer's own format names it, the plain number otherwise.
   */
  function ShownField(b: Breakdown, defaults: FormatConfig, override: FormatConfig, name: string): Shown
    requires name in FieldNames
  {
    if name in defaults then Text(Render(FieldOf(b, name), (defaults + override)[name]))
    else Number(FieldOf(b, name))
  }

  /**
   * What `format` returns.  Each field named in `defaults` (the timer's
   * own time format) is rendered with the override's entry when there is
   * one and with the default entry otherwise; other fields stay numbers.
   * A name in `defaults` that is not a field makes the source throw
   * (`undefined.toString()`): `None`.
   */
  function Formatted(timeMs: int, defaults: FormatConfig, override: FormatConfig): Option<map<string, Shown>>
  {
    if NamesUnknownField(defaults) then None
    else Some(map name | name in FieldNames :: ShownField(Convert(timeMs), defaults, override, name))
  }

  /**
   * `format`'s loop: walks the merged configuration, skips names that
   * are not in `defaults`, and replaces each remaining field by its text.
   */
  method FormatTime(timeMs: int, defaults: FormatConfig, override: FormatConfig)
    returns (r: Option<map<string, Shown>>)
    ensures r == Formatted(timeMs, defaults, override)
  {
    var fromDefaults := Extend(map[], defaults);
    var local := Extend(fromDefaults, override);
    assert local == defaults + override;
    var b := Convert(timeMs);
    var time := map name | name in FieldNames :: Number(FieldOf(b, name));
    var pending := local.Keys;
    while pending != {}
      invariant pending <= local.Keys
      invariant forall name :: name in defaults && name !in pending ==> name in FieldNames
      invariant time.Keys == FieldNames
      invariant forall name :: name in FieldNames ==>
        time[name] == if name in pending then Number(FieldOf(b, name)) else ShownField(b, defaults, override, name)
      decreases pending
    {
      var name :| name in pending;
      pending := pending - {name};
      if name in defaults {
        if name !in FieldNames {
          return None;
        }
        var localFormat := local[name];
        var strValue := DecimalString(FieldOf(b, name));
        if localFormat.digits.Some? {
          strValue := PadLeft(strValue, localFormat.digits.value);
        }
        var shown := if localFormat.trim.Some? then Truncated(strValue, localFormat.trim.value) else "";
        time := time[name := Text(shown)];
      }
    }
    assert !NamesUnknownField(defaults);
    assert time == map name | name in FieldNames :: ShownField(b, defaults, override, name);
    return Some(time);
  }

  // ---------------------------------------------------------------------
  // Properties of `format`

  /** Override keys that the timer's own format does not name change nothing. */
  lemma UnknownOverrideKeysIgnored(timeMs: int, defaults: FormatConfig, override: FormatConfig)
    ensures Formatted(timeMs, defaults, override) ==
            Formatted(timeMs, defaults, map name | name in override && name in defaults :: override[name])
  {
    var known := map name | name in override && name in defaults :: override[name];
    var b := Convert(timeMs);
    forall name | name in FieldNames
      ensures ShownField(b, defaults, override, name) == ShownField(b, defaults, known, name)
    {
      if name in defaults {
        assert (defaults + override)[name] == (defaults + known)[name];
      }
    }
    if !NamesUnknownField(defaults) {
      var m1 := map name | name in FieldNames :: ShownField(b, defaults, override, name);
      var m2 := map name | name in FieldNames :: ShownField(b, defaults, known, name);
      assert m1 == m2;
    }
  }

  /**
   * An override entry replaces its field's default entry whole: a property
   * the override leaves out is not taken from the default.  Without `trim`
   * the field is empty; without `digits` it is not padded.
   */
  lemma OverrideReplacesEntry(timeMs: int, defaults: FormatConfig, override: FormatConfig, name: string)
    requires defaults.Keys <= FieldNames && name in defaults && name in override
    ensures Formatted(timeMs, defaults, override).Some?
    ensures Formatted(timeMs, defaults, override).value[name] ==
            Text(Render(FieldOf(Convert(timeMs), name), override[name]))
    ensures override[name].trim.None? ==> Formatted(timeMs, defaults, override).value[name] == Text("")
    ensures override[name] == FieldFormat(None, Some(0)) ==>
            Formatted(timeMs, defaults, override).value[name] == Text(DecimalString(FieldOf(Convert(timeMs), name)))
  {
    var t := Formatted(timeMs, defaults, override).value;
    assert t[name] == ShownField(Convert(timeMs), defaults, override, name);
  }

  /**
   * `format(5, {ms: {digits: 4}})` writes "" for ms: the default's
   * `trim: 1` is not merged into the override, which would give "000".
   */
  lemma PartialOverrideExample()
    ensures Formatted(5, DefaultTimeFormat(), map["ms" := FieldFormat(Some(4), None)]).Some?
    ensures Formatted(5, DefaultTimeFormat(), map["ms" := FieldFormat(Some(4), None)]).value["ms"] == Text("")
    ensures Render(5, FieldFormat(Some(4), Some(1))) == "000"
  {
    DefaultFormatEntries();
    var b := Convert(5);
    assert FieldOf(b, "ms") == 5;
    var t := Formatted(5, DefaultTimeFormat(), map["ms" := FieldFormat(Some(4), None)]).value;
    assert t["ms"] == ShownField(b, DefaultTimeFormat(), map["ms" := FieldFormat(Some(4), None)], "ms");
    assert DecimalString(5) == "5";
    assert Padded("5", 4) == "0005";
  }

  /** Cutting at least as many characters as the padded text has leaves the empty string. */
  lemma OverTrimIsEmpty(value: nat, f: FieldFormat)
    requires f.trim.Some? && f.trim.value >= |PaddedTo(DecimalString(value), f.digits)|
    ensures Render(value, f) == ""
  {
  }

  /** Dropping the last digit of a digit string divides its value by ten, rounding down. */
  lemma DropLastDigit(s: string)
    requires AllDigits(s) && s != []
    ensures DecimalValue(s[..|s| - 1]) == DecimalValue(s) / 10
  {
  }

  /**
   * With the default entry for `ms` (3 digits, trim 1) the text is always
   * two characters and reads as tenths and hundredths, cut and not rounded.
   */
  lemma DefaultMsField(ms: nat)
    requires ms < 1000
    ensures |Render(ms, FieldFormat(Some(3), Some(1)))| == 2
    ensures AllDigits(Render(ms, FieldFormat(Some(3), Some(1))))
    ensures DecimalValue(Render(ms, FieldFormat(Some(3), Some(1)))) == ms / 10
  {
    assert Pow10(3) == 1000;
    DecimalLength(ms, 3);
    PaddedValue(ms, 3);
    var p := Padded(DecimalString(ms), 3);
    assert Render(ms, FieldFormat(Some(3), Some(1))) == p[..2];
    DropLastDigit(p);
  }

  /** With the default entry for `sec` (2 digits, no trim) the text is always two characters and reads as the seconds. */
  lemma DefaultSecField(sec: nat)
    requires sec < 60
    ensures |Render(sec, FieldFormat(Some(2), Some(0)))| == 2
    ensures AllDigits(Render(sec, FieldFormat(Some(2), Some(0))))
    ensures DecimalValue(Render(sec, FieldFormat(Some(2), Some(0)))) == sec
  {
    assert Pow10(2) == 100;
    DecimalLength(sec, 2);
    PaddedValue(sec, 2);
  }

  /** The default format names exactly the five fields, with the widths and trims of rubiks.timer.js. */
  lemma DefaultFormatEntries()
    ensures DefaultTimeFormat().Keys == FieldNames
    ensures !NamesUnknownField(DefaultTimeFormat())
    ensures DefaultTimeFormat() + map[] == DefaultTimeFormat()
    ensures DefaultTimeFormat()["ms"] == FieldFormat(Some(3), Some(1))
    ensures DefaultTimeFormat()["sec"] == FieldFormat(Some(2), Some(0))
    ensures DefaultTimeFormat()["min"] == FieldFormat(Some(1), Some(0))
    ensures DefaultTimeFormat()["hour"] == FieldFormat(Some(1), Some(0))
    ensures DefaultTimeFormat()["day"] == FieldFormat(Some(1), Some(0))
  {
  }

  /** With the default format and no override, every field is rendered with its default entry. */
  lemma DefaultShownField(b: Breakdown, name: string)
    requires name in FieldNames
    ensures ShownField(b, DefaultTimeFormat(), map[], name) ==
            Text(Render(FieldOf(b, name), DefaultTimeFormat()[name]))
  {
    DefaultFormatEntries();
  }

  /** Under the default format, with no override, every field is text; `ms` and `sec` are two characters each. */
  lemma DefaultFormatWidths(timeMs: int)
    ensures Formatted(timeMs, DefaultTimeFormat(), map[]).Some?
    ensures var t := Formatted(timeMs, DefaultTimeFormat(), map[]).value;
      && t.Keys == FieldNames
      && (forall name :: name in t ==> t[name].Text?)
      && |t["ms"].s| == 2 && |t["sec"].s| == 2
  {
    var b := Convert(timeMs);
    DefaultFormatEntries();
    forall name | name in FieldNames
      ensures ShownField(b, DefaultTimeFormat(), map[], name).Text?
    {
      DefaultShownField(b, name);
    }
    DefaultShownField(b, "ms");
    DefaultShownField(b, "sec");
    assert FieldOf(b, "ms") == b.ms && FieldOf(b, "sec") == b.sec;
    DefaultMsField(b.ms);
    DefaultSecField(b.sec);
  }

  lemma RenderExamples()
    ensures Render(234, FieldFormat(Some(3), Some(1))) == "23"
    ensures Render(1, FieldFormat(Some(2), Some(0))) == "01"
    ensures Render(1, FieldFormat(Some(1), Some(0))) == "1"
    ensures Render(0, FieldFormat(Some(1), Some(0))) == "0"
  {
    assert DecimalString(23) == "23";
    assert DecimalString(234) == "234";
    assert Padded("234", 3) == "234";
    assert Padded("1", 2) == "01";
  }

  /** The fields of 61234 ms under the default format. */
  lemma ExampleFields(name: string)
    requires name in FieldNames
    ensures ShownField(Convert(61234), DefaultTimeFormat(), map[], name) ==
      if name == "ms" then Text("23") else if name == "sec" then Text("01")
      else if name == "min" then Text("1") else Text("0")
  {
    var b := Convert(61234);
    assert b == Breakdown(234, 1, 1, 0, 0);
    RenderExamples();
    DefaultFormatEntries();
    DefaultShownField(b, name);
  }

  /** 61234 ms under the default format: "23" for ms, "01" for sec, "1" for min, "0" for hour and day. */
  lemma FormatExample()
    ensures Formatted(61234, DefaultTimeFormat(), map[]).Some?
    ensures var t := Formatted(61234, DefaultTimeFormat(), map[]).value;
      && t.Keys == FieldNames
      && t["ms"] == Text("23") && t["sec"] == Text("01") && t["min"] == Text("1")
      && t["hour"] == Text("0") && t["day"] == Text("0")
  {
    DefaultFormatEntries();
    ExampleFields("ms");
    ExampleFields("sec");
    ExampleFields("min");
    ExampleFields("hour");
    ExampleFields("day");
  }
}
