/** The data-shaping helpers of the measurement endpoint: capitalised CSV
    field names and the per-measurement row projection, GPS time of a
    measurement and the growth of the navigation-file path set, and the set
    of constellation letters present in a batch. Measurements are JSON
    objects; the file, CSV and subprocess work around them is not modelled. */
module Server {
  import opened Wrappers

  /** A JSON scalar as the request decoder yields it. */
  datatype Json = Null | Num(x: real) | Str(s: string) | Flag(b: bool)

  type Measurement = map<string, Json>

  /** `str.upper` on one character, for the ASCII letters. */
  function Upper(c: char): char {
    if 'a' <= c <= 'z' then (c as int - 32) as char else c
  }

  predicate IsLower(c: char) { 'a' <= c <= 'z' }

  /** `convert`: the first character upper-cased, the rest unchanged. */
  function Convert(s: string): (r: string)
    requires s != []
    ensures |r| == |s| && r[0] == Upper(s[0]) && r[1..] == s[1..]
    ensures !IsLower(r[0])
  {
    [Upper(s[0])] + s[1..]
  }

  /** Converting twice is converting once. */
  lemma ConvertIdempotent(s: string)
    requires s != []
    ensures Convert(Convert(s)) == Convert(s)
  {
  }

  /** On names starting with a lower-case letter, `convert` loses nothing. */
  lemma ConvertInjective(a: string, b: string)
    requires a != [] && b != [] && IsLower(a[0]) && IsLower(b[0])
    ensures Convert(a) == Convert(b) <==> a == b
  {
    if Convert(a) == Convert(b) {
      assert Convert(a)[0] == Convert(b)[0];
      assert a == [a[0]] + Convert(a)[1..];
      assert b == [b[0]] + Convert(b)[1..];
    }
  }

  const RAW: string := "Raw"

  /** The Android raw-measurement fields forwarded to the RINEX converter
      ('svid' appears twice, as in the source). */
  const FIELDS: seq<string> := [
    "svid", "codeType", "timeNanos", "biasNanos", "constellationType", "svid",
    "accumulatedDeltaRangeState", "receivedSvTimeNanos", "pseudorangeRateUncertaintyMetersPerSecond",
    "accumulatedDeltaRangeMeters", "accumulatedDeltaRangeUncertaintyMeters", "carrierFrequencyHz",
    "receivedSvTimeUncertaintyNanos", "cn0DbHz", "fullBiasNanos", "multipathIndicator", "timeOffsetNanos",
    "state", "pseudorangeRateMetersPerSecond"]

  predicate NonEmptyNames(fields: seq<string>) {
    forall i | 0 <= i < |fields| :: fields[i] != []
  }

  /** `converted_fields`: the CSV header, 'Raw' then every field converted. */
  function ConvertedFields(fields: seq<string>): (names: seq<string>)
    requires NonEmptyNames(fields)
    ensures |names| == 1 + |fields| && names[0] == RAW
    ensures forall i | 0 <= i < |fields| :: names[i + 1] == Convert(fields[i])
  {
    if fields == [] then [RAW]
    else
      var init := ConvertedFields(fields[..|fields| - 1]);
      init + [Convert(fields[|fields| - 1])]
  }

  /** `measurement.get(key, None)`, JSON null standing for None. */
  function Get(m: Measurement, key: string): Json {
    if key in m then m[key] else Null
  }

  /** No two different fields convert to the same column name. */
  predicate Unambiguous(fields: seq<string>)
    requires NonEmptyNames(fields)
  {
    forall i, j | 0 <= i < |fields| && 0 <= j < |fields| :: Convert(fields[i]) == Convert(fields[j]) ==> fields[i] == fields[j]
  }

  /** The dict comprehension `{convert(key): measurement.get(key, None) for key in fields}`
      (a later key overwrites an earlier one with the same converted name). */
  function Comprehend(m: Measurement, fields: seq<string>): (row: map<string, Json>)
    requires NonEmptyNames(fields)
    ensures row.Keys == set i | 0 <= i < |fields| :: Convert(fields[i])
  {
    if fields == [] then map[]
    else
      var init := fields[..|fields| - 1];
      var last := fields[|fields| - 1];
      var row := Comprehend(m, init);
      assert forall i | 0 <= i < |init| :: init[i] == fields[i];
      assert (set i | 0 <= i < |fields| :: Convert(fields[i])) ==
             (set i | 0 <= i < |init| :: Convert(init[i])) + {Convert(last)};
      row[Convert(last) := Get(m, last)]
  }

  /** When no two different fields share a column, each column of the
      comprehension holds its field's value, or null when absent. */
  lemma {:induction false} ComprehendValues(m: Measurement, fields: seq<string>)
    requires NonEmptyNames(fields) && Unambiguous(fields)
    ensures forall i | 0 <= i < |fields| :: Comprehend(m, fields)[Convert(fields[i])] == Get(m, fields[i])
  {
    if fields != [] {
      var init := fields[..|fields| - 1];
      var last := fields[|fields| - 1];
      assert forall i | 0 <= i < |init| :: init[i] == fields[i];
      forall i, j | 0 <= i < |init| && 0 <= j < |init|
        ensures Convert(init[i]) == Convert(init[j]) ==> init[i] == init[j]
      {
        assert init[i] == fields[i] && init[j] == fields[j];
      }
      ComprehendValues(m, init);
      forall i | 0 <= i < |fields|
        ensures Comprehend(m, fields)[Convert(fields[i])] == Get(m, fields[i])
      {
        if Convert(fields[i]) == Convert(last) {
          assert fields[i] == last;
        }
      }
    }
  }

  /** `filtered_measurement`: the projected CSV row of one measurement. */
  function FilteredMeasurement(m: Measurement, fields: seq<string>): (row: map<string, Json>)
    requires NonEmptyNames(fields)
    ensures row.Keys == {RAW} + set i | 0 <= i < |fields| :: Convert(fields[i])
    ensures row[RAW] == Str(RAW)
    ensures Unambiguous(fields) ==>
      forall i | 0 <= i < |fields| && Convert(fields[i]) != RAW :: row[Convert(fields[i])] == Get(m, fields[i])
  {
    var row := Comprehend(m, fields);
    assert Unambiguous(fields) ==> forall i | 0 <= i < |fields| :: row[Convert(fields[i])] == Get(m, fields[i]) by {
      if Unambiguous(fields) {
        ComprehendValues(m, fields);
      }
    }
    row[RAW := Str(RAW)]
  }

  /** The forwarded fields: none is empty, none converts to 'Raw', and no two
      differ yet share a column. */
  lemma FieldsWellFormed()
    ensures NonEmptyNames(FIELDS)
    ensures Unambiguous(FIELDS)
    ensures forall i | 0 <= i < |FIELDS| :: Convert(FIELDS[i]) != RAW
  {
    assert forall i | 0 <= i < |FIELDS| :: |FIELDS[i]| > 3 && IsLower(FIELDS[i][0]);
    forall i, j | 0 <= i < |FIELDS| && 0 <= j < |FIELDS|
      ensures Convert(FIELDS[i]) == Convert(FIELDS[j]) ==> FIELDS[i] == FIELDS[j]
    {
      ConvertInjective(FIELDS[i], FIELDS[j]);
    }
  }

  /** Each projected row maps 'Raw' to 'Raw', every forwarded field's column
      to the measurement's value (null when absent), and nothing else. */
  lemma FilteredMeasurementRow(m: Measurement)
    ensures NonEmptyNames(FIELDS)
    ensures FilteredMeasurement(m, FIELDS).Keys == {RAW} + set i | 0 <= i < |FIELDS| :: Convert(FIELDS[i])
    ensures FilteredMeasurement(m, FIELDS)[RAW] == Str(RAW)
    ensures forall i | 0 <= i < |FIELDS| :: FilteredMeasurement(m, FIELDS)[Convert(FIELDS[i])] == Get(m, FIELDS[i])
  {
    FieldsWellFormed();
  }

  /** Python arithmetic on a JSON scalar: numbers, and booleans as 0 and 1. */
  function NumberOf(j: Json): Option<real> {
    match j
    case Num(x) => Some(x)
    case Flag(b) => Some(if b then 1.0 else 0.0)
    case _ => None
  }

  const NANOS_PER_MILLI: real := 1_000_000.0

  /** Half the width of the navigation-file search window: six hours in
      milliseconds (it covers GLONASS's three-hour-plus-leap-seconds shift). */
  const SIX_HOURS_MS: real := (6 * 60 * 60 * 1000) as real

  /** `gps_millis` of a measurement: timeNanos - (fullBiasNanos - biasNanos),
      in milliseconds; KeyError for a missing field, TypeError for a
      non-numeric one. */
  function GpsMillis(m: Measurement): (r: Result<real>)
    ensures r.Success? <==>
      && "timeNanos" in m && "fullBiasNanos" in m && "biasNanos" in m
      && NumberOf(m["timeNanos"]).Some? && NumberOf(m["fullBiasNanos"]).Some? && NumberOf(m["biasNanos"]).Some?
    ensures r.Success? ==>
      r.value * NANOS_PER_MILLI ==
        NumberOf(m["timeNanos"]).value - (NumberOf(m["fullBiasNanos"]).value - NumberOf(m["biasNanos"]).value)
    ensures r.Failure? ==>
      r.error == if "timeNanos" in m && "fullBiasNanos" in m && "biasNanos" in m then TypeError else KeyError
  {
    if "timeNanos" !in m || "fullBiasNanos" !in m || "biasNanos" !in m then Failure(KeyError)
    else
      var t, fb, b := NumberOf(m["timeNanos"]), NumberOf(m["fullBiasNanos"]), NumberOf(m["biasNanos"]);
      if t.None? || fb.None? || b.None? then Failure(TypeError)
      else Success((t.value - (fb.value - b.value)) / NANOS_PER_MILLI)
  }

  /** The navigation-file locator (`load_ephemeris`), which may download:
      the file paths it returns for an instant in GPS milliseconds, given the
      paths already known. */
  type Locator = (real, set<string>) -> set<string>

  /** One pass of the loop body for a measurement at GPS time g: the files
      the locator returns for g - 21,600,000 ms are added, and then, the
      locator asked with the set so extended, those for g + 21,600,000 ms. */
  function Visit(paths: set<string>, g: real, locate: Locator): set<string> {
    var before := paths + locate(g - SIX_HOURS_MS, paths);
    before + locate(g + SIX_HOURS_MS, before)
  }

  /** The path set after the measurement loop: per measurement, the files
      for six hours before and six hours after are added. */
  function Explore(paths: set<string>, ms: seq<Measurement>, locate: Locator): Result<set<string>>
    decreases |ms|
  {
    if ms == [] then Success(paths)
    else
      match GpsMillis(ms[0])
      case Failure(e) => Failure(e)
      case Success(g) => Explore(Visit(paths, g, locate), ms[1..], locate)
  }

  /** The path set only grows: every initially known path is in the result. */
  lemma {:induction false} ExploreGrows(paths: set<string>, ms: seq<Measurement>, locate: Locator)
    ensures Explore(paths, ms, locate).Success? ==> paths <= Explore(paths, ms, locate).value
    decreases |ms|
  {
    if ms != [] && GpsMillis(ms[0]).Success? {
      ExploreGrows(Visit(paths, GpsMillis(ms[0]).value, locate), ms[1..], locate);
    }
  }

  /** The loop fails exactly when some measurement lacks usable clock fields. */
  lemma {:induction false} ExploreSucceeds(paths: set<string>, ms: seq<Measurement>, locate: Locator)
    ensures Explore(paths, ms, locate).Success? <==> forall i | 0 <= i < |ms| :: GpsMillis(ms[i]).Success?
    decreases |ms|
  {
    if ms != [] && GpsMillis(ms[0]).Success? {
      ExploreSucceeds(Visit(paths, GpsMillis(ms[0]).value, locate), ms[1..], locate);
      assert forall i | 1 <= i < |ms| :: ms[i] == ms[1..][i - 1];
    }
  }

  /** The search from measurement i on: it fails with measurement i's error
      when its clock fields are unusable, and otherwise visits its GPS time
      and goes on with measurement i + 1. */
  lemma ExploreStep(paths: set<string>, ms: seq<Measurement>, i: nat, locate: Locator)
    requires i < |ms|
    ensures GpsMillis(ms[i]).Failure? ==> Explore(paths, ms[i..], locate) == Failure(GpsMillis(ms[i]).error)
    ensures GpsMillis(ms[i]).Success? ==>
      Explore(paths, ms[i..], locate) == Explore(Visit(paths, GpsMillis(ms[i]).value, locate), ms[i + 1..], locate)
  {
    assert ms[i..][0] == ms[i] && ms[i..][1..] == ms[i + 1..];
  }

  /** The `paths_total` loop: the path-set exploration from the files
      already discovered. */
  method CollectPaths(discovered: set<string>, ms: seq<Measurement>, locate: Locator)
    returns (r: Result<set<string>>)
    ensures r == Explore(discovered, ms, locate)
    ensures r.Success? ==> discovered <= r.value
    ensures r.Success? ==> forall i | 0 <= i < |ms| :: GpsMillis(ms[i]).Success?
  {
    var total := discovered;
    var i := 0;
    while i < |ms|
      invariant 0 <= i <= |ms|
      invariant Explore(total, ms[i..], locate) == Explore(discovered, ms, locate)
    {
      ExploreStep(total, ms, i, locate);
      var millis := GpsMillis(ms[i]);
      if millis.Failure? {
        return Failure(millis.error);
      }
      var gps := millis.value;
      ghost var known := total;
      var before := locate(gps - SIX_HOURS_MS, total);
      total := total + before;
      var after := locate(gps + SIX_HOURS_MS, total);
      total := total + after;
      assert total == Visit(known, gps, locate);
      i := i + 1;
    }
    assert ms[i..] == [];
    ExploreGrows(discovered, ms, locate);
    ExploreSucceeds(discovered, ms, locate);
    return Success(total);
  }

  /** `dict(items)`: a later item overwrites an earlier one with the same key. */
  function AsMap(items: seq<(char, string)>): (m: map<char, string>)
    ensures m.Keys == set i | 0 <= i < |items| :: items[i].0
    ensures forall c | c in m :: (c, m[c]) in items
  {
    if items == [] then map[]
    else
      var init := items[..|items| - 1];
      assert forall i | 0 <= i < |init| :: init[i] == items[i];
      assert forall p | p in init :: p in items;
      assert (set i | 0 <= i < |items| :: items[i].0) == (set i | 0 <= i < |init| :: init[i].0) + {items[|items| - 1].0};
      AsMap(init)[items[|items| - 1].0 := items[|items| - 1].1]
  }

  /** `{v: k for k, v in CONSTELLATION_CHARS.items()}`: constellation name to
      letter, the last letter winning for a name listed twice. */
  function Invert(items: seq<(char, string)>): (inv: map<string, char>)
    ensures inv.Keys == set i | 0 <= i < |items| :: items[i].1
    ensures forall name | name in inv :: (inv[name], name) in items
  {
    if items == [] then map[]
    else
      var init := items[..|items| - 1];
      assert forall i | 0 <= i < |init| :: init[i] == items[i];
      assert forall p | p in init :: p in items;
      assert (set i | 0 <= i < |items| :: items[i].1) == (set i | 0 <= i < |init| :: init[i].1) + {items[|items| - 1].1};
      Invert(init)[items[|items| - 1].1 := items[|items| - 1].0]
  }

  predicate DistinctLetters(items: seq<(char, string)>) {
    forall i, j | 0 <= i < j < |items| :: items[i].0 != items[j].0
  }

  predicate DistinctNames(items: seq<(char, string)>) {
    forall i, j | 0 <= i < j < |items| :: items[i].1 != items[j].1
  }

  lemma {:induction false} AsMapAt(items: seq<(char, string)>, k: nat)
    requires DistinctLetters(items) && k < |items|
    ensures AsMap(items)[items[k].0] == items[k].1
  {
    var init := items[..|items| - 1];
    if k < |items| - 1 {
      assert init[k] == items[k];
      AsMapAt(init, k);
    }
  }

  lemma {:induction false} InvertAt(items: seq<(char, string)>, k: nat)
    requires DistinctNames(items) && k < |items|
    ensures Invert(items)[items[k].1] == items[k].0
  {
    var init := items[..|items| - 1];
    if k < |items| - 1 {
      assert init[k] == items[k];
      InvertAt(init, k);
    }
  }

  /** The inverted map undoes the letter-to-name map: the letter found for a
      name names that constellation, and (names being distinct) the letter of
      a constellation's name is that letter. */
  lemma InvertRoundTrip(items: seq<(char, string)>)
    requires DistinctLetters(items)
    ensures forall name | name in Invert(items) :: AsMap(items)[Invert(items)[name]] == name
    ensures DistinctNames(items) ==>
      forall c | c in AsMap(items) :: AsMap(items)[c] in Invert(items) && Invert(items)[AsMap(items)[c]] == c
  {
    var inv := Invert(items);
    forall name | name in inv ensures AsMap(items)[inv[name]] == name {
      var k :| 0 <= k < |items| && items[k] == (inv[name], name);
      AsMapAt(items, k);
    }
    if DistinctNames(items) {
      forall c | c in AsMap(items) ensures AsMap(items)[c] in inv && inv[AsMap(items)[c]] == c {
        var k :| 0 <= k < |items| && items[k].0 == c;
        AsMapAt(items, k);
        InvertAt(items, k);
      }
    }
  }

  /** A JSON value used as a key of an int-keyed dict: an integral number,
      or a boolean (True == 1 in Python). */
  function IntKey(j: Json): Option<int> {
    match j
    case Num(x) => if x == x.Floor as real then Some(x.Floor) else None
    case Flag(b) => Some(if b then 1 else 0)
    case _ => None
  }

  /** `fromNameToLetter[fromNumberToName[measurement['constellationType']]]`. */
  function LetterOf(m: Measurement, toLetter: map<string, char>, toName: map<int, string>): (r: Result<char>)
    ensures r.Failure? ==> r.error == KeyError
    ensures r.Failure? <==>
      || "constellationType" !in m
      || IntKey(m["constellationType"]).None?
      || IntKey(m["constellationType"]).value !in toName
      || toName[IntKey(m["constellationType"]).value] !in toLetter
    ensures r.Success? ==> r.value in toLetter.Values
  {
    if "constellationType" !in m then Failure(KeyError)
    else
      var n := IntKey(m["constellationType"]);
      if n.None? || n.value !in toName then Failure(KeyError)
      else if toName[n.value] !in toLetter then Failure(KeyError)
      else Success(toLetter[toName[n.value]])
  }

  /** The letter found for a measurement is the letter of the constellation
      its Android constellation number names. */
  lemma LetterNamesConstellation(m: Measurement, chars: seq<(char, string)>, toName: map<int, string>)
    requires DistinctLetters(chars)
    ensures LetterOf(m, Invert(chars), toName).Success? ==>
      var c := LetterOf(m, Invert(chars), toName).value;
      c in AsMap(chars) && AsMap(chars)[c] == toName[IntKey(m["constellationType"]).value]
  {
    InvertRoundTrip(chars);
  }

  /** The letters of the constellations present in a batch. */
  function PresentLetters(ms: seq<Measurement>, toLetter: map<string, char>, toName: map<int, string>): set<char> {
    set i | 0 <= i < |ms| && LetterOf(ms[i], toLetter, toName).Success? :: LetterOf(ms[i], toLetter, toName).value
  }

  /** The `constellationType` loop: one letter added per measurement; the
      first measurement whose constellation cannot be mapped raises KeyError. */
  method ConstellationLetters(ms: seq<Measurement>, chars: seq<(char, string)>, toName: map<int, string>)
    returns (r: Result<set<char>>)
    ensures r.Success? <==> forall i | 0 <= i < |ms| :: LetterOf(ms[i], Invert(chars), toName).Success?
    ensures r.Success? ==> r.value == PresentLetters(ms, Invert(chars), toName)
    ensures r.Failure? ==> r.error == KeyError
  {
    var toLetter := Invert(chars);
    var letters: set<char> := {};
    var i := 0;
    while i < |ms|
      invariant 0 <= i <= |ms|
      invariant forall j | 0 <= j < i :: LetterOf(ms[j], toLetter, toName).Success?
      invariant letters == PresentLetters(ms[..i], toLetter, toName)
    {
      var letter := LetterOf(ms[i], toLetter, toName);
      if letter.Failure? {
        return Failure(letter.error);
      }
      assert PresentLetters(ms[..i + 1], toLetter, toName) == PresentLetters(ms[..i], toLetter, toName) + {letter.value} by {
        assert forall j | 0 <= j < i :: ms[..i + 1][j] == ms[..i][j];
        assert ms[..i + 1][i] == ms[i];
      }
      letters := letters + {letter.value};
      i := i + 1;
    }
    assert ms[..i] == ms;
    return Success(letters);
  }
}
