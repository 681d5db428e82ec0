/** The table logic of `EphemerisManager`: broadcast-ephemeris records, the
    clock-epoch reduction to seconds of the GPS week, dropping empty rows, the
    sort by time, and the per-satellite "latest record before T" selection of
    `get_ephemeris`. Times are integer nanoseconds since the GPS epoch
    1980-01-06 00:00:00. */
module EphemerisRecords {
  import opened Wrappers

  const WEEK_SECONDS: int := 604800
  const NANOS_PER_SECOND: int := 1_000_000_000
  const WEEK_NANOS: int := WEEK_SECONDS * NANOS_PER_SECOND

  /** One row of a decoded navigation file: satellite ID, clock epoch, and the
      remaining orbit and clock fields, each possibly missing (NaN). */
  datatype NavRow = NavRow(sv: string, time: int, params: seq<Option<real>>)

  /** A navigation file: its name, every line of its text (the header and
      then the records; the leap-second scan reads on past the header when
      no label stops it) and the rows the RINEX decoder delivers for the
      requested systems. */
  datatype NavFile = NavFile(name: string, lines: seq<string>, rows: seq<NavRow>)

  /** A stored ephemeris record: the row plus the file it came from and its
      clock epoch as seconds of the GPS week (`t_oc`). */
  datatype Record = Record(sv: string, time: int, source: string, toc: real, params: seq<Option<real>>)

  /** A row of the lookup result: the record and the leap-second column. */
  datatype EphemerisRow = EphemerisRow(record: Record, leapSeconds: Option<int>)

  /** The `satellites` argument: None, a list, or another collection of IDs
      (a tuple, say), which the lookup filters by but which
      `get_constellations` does not treat as a list. */
  datatype Satellites = Unspecified | SatList(ids: seq<string>) | SatCollection(ids: seq<string>)

  /** Python truthiness of the `satellites` argument. */
  predicate Requested(q: Satellites) {
    !q.Unspecified? && |q.ids| > 0
  }

  function Seconds(ns: int): real {
    ns as real / NANOS_PER_SECOND as real
  }

  /** The `t_oc` column: seconds since the GPS epoch minus whole weeks. */
  function Toc(ns: int): (t: real)
    ensures 0.0 <= t < WEEK_SECONDS as real
  {
    var s := Seconds(ns);
    s - WEEK_SECONDS as real * (s / WEEK_SECONDS as real).Floor as real
  }

  /** The GPS week number of an instant. */
  function GpsWeek(ns: int): int {
    ns / WEEK_NANOS
  }

  /** `t_oc` is the remainder of the seconds since the GPS epoch modulo one
      week, computed exactly on integer nanoseconds, and the seconds split
      into whole GPS weeks plus `t_oc`. */
  lemma TocIsWeekRemainder(ns: int)
    ensures Toc(ns) == (ns % WEEK_NANOS) as real / NANOS_PER_SECOND as real
    ensures Seconds(ns) == GpsWeek(ns) as real * WEEK_SECONDS as real + Toc(ns)
  {
    var q, r := ns / WEEK_NANOS, ns % WEEK_NANOS;
    var s := Seconds(ns);
    var w := WEEK_SECONDS as real;
    var rs := r as real / NANOS_PER_SECOND as real;
    assert ns == q * WEEK_NANOS + r;
    assert s == q as real * w + rs;
    assert 0.0 <= rs < w;
    assert s / w == q as real + rs / w;
    assert (s / w).Floor == q;
  }

  /** Any split of the seconds into whole weeks and a remainder in
      [0, 604800) is the one `Toc` computes. */
  lemma TocUnique(ns: int, week: int, rem: real)
    requires 0.0 <= rem < WEEK_SECONDS as real
    requires Seconds(ns) == week as real * WEEK_SECONDS as real + rem
    ensures week == GpsWeek(ns) && rem == Toc(ns)
  {
    TocIsWeekRemainder(ns);
  }

  /** `dropna(how='all')`: a row all of whose fields are missing. */
  predicate AllMissing(row: NavRow) {
    forall i | 0 <= i < |row.params| :: row.params[i].None?
  }

  function Stamp(row: NavRow, source: string): Record {
    Record(row.sv, row.time, source, Toc(row.time), row.params)
  }

  /** The table `read_ephemeris` returns for a file's rows: rows with some
      field present, in order, stamped with the file name and `t_oc`. */
  function Tabulate(source: string, rows: seq<NavRow>): (t: seq<Record>)
    ensures |t| <= |rows|
    ensures forall i | 0 <= i < |rows| && !AllMissing(rows[i]) :: Stamp(rows[i], source) in t
    ensures forall x | x in t :: exists i | 0 <= i < |rows| :: !AllMissing(rows[i]) && x == Stamp(rows[i], source)
    ensures forall x | x in t :: x.source == source && x.toc == Toc(x.time)
  {
    if rows == [] then []
    else
      var rest := Tabulate(source, rows[1..]);
      assert forall i | 1 <= i < |rows| :: rows[i] == rows[1..][i - 1];
      if AllMissing(rows[0]) then rest else [Stamp(rows[0], source)] + rest
  }

  predicate SortedByTime(s: seq<Record>) {
    forall i, j | 0 <= i < j < |s| :: s[i].time <= s[j].time
  }

  function InsertByTime(x: Record, s: seq<Record>): (r: seq<Record>)
    requires SortedByTime(s)
    ensures SortedByTime(r)
    ensures multiset(r) == multiset(s) + multiset{x}
    ensures forall y | y in r :: y == x || y in s
  {
    if s == [] then [x]
    else if x.time <= s[0].time then [x] + s
    else
      var rest := InsertByTime(x, s[1..]);
      assert s == [s[0]] + s[1..];
      assert forall k | 0 <= k < |rest| :: s[0].time <= rest[k].time by {
        forall k | 0 <= k < |rest| ensures s[0].time <= rest[k].time {
          assert rest[k] in rest;
        }
      }
      [s[0]] + rest
  }

  /** `sort_values('time')`: a permutation ordered by time (which of two
      records with equal times comes first is not part of the contract). */
  function SortByTime(s: seq<Record>): (r: seq<Record>)
    ensures SortedByTime(r)
    ensures multiset(r) == multiset(s)
  {
    if s == [] then []
    else
      assert s == [s[0]] + s[1..];
      InsertByTime(s[0], SortByTime(s[1..]))
  }

  /** The two row filters of `get_ephemeris`. */
  predicate Qualifies(x: Record, q: Satellites, timestamp: int) {
    (Requested(q) ==> x.sv in q.ids) && x.time < timestamp
  }

  function Filter(s: seq<Record>, q: Satellites, timestamp: int): (r: seq<Record>)
    ensures forall x :: x in r <==> x in s && Qualifies(x, q, timestamp)
  {
    if s == [] then []
    else
      assert s == [s[0]] + s[1..];
      (if Qualifies(s[0], q, timestamp) then [s[0]] else []) + Filter(s[1..], q, timestamp)
  }

  /** `groupby('sv').last()` taken as whole rows: for each satellite ID, the
      last of its records in table order. */
  function LastPerSv(s: seq<Record>): (m: map<string, Record>)
    ensures forall sv | sv in m :: m[sv].sv == sv && m[sv] in s
    ensures forall i | 0 <= i < |s| :: s[i].sv in m
    ensures SortedByTime(s) ==> forall i | 0 <= i < |s| :: s[i].time <= m[s[i].sv].time
  {
    if s == [] then map[]
    else
      var init := s[..|s| - 1];
      var last := s[|s| - 1];
      var m := LastPerSv(init);
      LastPerSvStep(s, init, last, m);
      m[last.sv := last]
  }

  lemma LastPerSvStep(s: seq<Record>, init: seq<Record>, last: Record, m: map<string, Record>)
    requires s == init + [last]
    requires forall sv | sv in m :: m[sv].sv == sv && m[sv] in init
    requires forall i | 0 <= i < |init| :: init[i].sv in m
    requires SortedByTime(init) ==> forall i | 0 <= i < |init| :: init[i].time <= m[init[i].sv].time
    ensures var m' := m[last.sv := last];
      && (forall sv | sv in m' :: m'[sv].sv == sv && m'[sv] in s)
      && (forall i | 0 <= i < |s| :: s[i].sv in m')
      && (SortedByTime(s) ==> forall i | 0 <= i < |s| :: s[i].time <= m'[s[i].sv].time)
  {
    var m' := m[last.sv := last];
    assert forall i | 0 <= i < |init| :: init[i] == s[i];
    forall sv | sv in m' ensures m'[sv].sv == sv && m'[sv] in s {
      if sv != last.sv {
        assert m[sv] in init;
      }
    }
    if SortedByTime(s) {
      assert SortedByTime(init);
      forall i | 0 <= i < |s| ensures s[i].time <= m'[s[i].sv].time {
        if s[i].sv == last.sv {
          assert m'[s[i].sv] == last == s[|s| - 1];
          assert i == |s| - 1 || s[i].time <= s[|s| - 1].time;
        } else {
          assert i < |init| && s[i] == init[i];
          assert m'[s[i].sv] == m[init[i].sv];
          assert init[i].time <= m[init[i].sv].time;
        }
      }
    }
  }

  /** What `get_ephemeris` returns for a loaded table: per requested
      satellite the latest record strictly before `timestamp`, with the
      leap-second column. A satellite with no such record is absent. */
  function SelectEphemeris(data: seq<Record>, q: Satellites, timestamp: int, leap: Option<int>)
    : (table: map<string, EphemerisRow>)
    ensures forall sv | sv in table ::
      && table[sv].record in data
      && table[sv].record.sv == sv
      && table[sv].record.time < timestamp
      && (Requested(q) ==> sv in q.ids)
      && table[sv].leapSeconds == leap
    ensures forall x | x in data && Qualifies(x, q, timestamp) ::
      x.sv in table && x.time <= table[x.sv].record.time
  {
    var candidates := Filter(data, q, timestamp);
    var sorted := SortByTime(candidates);
    var latest := LastPerSv(sorted);
    assert forall x :: x in sorted <==> x in candidates by {
      forall x ensures x in sorted <==> x in candidates {
        assert x in sorted <==> x in multiset(sorted);
        assert x in candidates <==> x in multiset(candidates);
      }
    }
    assert forall x | x in sorted :: exists i | 0 <= i < |sorted| :: sorted[i] == x;
    map sv | sv in latest :: EphemerisRow(latest[sv], leap)
  }

  /** Which satellites the lookup answers for, in both directions: exactly
      those with a qualifying record. */
  lemma SelectedSatellites(data: seq<Record>, q: Satellites, timestamp: int, leap: Option<int>, sv: string)
    ensures sv in SelectEphemeris(data, q, timestamp, leap) <==>
      exists x | x in data :: x.sv == sv && Qualifies(x, q, timestamp)
  {
    var table := SelectEphemeris(data, q, timestamp, leap);
    if sv in table {
      var x := table[sv].record;
      assert x in data && x.sv == sv && Qualifies(x, q, timestamp);
    }
  }

  /** `get_constellations`: the set of system letters (first characters) of a
      list of IDs; None for anything that is not a list; IndexError for an
      empty ID. */
  function Constellations(q: Satellites): Result<Option<set<char>>> {
    if !q.SatList? then Success(None)
    else if exists i | 0 <= i < |q.ids| :: q.ids[i] == [] then Failure(IndexError)
    else Success(Some(set i | 0 <= i < |q.ids| :: q.ids[i][0]))
  }

  /** The records of several files, concatenated in order (`pd.concat`). */
  function Flatten(tables: seq<seq<Record>>): (all: seq<Record>)
    ensures forall i, x | 0 <= i < |tables| && x in tables[i] :: x in all
    ensures forall x | x in all :: exists i | 0 <= i < |tables| :: x in tables[i]
  {
    if tables == [] then []
    else
      var rest := Flatten(tables[1..]);
      assert forall i | 1 <= i < |tables| :: tables[i] == tables[1..][i - 1];
      assert forall x | x in tables[0] + rest :: exists i | 0 <= i < |tables| :: x in tables[i] by {
        forall x | x in tables[0] + rest ensures exists i | 0 <= i < |tables| :: x in tables[i] {
          if x !in tables[0] {
            var j :| 0 <= j < |tables| - 1 && x in tables[1..][j];
            assert x in tables[j + 1];
          }
        }
      }
      tables[0] + rest
  }

  /** The per-file tables of a sequence of files. */
  function Tables(files: seq<NavFile>): (ts: seq<seq<Record>>)
    ensures |ts| == |files|
    ensures forall i | 0 <= i < |files| :: ts[i] == Tabulate(files[i].name, files[i].rows)
  {
    if files == [] then []
    else [Tabulate(files[0].name, files[0].rows)] + Tables(files[1..])
  }
}
