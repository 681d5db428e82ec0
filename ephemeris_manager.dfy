/** The `EphemerisManager` class: a cached table of broadcast-ephemeris
    records (`data`, unset until the first load) and a cached leap-second
    count. Locating and downloading navigation files is done by a collaborator
    outside the model: the files it would return are passed in. */
module Ephemeris {
  import opened Wrappers
  import opened EphemerisRecords
  import NavHeader

  /** Python truthiness of the cached leap-second count (None and 0 are falsy). */
  predicate IsSet(leap: Option<int>) {
    leap.Some? && leap.value != 0
  }

  /** One `read_ephemeris` call from a cache value: the new cache value and
      the file's table, or the exception reading the header raised. */
  function ReadStep(cached: Option<int>, file: NavFile): (Option<int>, Result<seq<Record>>) {
    if IsSet(cached) then (cached, Success(Tabulate(file.name, file.rows)))
    else
      match NavHeader.HeaderLeapSeconds(file.lines)
      case Failure(e) => (cached, Failure(e))
      case Success(leap) => (leap, Success(Tabulate(file.name, file.rows)))
  }

  /** The `read_ephemeris` loop of `load_data`: the cache value it leaves and
      the list of tables, or the first exception. */
  function ReadAll(cached: Option<int>, files: seq<NavFile>): (Option<int>, Result<seq<seq<Record>>>)
    decreases |files|
  {
    if files == [] then (cached, Success([]))
    else
      var step := ReadStep(cached, files[0]);
      if step.1.Failure? then (step.0, Failure(step.1.error))
      else Prepend(step.1.value, ReadAll(step.0, files[1..]))
  }

  function Prepend(table: seq<Record>, outcome: (Option<int>, Result<seq<seq<Record>>>))
    : (Option<int>, Result<seq<seq<Record>>>)
  {
    var (leap, tables) := outcome;
    (leap, if tables.Failure? then tables else Success([table] + tables.value))
  }

  /** No file's records are dropped: a successful read of all files yields
      each file's own table, in file order. */
  lemma {:induction false} ReadAllTables(cached: Option<int>, files: seq<NavFile>)
    ensures ReadAll(cached, files).1.Success? ==> ReadAll(cached, files).1.value == Tables(files)
    decreases |files|
  {
    if files != [] {
      var step := ReadStep(cached, files[0]);
      if step.1.Success? {
        ReadAllTables(step.0, files[1..]);
      }
    }
  }

  /** Once the cached count is set to a non-zero value, reading more files
      neither changes it nor fails. */
  lemma {:induction false} LeapSecondsSticky(cached: Option<int>, files: seq<NavFile>)
    requires IsSet(cached)
    ensures ReadAll(cached, files) == (cached, Success(Tables(files)))
    decreases |files|
  {
    if files != [] {
      LeapSecondsSticky(cached, files[1..]);
    }
  }

  /** While the cache is unset, the first file decides it: its header's
      LEAP SECONDS value if it has one. */
  lemma FirstFileSetsLeapSeconds(cached: Option<int>, file: NavFile, n: int, files: seq<NavFile>)
    requires !IsSet(cached) && n != 0
    requires NavHeader.HeaderLeapSeconds(file.lines) == Success(Some(n))
    ensures ReadAll(cached, [file] + files).0 == Some(n)
  {
    assert ([file] + files)[1..] == files;
    LeapSecondsSticky(Some(n), files);
  }

  class EphemerisManager {
    var data: Option<seq<Record>>
    var leapseconds: Option<int>

    constructor ()
      ensures data == None && leapseconds == None
    {
      data := None;
      leapseconds := None;
    }

    /** `read_ephemeris`: fills the leap-second cache from the file's header
        only while the cache is unset, and returns the file's table. */
    method ReadEphemeris(file: NavFile) returns (table: Result<seq<Record>>)
      modifies this`leapseconds
      ensures (leapseconds, table) == ReadStep(old(leapseconds), file)
      ensures IsSet(old(leapseconds)) ==> leapseconds == old(leapseconds)
      ensures table.Success? ==> table.value == Tabulate(file.name, file.rows)
    {
      if !IsSet(leapseconds) {
        var leap := NavHeader.LoadLeapSeconds(file.lines);
        if leap.Failure? {
          return Failure(leap.error);
        }
        leapseconds := leap.value;
      }
      table := Success(Tabulate(file.name, file.rows));
    }

    /** `load_data`: reads every file, concatenates their tables and sorts
        the result by time. With no file the sort raises KeyError, because
        the empty table has no `time` column; `data` is then left unset. */
    method LoadData(files: seq<NavFile>) returns (outcome: Result<()>)
      modifies this
      ensures leapseconds == ReadAll(old(leapseconds), files).0
      ensures ReadAll(old(leapseconds), files).1.Failure? ==>
        outcome == Failure(ReadAll(old(leapseconds), files).1.error) && data == old(data)
      ensures ReadAll(old(leapseconds), files).1.Success? && files == [] ==>
        outcome == Failure(KeyError) && data == old(data)
      ensures outcome.Success? ==>
        && ReadAll(old(leapseconds), files).1.Success?
        && data.Some?
        && SortedByTime(data.value)
        && multiset(data.value) == multiset(Flatten(Tables(files)))
      ensures ReadAll(old(leapseconds), files).1.Success? && files != [] ==> outcome.Success?
    {
      ghost var expected := ReadAll(leapseconds, files);
      ReadAllTables(leapseconds, files);
      var dataList: seq<seq<Record>> := [];
      var i := 0;
      assert files[i..] == files;
      JoinNothing(expected);
      while i < |files|
        invariant 0 <= i <= |files|
        invariant data == old(data)
        invariant expected == Join(dataList, ReadAll(leapseconds, files[i..]))
      {
        ghost var before := leapseconds;
        var table := ReadEphemeris(files[i]);
        ReadAllStep(before, files[i..], dataList);
        assert files[i..][1..] == files[i + 1..];
        if table.Failure? {
          return Failure(table.error);
        }
        dataList := dataList + [table.value];
        i := i + 1;
      }
      assert files[i..] == [] && dataList + [] == dataList;
      assert expected.1 == Success(dataList);
      if dataList == [] {
        return Failure(KeyError);
      }
      data := Some(SortByTime(Flatten(dataList)));
      outcome := Success(());
    }

    /** `get_ephemeris`: loads the table if it is not loaded yet, then per
        satellite the latest record strictly before `timestamp`, stamped with
        the cached leap-second count. */
    method GetEphemeris(timestamp: int, satellites: Satellites, files: seq<NavFile>)
      returns (r: Result<map<string, EphemerisRow>>)
      modifies this
      ensures Constellations(satellites).Failure? ==>
        r == Failure(IndexError) && data == old(data) && leapseconds == old(leapseconds)
      ensures old(data).Some? ==> data == old(data) && leapseconds == old(leapseconds)
      ensures r.Success? ==>
        && Constellations(satellites).Success?
        && data.Some?
        && (old(data).Some? ==> data == old(data))
        && (old(data).None? ==> SortedByTime(data.value) && multiset(data.value) == multiset(Flatten(Tables(files))))
        && r.value == SelectEphemeris(data.value, satellites, timestamp, leapseconds)
      ensures Constellations(satellites).Success? && (old(data).Some? || (ReadAll(old(leapseconds), files).1.Success? && files != [])) ==>
        r.Success?
      ensures Constellations(satellites).Success? && old(data).None? ==>
        leapseconds == ReadAll(old(leapseconds), files).0
      ensures Constellations(satellites).Success? && old(data).None?
        && (ReadAll(old(leapseconds), files).1.Failure? || files == [])
        ==> r.Failure? && data == old(data)
    {
      var systems := GetConstellations(satellites);
      if systems.Failure? {
        return Failure(systems.error);
      }
      if data.None? {
        var loaded := LoadData(files);
        if loaded.Failure? {
          return Failure(loaded.error);
        }
      }
      r := Success(SelectEphemeris(data.value, satellites, timestamp, leapseconds));
    }

    /** `get_constellations`: the set of system letters of a list of IDs,
        built by adding each ID's first character. */
    static method GetConstellations(satellites: Satellites) returns (r: Result<Option<set<char>>>)
      ensures r == Constellations(satellites)
    {
      if !satellites.SatList? {
        return Success(None);
      }
      var ids := satellites.ids;
      var systems: set<char> := {};
      var i := 0;
      while i < |ids|
        invariant 0 <= i <= |ids|
        invariant forall j | 0 <= j < i :: ids[j] != []
        invariant systems == set j | 0 <= j < i :: ids[j][0]
      {
        if ids[i] == [] {
          return Failure(IndexError);
        }
        systems := systems + {ids[i][0]};
        i := i + 1;
      }
      return Success(Some(systems));
    }
  }

  /** Join(done, rest): the outcome of reading all files, given the tables
      of the files already read and the outcome of reading the others. */
  function Join(done: seq<seq<Record>>, rest: (Option<int>, Result<seq<seq<Record>>>))
    : (Option<int>, Result<seq<seq<Record>>>)
  {
    var (leap, tables) := rest;
    (leap, if tables.Failure? then tables else Success(done + tables.value))
  }

  /** One file's read inside the loop of `load_data`. */
  lemma ReadAllStep(cached: Option<int>, files: seq<NavFile>, done: seq<seq<Record>>)
    requires files != []
    ensures var step := ReadStep(cached, files[0]);
      Join(done, ReadAll(cached, files)) ==
        if step.1.Failure? then (step.0, Failure(step.1.error))
        else Join(done + [step.1.value], ReadAll(step.0, files[1..]))
  {
    var step := ReadStep(cached, files[0]);
    if step.1.Success? {
      JoinPrepend(done, step.1.value, ReadAll(step.0, files[1..]));
    }
  }

  lemma JoinNothing(rest: (Option<int>, Result<seq<seq<Record>>>))
    ensures Join([], rest) == rest
  {
    if rest.1.Success? {
      assert [] + rest.1.value == rest.1.value;
    }
  }

  lemma JoinPrepend(done: seq<seq<Record>>, table: seq<Record>, rest: (Option<int>, Result<seq<seq<Record>>>))
    ensures Join(done, Prepend(table, rest)) == Join(done + [table], rest)
  {
    if rest.1.Success? {
      assert done + ([table] + rest.1.value) == (done + [table]) + rest.1.value;
    }
  }
}
