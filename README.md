# Ephemeris store and consensus helpers of Live-Location-From-Gnss-data, in Dafny

This project models the sequential core of a GNSS positioning server. Its two parts are:

- **`EphemerisManager`** (ephemeris_manager.py). This class caches a table of broadcast-ephemeris records and a leap-second count. It answers "for each requested satellite, the latest record strictly before instant T", stamped with the leap-second count. It fills its cache from RINEX 3 navigation files. While reading them it scans each file's lines for `LEAP SECONDS` up to `END OF HEADER`, reduces every record's clock epoch to seconds of the GPS week (`t_oc`), and sorts the concatenated table by time.
- **The measurement endpoint's helpers** (server.py):
  - the capitalised CSV field names and the per-measurement row projection;
  - the GPS time of a measurement and the ±6-hour navigation-file search that grows the path set;
  - the set of constellation letters present in a batch;
  - the per-constellation solve loop with its gates (at least four satellites, a solve that did not raise);
  - the consensus rule, which computes the coordinate-wise mean of the fixes and publishes the first fix nearest to it.

Modules:
- `Wrappers` (wrappers.dfy): `Option`, `Result`, and the Python exceptions the code raises.
- `NavHeader` (nav_header.dfy): the leap-second scan of a file's lines.
- `EphemerisRecords` (ephemeris_records.dfy): records, `t_oc`, row dropping and stamping, the sort, and the lookup selection.
- `Ephemeris` (ephemeris_manager.dfy): the class `EphemerisManager`, with fields `data: Option<seq<Record>>` (None until the first load) and `leapseconds: Option<int>`.
- `Server` (server.dfy): the data-shaping helpers.
- `Consensus` (consensus.dfy): the solve loop and the consensus rule.

Times are integer nanoseconds since the GPS epoch, 1980-01-06 00:00:00. Measurement and position arithmetic uses reals. The Python exceptions that the modelled operations raise become `Failure(...)` results. Error paths in code outside the model are listed under "## Left out".

Points of the code that the model follows closely:
- The lookup filters and orders records by their clock epoch `time`; `t_oe` plays no part in it.
- When two records of one satellite have the same `time`, the model does not say which of them is returned, because pandas' default sort is not stable.
- The leap-second cache is re-read from each file while it is falsy (None or 0). A file with no `LEAP SECONDS` line before `END OF HEADER` leaves it unset, so the next file is consulted.
- The four-satellite gate counts every satellite with a computed position. The spoofed satellites are flagged but not excluded, because the exclusion is commented out in the source.
- With no navigation file, `load_data` builds an empty table and then `sort_values('time')` raises KeyError: the empty table has no `time` column. The model reports this as `Failure(KeyError)` and leaves `data` unset.

The consensus code in server.py:119-201 follows an unconditional `return`, so it never runs. It is modelled because it is the repository's only statement of the consensus policy.

## Model

| member | source | states |
|---|---|---|
| `NavHeader.LoadLeapSeconds` | ephemeris_manager.py:77-83 | The line loop with its two early returns. It runs over every line of the file, reading past the header when no label stops it. It returns exactly the value of the scan `HeaderLeapSeconds`: the parsed first token of the first `LEAP SECONDS` line, None at `END OF HEADER` or when the lines run out, or the exception `int(line.split()[0])` raises. |
| `NavHeader.FirstLabel` | ephemeris_manager.py:79-83 | Returns the index of the first line carrying either label, or the line count if none does. No earlier line carries a label. |
| `NavHeader.HeaderLeapSecondsAtFirstLabel` | ephemeris_manager.py:79-83 | Closed form of the scan. Only the first labelled line decides: its `LEAP SECONDS` field if that label is on it (so `LEAP SECONDS` wins when one line carries both labels), otherwise None. None also when no line is labelled. |
| `NavHeader.FirstTokenIsField` | ephemeris_manager.py:81 | `line.split()[0]` raises IndexError exactly on a blank line. Otherwise it is the line's first field: only whitespace before it, no whitespace in it, and whitespace or the end of the line after it. |
| `NavHeader.ParseInt` | ephemeris_manager.py:81 | `int(token)` succeeds exactly on ASCII digits with an optional `+` or `-` sign, and raises ValueError otherwise. A negative result comes only from a `-` sign. |
| `NavHeader.ParseFormatInt` | ephemeris_manager.py:81 | `int()` as modelled inverts decimal printing: parsing the printed form of any integer, negative ones included, gives it back. |
| `NavHeader.LeapSecondsLineRoundTrip` | ephemeris_manager.py:77-81 | Take a file whose first labelled line is a RINEX 3 `LEAP SECONDS` line written for n. The scan returns n, whatever follows that line. |
| `EphemerisRecords.Toc` | ephemeris_manager.py:68-70 | `t_oc` always lies in [0, 604800). |
| `EphemerisRecords.TocIsWeekRemainder` | ephemeris_manager.py:68-70 | `t_oc` equals the nanoseconds since the GPS epoch modulo one week, scaled to seconds. The seconds since the epoch are the GPS week number times 604800 plus `t_oc`, so they are congruent to `t_oc` modulo 604800. |
| `EphemerisRecords.TocUnique` | ephemeris_manager.py:68-70 | Any split of the seconds into whole weeks plus a remainder in [0, 604800) is the GPS week and `t_oc`. |
| `EphemerisRecords.Tabulate` | ephemeris_manager.py:65-70 | A file's table is its rows that have some field present (`dropna(how='all')`), and no others. Every such row appears. Each record carries the file name as `source`, and its `t_oc` is the reduction of its own clock epoch. |
| `EphemerisRecords.SortByTime` | ephemeris_manager.py:52 | The result is ordered by time and is a permutation of the input. |
| `EphemerisRecords.Filter` | ephemeris_manager.py:26-28 | Keeps exactly the records that are listed (when a non-empty satellite list is given) and strictly before the timestamp. |
| `EphemerisRecords.LastPerSv` | ephemeris_manager.py:29-30 | Keeps one record per satellite ID. Every ID of the table is a key, and each value is a record of the table with that ID. On a time-sorted table the kept record's time is maximal for its satellite. |
| `EphemerisRecords.SelectEphemeris` | ephemeris_manager.py:26-32 | The lookup result. Each satellite maps to one of its own stored records, with time strictly before the timestamp. The satellite is a listed one when a non-empty list is given. The row carries the manager's leap-second value. Every qualifying satellite is present, and its record's time is at least that of every qualifying record of that satellite. |
| `EphemerisRecords.SelectedSatellites` | ephemeris_manager.py:26-30 | Both directions: a satellite is in the result if and only if it has a qualifying record. A satellite without one is simply absent. |
| `EphemerisRecords.Flatten` | ephemeris_manager.py:47 | Every record of every per-file table is in the concatenation, and every record of the concatenation comes from one of the tables. |
| `EphemerisRecords.Tables` | ephemeris_manager.py:44-45 | One table per file, in file order: the file's own table. |
| `Ephemeris.ReadAllTables` | ephemeris_manager.py:44-47 | No file's records are dropped. When every read succeeds, the list of tables is exactly each file's table, in order, whatever the leap-second cache held. |
| `Ephemeris.LeapSecondsSticky` | ephemeris_manager.py:57-59 | Once the cache holds a non-zero count, reading any further files leaves it unchanged, and none of those reads fails. |
| `Ephemeris.FirstFileSetsLeapSeconds` | ephemeris_manager.py:57-59 | Suppose the cache is unset and the scan of the first file gives a non-zero count n. Then after all the files are read the cache holds n. |
| `Ephemeris.EphemerisManager.constructor` | ephemeris_manager.py:18-19 | A new manager has no table and no leap-second count. |
| `Ephemeris.EphemerisManager.ReadEphemeris` | ephemeris_manager.py:56-74 | Scans the file's lines only while the cache is falsy, and stores what the scan found. A non-zero cache is never changed. A leap-second field the scan cannot parse raises, and the cache is kept. On success it returns the file's table. |
| `Ephemeris.EphemerisManager.LoadData` | ephemeris_manager.py:38-53 | Reads the files in order and stops at the first exception, leaving `data` unset. With no file it raises KeyError and leaves `data` unset. Otherwise `data` is sorted by time and is a permutation of the concatenation of all files' tables. The leap-second cache ends as the file-by-file reads leave it. |
| `Ephemeris.EphemerisManager.GetEphemeris` | ephemeris_manager.py:21-33 | An empty ID in a satellite list raises IndexError and changes nothing. An already loaded table is never reloaded, and the cache is then unchanged. Otherwise the manager loads first, as `LoadData` does. The cache then ends as the file-by-file reads leave it. A failed read, or an empty file list, makes the call fail and leaves `data` unset. The result is the selection over the current table, stamped with the current leap-second count. The call succeeds whenever the IDs are valid and the table is loaded or loads. |
| `Ephemeris.EphemerisManager.GetConstellations` | ephemeris_manager.py:86-93 | For a list, exactly the set of first characters of the IDs, or IndexError if an ID is empty. For any non-list argument, None. |
| `Server.Convert` | server.py:25-26 | Same length as the input. The first character is upper-cased and the rest are unchanged. The result never starts with a lower-case letter. |
| `Server.ConvertIdempotent` | server.py:25-26 | Converting twice is converting once. |
| `Server.ConvertInjective` | server.py:25-26 | On names starting with a lower-case letter, two names convert to the same column if and only if they are equal. |
| `Server.ConvertedFields` | server.py:33 | The header is `'Raw'` followed by each field converted, in order, with length 1 + the number of fields. |
| `Server.Comprehend` | server.py:76 | The keys of the comprehension are exactly the converted fields. |
| `Server.ComprehendValues` | server.py:76 | When no two different fields share a column, each column of the comprehension holds the measurement's value for its field, or null when absent. |
| `Server.FilteredMeasurement` | server.py:76-77 | The projected row maps `'Raw'` to `'Raw'`, and its keys are exactly `'Raw'` and the converted fields. Every other column holds its field's value or null. |
| `Server.FieldsWellFormed` | server.py:29-32 | The forwarded field names are non-empty, none converts to `'Raw'`, and two entries convert to the same column only when they are the same name. |
| `Server.FilteredMeasurementRow` | server.py:76-77 | For the server's own field list, every forwarded field's column holds the measurement's value (null when absent). `'Raw'` maps to `'Raw'`, and no other key appears. |
| `Server.GpsMillis` | server.py:85-86 | The result times 10^6 equals timeNanos − (fullBiasNanos − biasNanos). A missing field raises KeyError and a non-numeric one raises TypeError, in both directions. |
| `Server.ExploreGrows` | server.py:83-91 | The path set only grows: the initially discovered files are a subset of the final set. |
| `Server.ExploreSucceeds` | server.py:84-86 | The path loop fails exactly when some measurement lacks usable clock fields. |
| `Server.ExploreStep` | server.py:84-91 | One pass of the loop: a measurement without usable clock fields ends the search with its error. Otherwise the locator is asked at gps_millis − 21,600,000 ms with the known set, then at gps_millis + 21,600,000 ms with the set so extended, and the search goes on with the next measurement. |
| `Server.CollectPaths` | server.py:83-91 | The `paths_total` loop. Its result is the path-set exploration of `ExploreStep`, measurement by measurement, and it contains the initial files. It succeeds only when every measurement has usable clock fields. |
| `Server.AsMap` | server.py:103 | The letter→name dict has exactly the items' letters as keys, and each entry is one of the items. |
| `Server.Invert` | server.py:103 | The inverted dict has exactly the constellation names as keys, and maps each name to a letter listed with it. |
| `Server.InvertRoundTrip` | server.py:103 | The inversion undoes the letter→name map. The letter found for a name names that constellation. When names are distinct, the letter of a constellation's name is that letter. |
| `Server.LetterOf` | server.py:107 | `fromNameToLetter[fromNumberToName[measurement['constellationType']]]`. It raises KeyError exactly when the field is missing, is not an integer, or one of the two lookups misses. Otherwise the result is one of the letters of the inverted dict. |
| `Server.LetterNamesConstellation` | server.py:107 | The letter found for a measurement is the letter whose constellation name is the one its Android constellation number maps to. |
| `Server.ConstellationLetters` | server.py:105-107 | The letter set is exactly the letters of the constellations present in the batch. Any measurement whose constellation cannot be mapped raises KeyError; this happens if and only if such a measurement exists. |
| `Consensus.GatheredFixes` | server.py:140-185 | `results` holds exactly the fixes of the constellations that pass every gate: non-empty epoch and ephemeris, non-empty satellite positions, at least 4 satellites, and a solve that did not raise. Each entry is such a constellation's own fix and spoofed list. |
| `Consensus.SkippedHasNoFix` | server.py:143-185 | A constellation that fails a gate, for instance one with fewer than 4 satellites or whose solve raised, has no entry in `results`. |
| `Consensus.Gather` | server.py:136-185 | The loop with its `continue` skips builds exactly those `results`, in visiting order, and alongside them `positions`, the entries' positions in entry order. The constellations are distinct, as `unique()` makes them, so the sequence of entries is the `results` dict. |
| `Consensus.MeanInBox` | server.py:190 | Carries the meaning of `Mean`, the model of `np.mean(positions, axis=0)`. The coordinate-wise mean lies within every coordinate range that holds all the fixes. A set of identical fixes therefore has that fix as its mean. |
| `Consensus.SqDist` | server.py:191 | The squared Euclidean distance stands in for `np.linalg.norm(positions[i] - mean)`. It is never negative, and it is zero if and only if the points are equal. The norm grows with its square, so both choose the same fix. |
| `Consensus.Nearest` | server.py:191 | Carries the meaning of `SqDist` in the `min(..., key=...)` choice. Returns the index of a fix whose squared distance to the centre is ≤ that of every other fix, and strictly smaller than that of every earlier one, so the first minimum wins ties. |
| `Consensus.Publish` | server.py:187-194 | With no fixes it reports failure. Otherwise it publishes an entry of `results` whose squared distance to the mean of all fixes is minimal, the first such entry on ties. Its position and its spoofed list come from the same entry. |
| `Consensus.OutlierFarther` | server.py:190-191 | Take at least three positions, all equal to p except one, which differs. That one lies strictly farther from the mean than p does. |
| `Consensus.TwoEquidistant` | server.py:190-191 | Two positions lie at the same squared distance from their mean. |
| `Consensus.PublishOutvotesOutlier` | server.py:190-194 | With at least three fixes that all agree on one position except a single outlier, the published position is the agreed one. |
| `Consensus.PublishTieFavoursFirst` | server.py:190-194 | With exactly two fixes, whatever their positions, the first entry of `results` is published, since both are equally near the mean and `min` keeps the first of equal keys. |
| `Consensus.Resolve` | server.py:136-194 | The unreachable tail, over distinct constellations: gather, then publish. A published fix is a gated constellation's own fix, so it had at least 4 satellites. |

## Left out

- Orbit propagation, the Kepler solve, least squares, `detect_spoofing`, `generate_epoch`, `open_file` and `formatDF` live in `Parser`, whose source is not part of this model. Their outcomes per constellation are the model's input (`Consensus.Attempt`). Exceptions these steps raise outside the `try` block are not modelled. Neither is the early failure when `formatDF` returns an empty table (server.py:132-134).
- The Flask routes, JSON decoding, the `/gnssnavdata` stub and `app.run` are serving plumbing. So are the module-level `latest_*` and `all_positions` globals, including the `all_positions` updates at server.py:102-112 and 176-178. None of these is modelled.
- File and process I/O is not modelled: opening files (a file is given as all of its lines), CSV writing, `gnsslogger_to_rnx.convert`, the `rnx2rtkp` runs, reading `.sol` files and their median, `glob`, and `os.makedirs`. The paths found by `glob` are an input of `Server.CollectPaths`.
- Foreign libraries are inputs. `georinex.load` becomes the rows of a `NavFile`, with its `use=` system filter already applied. `load_ephemeris` becomes the files passed to `LoadData`/`GetEphemeris` and the `Locator` function of `CollectPaths`. `CONSTELLATION_CHARS` and `CONSTELLATION_ANDROID` are parameters, because their contents belong to gnss_lib_py. Also outside the model: astropy's `Time(...).gps`, `navpy.ecef2lla`, and the mapping through `CONSTELLATION_CHARS` in `load_data` (ephemeris_manager.py:41-42).
- Floating point: all arithmetic is on reals, so the `1e-9` scaling, the `/1e6` division and float rounding are exact in the model.
- `EphemerisRecords.LastPerSv`: pandas' `groupby('sv').last()` takes the last non-null value of each column separately. The model keeps whole rows, which agrees when no field is missing.
- The result of `get_ephemeris` is a map keyed by satellite ID. The ID order of pandas' group index, the `iloc[:, 1:]` drop of the first remaining column (the epoch `time`, which the model keeps in each record), the column renaming and `tz_localize` are not modelled.
- `get_leapseconds` (ephemeris_manager.py:35-36) only returns the cached field, which the model exposes directly. `calculate_toc` is an empty stub, and the `__main__` blocks are ad-hoc entry points.
- `Server.Convert`: upper-cases ASCII letters only. Python's `str.upper` also maps other letters, and some of them to two characters (`'ß'` becomes `'SS'`), which would change the length. All field names in the source are ASCII.
- `NavHeader.ParseInt`: accepts an optional sign and ASCII digits. Python's `int()` also accepts underscores between digits and non-ASCII decimal digits.
- The Python exceptions carry no payload in the model (for a KeyError, the missing key is not recorded).
- Error paths outside the modelled operations are not modelled:
  - the KeyError of `CONSTELLATION_CHARS[constellation]` for an unknown system letter (ephemeris_manager.py:42);
  - exceptions of the Parser steps outside the `try` block (server.py:141-157);
  - failures of `open`, `georinex.load` and `load_ephemeris` (ephemeris_manager.py:43, 61-64, 78; server.py:88, 90).
- The time-zone mismatch of the lookup is not modelled. After `tz_localize('UTC')` (ephemeris_manager.py:71) the stored `time` column is time-zone aware. Comparing it with a naive timestamp at ephemeris_manager.py:28 raises TypeError in pandas. The model treats all instants as plain GPS nanoseconds and compares them directly.
- The query window covers six hours on each side; the model does not reason about GLONASS time offsets.
