# Radar BLE beacon scanner: a verified model

This project models the bookkeeping core of the Radar BLE scanner in Dafny. The model covers:

- **Device registry.** `BeaconScanner` keeps a dictionary from MAC address to the latest advertisement seen for that device.
- **Snapshot.** The scanner returns a list of copies of the registry entries. Each copy is marked active when the device was heard within a timeout. The list is sorted so that active devices come first, strongest signal first.
- **Application state.** `BeaconApp` builds three things on top of the snapshot:
  - A per-device RSSI history, bounded at 3600 samples, which feeds the plot.
  - A log of every active observation, which can be exported to CSV and imported back.
  - A table view with a minimum-RSSI filter and a clickable sort column.

The widgets, the plotting, the Bluetooth driver and file access are stripped away. What remains are the dictionary, list and ring-buffer updates, stated and proved in Dafny.

Modules:

- `Wrappers`: `Option`.
- `Text`: ASCII lower-casing, the substring test behind Python's `in`, and decimal formatting and parsing of integers (`str(int)` / `int(str)`).
- `Sorting`: Python's stable `sorted(key=..., reverse=...)`.
  - Sort keys are sequences of integers compared lexicographically. This encodes the source's `str`, `int` and `(bool, int)` keys.
  - `reverse=True` sorts in descending order and still keeps equal keys in input order.
  - Proved: the result is a permutation, it is sorted, it is stable, and these three properties determine it uniquely.
- `Registry`: the `BeaconScanner` class (`_callback`, `get_all_beacons`, `beacons.clear()`) and the `Snapshot` function that specifies `get_all_beacons`.
- `Recorder`: the bounded RSSI series (`deque(maxlen=3600)`), the recording tick of `update_ui`, and its loop `RecordTick`.
- `Table`: the sort-heading state machine, the heading arrows, the filter and sort of `refresh_table`, the row cells, and the plot-window slicing.
- `Session`: the CSV export layout, and the import as a fold over the data rows (`ImportRows`). Its loop is `ReadRows`.
- `App`: the `BeaconApp` class with these fields:
  - `history`, `lastKnown` (`last_known_beacons`) and `exportData`;
  - the sort state and `scanning`;
  - the scanner.

  Its methods are `UpdateUi`, `ActionStart`, `ActionPause`, `ActionSort`, `Stop` and `ActionImport`.

Representation choices:
- Time is an integer number of seconds, so the 3.0-second timeout is `3`. The `strftime` timestamp of a log row is an uninterpreted string passed in by the caller.
- A device name that Python tests for truthiness is an `Option<string>`. `None` and `""` are both falsy.
- A file is a sequence of rows of fields, already split by the CSV reader. `None` stands for a file that cannot be opened.
- A log row is either `Live`, recorded by a tick with an integer RSSI, or `Imported`, a row read from a file and kept as its raw strings. The two kinds correspond to the lists that `update_ui` and `action_import` append to `export_data`.
- Python's dictionary iteration order is insertion order. The registry therefore carries an `order` sequence next to its map, and the import carries a `latestOrder` sequence next to `latest_beacons_dict`. These orders decide the tie order of the stable sorts and the order of `list(dict.values())`.

## Model

| member | source | states |
|---|---|---|
| Registry.ResolveName | src/beacon_scanner.py:16 | The name is the local name when it is non-empty, else the device name when that is non-empty, else "Desconhecido"; it is never empty |
| Registry.BeaconScanner.constructor | src/beacon_scanner.py:10-11 | A new scanner has an empty registry |
| Registry.BeaconScanner.Callback | src/beacon_scanner.py:14-25 | The entry of `mac` now holds the resolved name, the RSSI and `now` as last-seen; every other entry is unchanged; the key set only grows, by `mac`; iteration order gains `mac` only when it is new |
| Registry.BeaconScanner.GetAllBeacons | src/beacon_scanner.py:33-53 | The loop-and-sort result equals `Snapshot` of the registry; the method has no modifies clause, so the registry is left unchanged |
| Registry.CollectContents | src/beacon_scanner.py:41-49 | The unsorted loop result holds, for each entry, exactly one copy when its name passes the filter and none otherwise; every element is such a copy |
| Registry.SnapshotContents | src/beacon_scanner.py:41-52 | The snapshot holds exactly one record per entry whose name contains the filter once both are lower-cased (ASCII letters only; every entry when there is no filter). Each record is a copy of its entry, unimported, and active exactly when `now - last_seen <= timeout` |
| Registry.SnapshotDistinct | src/beacon_scanner.py:41-52 | No MAC appears twice in the snapshot |
| Registry.SnapshotOrdered | src/beacon_scanner.py:52 | Every active record precedes every inactive one, and within each group the RSSI does not increase |
| Registry.SnapshotStable | src/beacon_scanner.py:41-52 | Records with equal `(is_active, rssi)` keep registry insertion order |
| Registry.SnapshotDetermined | src/beacon_scanner.py:41-52 | Any list that is sorted by `(is_active, rssi)` descending and keeps ties in registry order is the snapshot, so two calls with the same clock and no callback in between agree |
| Registry.BeaconScanner.Clear | src/beacon_scanner_gui.py:299 | The registry becomes empty |
| Text.IsSubstringIffOccurs | src/beacon_scanner.py:42 | The substring test used for `in` holds exactly when the needle occurs at some position of the haystack |
| Text.FormatParseRoundTrip | src/beacon_scanner_gui.py:357 | Parsing the decimal text of any integer gives that integer back (the RSSI written by the export is read back by the import) |
| Text.ParseNat | src/beacon_scanner_gui.py:357 | A natural number parses exactly when the text is a non-empty run of digits |
| Text.FormatNat | src/beacon_scanner_gui.py:324 | The decimal text of a natural number is a non-empty run of digits whose value is that number, with no leading zero unless the number is 0 |
| Text.ParseInt | src/beacon_scanner_gui.py:357 | `int(rssi_str)` succeeds exactly on an optional `+` or `-` followed by a non-empty run of digits; its value is the digits' value, negated after `-` |
| Sorting.SortByPerm | src/beacon_scanner_gui.py:499 | `sorted` returns a permutation of its input |
| Sorting.SortBySorted | src/beacon_scanner_gui.py:499 | `sorted` orders its output by key, ascending or (reverse) descending |
| Sorting.SortByStable | src/beacon_scanner_gui.py:499 | Elements with equal keys keep their input order, also with `reverse` |
| Sorting.StableSortUnique | src/beacon_scanner_gui.py:499 | A sorted, stable rearrangement of the input is the sort's result |
| Sorting.LexLePair | src/beacon_scanner.py:52 | Comparing `(a1, b1)` with `(a2, b2)` as tuples is `a1 < a2`, or `a1 == a2` and `b1 <= b2` |
| Recorder.Push | src/beacon_scanner_gui.py:473-479 | Appending to a series bounded at 3600 yields the last 3600 samples of the series with the new sample, which is now last |
| Recorder.PushCap | src/beacon_scanner_gui.py:473-476 | Appending to a capped series is the same as capping the whole history: the oldest sample is the one dropped |
| Recorder.RecordTick | src/beacon_scanner_gui.py:471-479 | The tick's loop yields the history `TickHistory` and the log extended by `ActiveRows` |
| Recorder.TickHistoryKeys | src/beacon_scanner_gui.py:473 | After a tick the history has an entry exactly for the MACs it had and the MACs listed |
| Recorder.TickHistoryBounded | src/beacon_scanner_gui.py:471-479 | A tick keeps every series within 3600 samples |
| Recorder.TickHistoryUnlisted | src/beacon_scanner_gui.py:471-479 | Entries of MACs not listed are left as they were |
| Recorder.TickHistoryListed | src/beacon_scanner_gui.py:471-479 | In a list with one record per MAC, each listed MAC gains exactly one sample: its RSSI if active, else -100; a new MAC starts an empty series under its current name, an old one keeps its first name |
| Recorder.ActiveRowsSpec | src/beacon_scanner_gui.py:475-477 | The tick logs exactly one row per active record, in list order, each carrying the tick's timestamp and the record's MAC, name and RSSI |
| App.TickCoversRegistry | src/beacon_scanner_gui.py:467-473 | After a tick every MAC of the registry has a history entry |
| App.TickSamples | src/beacon_scanner_gui.py:467-479 | Per registry device, a tick appends one sample: the RSSI if heard within 3 seconds, else -100, to the device's series (created empty under its current name on first sight) |
| App.BeaconApp.constructor | src/beacon_scanner_gui.py:24-30 | Empty history, table and log, not scanning, sort by RSSI descending, a fresh empty scanner |
| App.BeaconApp.UpdateUi | src/beacon_scanner_gui.py:465-482 | While scanning: the table is the 3-second snapshot, history and log are those of one tick over it, and every registry MAC has a history entry. Otherwise nothing changes. History stays bounded and the log well formed |
| App.BeaconApp.ActionStart | src/beacon_scanner_gui.py:265-268 | Scanning is on; data and sort state are unchanged |
| App.BeaconApp.ActionPause | src/beacon_scanner_gui.py:275-278 | Scanning is off; data and sort state are unchanged |
| App.BeaconApp.ActionSort | src/beacon_scanner_gui.py:247-252 | The sort state becomes `ClickHeading` of the old one; nothing else changes |
| App.BeaconApp.Stop | src/beacon_scanner_gui.py:292-299 | Scanning stops and history, table, log and the scanner's registry are all empty; the sort state is kept |
| App.BeaconApp.ActionImport | src/beacon_scanner_gui.py:333-367 | Refused while scanning. Otherwise history and log are cleared first. An unopenable file leaves them empty. Else history and log are those of `ImportRows` over the data rows, the table becomes the latest view only if the import completed, and the registry is untouched |
| Table.ClickHeading | src/beacon_scanner_gui.py:247-252 | The clicked column becomes current; its direction flips if it was current, else is ascending for name and MAC and descending for status and RSSI |
| Table.ClickTwice | src/beacon_scanner_gui.py:247-252 | Clicking the current column twice restores the sort state; clicking a new column twice leaves it on that column with the opposite of its default direction |
| Table.HeadingArrow | src/beacon_scanner_gui.py:241-245 | A heading carries an arrow exactly when its column is current, ▼ when descending and ▲ when ascending, and always starts with the column's name |
| Table.FilterRows | src/beacon_scanner_gui.py:490 | A record is kept exactly when its effective RSSI (-100 if inactive) is at least the minimum, as many times as it occurs in the list; nothing is added |
| Table.FilterRowsPrefix | src/beacon_scanner_gui.py:490 | The filter keeps list order: filtering a prefix of the list gives a prefix of the filtered list |
| Table.DefaultFilter | src/beacon_scanner_gui.py:487-490 | With an unreadable spinbox the minimum is -100, so a listed record is dropped exactly when it is active with RSSI below -100 |
| Table.TableRowsSpec | src/beacon_scanner_gui.py:486-499 | The table is a permutation of the filtered list, sorted by the current column's key in the current direction, with ties in list order |
| Table.RssiDescending | src/beacon_scanner_gui.py:495-499 | Sorted by RSSI descending, no inactive row (key -999) precedes an active row with RSSI above -999, and active rows have non-increasing RSSI |
| Table.StatusDescending | src/beacon_scanner_gui.py:496-499 | Sorted by status descending, active rows precede inactive ones, and RSSI does not increase within each group |
| Table.ViewOf | src/beacon_scanner_gui.py:506-508 | The RSSI cell is "---" exactly for live rows of inactive devices; otherwise it is the RSSI followed by " dBm" |
| Table.WindowLimit | src/beacon_scanner_gui.py:518 | "Tudo" selects the full 3600-sample capacity |
| Table.OfferedWindows | src/beacon_scanner_gui.py:213 | The offered windows 30s, 60s, 120s, 300s and Tudo give limits 30, 60, 120, 300 and 3600 |
| Table.PlotData | src/beacon_scanner_gui.py:534 | With a positive limit the plot shows the last `min(limit, length)` samples in order; with limit 0 the whole series (`[-0:]`) |
| Session.Export | src/beacon_scanner_gui.py:312-324 | An empty log is refused; otherwise the file is the header Timestamp, MAC, Nome, RSSI followed by one row per log row, in order |
| Session.ReadRows | src/beacon_scanner_gui.py:349-365 | The import loop's outcome and state are those of `ImportRows`: completed, or aborted with the partial state |
| Session.Accepted | src/beacon_scanner_gui.py:355-358 | The kept rows are at most the data rows, and each has four fields and an integer RSSI |
| Session.ImportCompletes | src/beacon_scanner_gui.py:355-356 | The import reads the whole file exactly when no data row has more than four fields |
| Session.ImportAbortsAt | src/beacon_scanner_gui.py:354-356 | At the first row with more than four fields the import stops, keeping the state rebuilt by the rows before it |
| Session.ImportRowsValid | src/beacon_scanner_gui.py:360-365 | Every state the import reaches keeps series within 3600 samples, logs only acceptable rows, and orders only MACs that have a latest record |
| Session.ImportLog | src/beacon_scanner_gui.py:353-360 | A completed import's log is exactly the accepted rows (header dropped, short rows and non-integer RSSIs skipped), in file order |
| Session.ImportKeys | src/beacon_scanner_gui.py:362-365 | History and latest view have entries exactly for the MACs of the accepted rows |
| Session.Dedup | src/beacon_scanner_gui.py:365 | Assigning keys in turn to a dictionary yields its keys in first-assignment order: the same elements as the input, each once |
| Session.ImportOrder | src/beacon_scanner_gui.py:365-367 | The latest view's order is the MACs of the accepted rows in order of first appearance, each exactly once, and covers exactly the latest view's keys |
| Session.ImportSeries | src/beacon_scanner_gui.py:362-364 | Each MAC's series is its accepted RSSIs in file order, capped at the last 3600, flagged imported |
| Session.ImportFirstName | src/beacon_scanner_gui.py:362-363 | A MAC's history entry keeps the name of its first accepted row |
| Session.ImportLatest | src/beacon_scanner_gui.py:365 | A MAC's latest record carries the name and RSSI of its last accepted row, active and imported |
| Session.ImportLatestRecords | src/beacon_scanner_gui.py:365 | Every latest record is keyed by its own MAC, active, imported and without a last-seen time |
| Session.ImportedViewSpec | src/beacon_scanner_gui.py:365-367 | After a completed import the table has one record per MAC of the accepted rows, listed in order of each MAC's first accepted row, each active and imported |
| Session.FieldsGood | src/beacon_scanner_gui.py:355-358 | Every well-formed log row is written as a row the import accepts, with the same MAC, name and RSSI |
| Session.ExportImportLog | src/beacon_scanner_gui.py:323-360 | Importing the export of a non-empty log completes and rebuilds a log that exports to the same file |
| Session.ExportImportLatest | src/beacon_scanner_gui.py:323-367 | After exporting and re-importing, the MAC of each log row that is the last for its MAC has that row's name and RSSI, active and imported |

## Left out

- The tkinter widgets are not part of this model: Treeview insertion and selection, buttons, labels, the status bar and the `root.after` rescheduling of `update_ui`. So are the confirmation and file dialogs of `action_stop`, `action_import` and `action_export`, and matplotlib plotting. They are presentation only. The dialogs are where the user decides, so `Stop` and `ActionImport` model the code that runs after the user has agreed and chosen a file.
- `action_export`'s file writing and CSV quoting are not modelled. `Session.Export` yields the rows the writer receives.
- `action_import`'s file reading is not modelled either: the CSV reader's splitting, and any read error raised in the middle of the file. A file is given as its rows, and an open failure as `None`.
- The asyncio event loop, its thread, `BleakScanner` start and stop, and `on_closing` are not modelled. They are concurrency and calls into the radio driver. `ActionStart` and `ActionPause` model only the `is_scanning` flag.
- `time.time()` and `datetime.now().strftime` are not modelled. The clock is an integer parameter and the timestamp an uninterpreted string.
- The manufacturer data (`detalhes`) stored by `_callback` is never read by the core, so entries do not carry it.
- Registry.BeaconScanner.GetAllBeacons: the source compares float seconds against `timeout=3.0`; the model compares whole seconds.
- Text.ParseNat and Text.ParseInt: the model uses a plain decimal parser. Python's `int()` also accepts surrounding whitespace, underscores between digits and non-ASCII digits; these are not modelled.
- Table.NameKey, Registry.Matches, Registry.BeaconScanner.GetAllBeacons and Registry.SnapshotContents: `str.lower()` is Unicode lower-casing; the model lowers ASCII letters only. The name filter of `get_all_beacons` is therefore case-insensitive for ASCII letters only: a filter "É" matches a name "é" in Python but not in the model.
- Table.TableRowsSpec: comparing Python strings is modelled as comparing their sequences of code points.
- Table.WindowLimit: only "Tudo" is stated in the function's contract. For the other choices the model strips every 's' and parses the rest as a decimal integer; the values the combo box offers are proved in `Table.OfferedWindows`. A text with no integer in it makes Python raise; the model returns `None` instead.
- The -100 used to filter inactive rows and the -999 used to sort them are both kept as the code has them. Consequently, at the default minimum of -100, an active device reporting an RSSI below -100 is filtered out (`Table.DefaultFilter` states exactly which rows are kept).
- An aborted import leaves `history` and `export_data` partly rebuilt while the table keeps showing the previous list. This is modelled as written (`App.BeaconApp.ActionImport`, `Session.ImportAbortsAt`).
