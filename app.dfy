/**
 * The state `BeaconApp` keeps between Tk callbacks: the per-device plot
 * history, the last list shown in the table, the export log, the sort
 * column and direction, and the scanner whose registry it reads.
 */
module App {
  import opened Wrappers
  import opened Text
  import opened Registry
  import opened Recorder
  import opened Table
  import opened Session

  /**
   * A tick records every device the registry holds: after it, each MAC of
   * the registry has a history entry.
   */
  lemma TickCoversRegistry(beacons: map<string, Entry>, order: seq<string>, now: int,
                           h: map<string, HistoryEntry>)
    requires RegistryOk(beacons, order)
    ensures forall m :: m in beacons ==> m in TickHistory(h, Snapshot(beacons, order, now, ActiveTimeout, None))
  {
    var s := Snapshot(beacons, order, now, ActiveTimeout, None);
    SnapshotContents(beacons, order, now, ActiveTimeout, None);
    TickHistoryKeys(h, s);
    forall m | m in beacons ensures m in TickHistory(h, s) {
      var c := Copy(beacons[m], now, ActiveTimeout);
      assert multiset(s)[c] == 1;
      assert c in s;
      var i :| 0 <= i < |s| && s[i] == c;
      assert s[i].mac == m;
    }
  }

  /**
   * One tick, per device: every device of the registry gains exactly one
   * sample, its RSSI when seen within the last three seconds and -100
   * otherwise, the oldest sample being dropped once 3600 are held.
   */
  lemma TickSamples(beacons: map<string, Entry>, order: seq<string>, now: int,
                    h: map<string, HistoryEntry>, m: string)
    requires RegistryOk(beacons, order) && m in beacons
    ensures m in TickHistory(h, Snapshot(beacons, order, now, ActiveTimeout, None))
    ensures var e := if m in h then h[m] else HistoryEntry(beacons[m].nome, [], false);
            TickHistory(h, Snapshot(beacons, order, now, ActiveTimeout, None))[m]
            == e.(rssi := Push(e.rssi, if now - beacons[m].lastSeen <= ActiveTimeout
                                       then beacons[m].rssi else InactiveSample))
  {
    var s := Snapshot(beacons, order, now, ActiveTimeout, None);
    SnapshotContents(beacons, order, now, ActiveTimeout, None);
    SnapshotDistinct(beacons, order, now, ActiveTimeout, None);
    var c := Copy(beacons[m], now, ActiveTimeout);
    assert multiset(s)[c] == 1;
    assert c in s;
    var k :| 0 <= k < |s| && s[k] == c;
    TickHistoryListed(h, s, k);
  }

  class BeaconApp {
    /** `self.history`: MAC to first-seen name, bounded RSSI series and import flag. */
    var history: map<string, HistoryEntry>
    /** `self.last_known_beacons`: the list the table was last built from. */
    var lastKnown: seq<Record>
    /** `self.export_data`: every row recorded or imported since the last reset. */
    var exportData: seq<LogRow>
    /** `self.sort_col` and `self.sort_reverse`. */
    var sortCol: Column
    var sortReverse: bool
    /** `self.is_scanning`. */
    var scanning: bool
    /** `self.scanner`. */
    const scanner: BeaconScanner

    ghost predicate Valid()
      reads this, scanner
    {
      && scanner.Valid()
      && HistoryBounded(history)
      && forall i :: 0 <= i < |exportData| ==> WellFormed(exportData[i])
    }

    /** The current sort state of the table. */
    function Sort(): (s: SortState)
      reads this
      ensures s.col == sortCol && s.reverse == sortReverse
    {
      SortState(sortCol, sortReverse)
    }

    /** Empty history, log and table, sorted by RSSI descending, over a fresh scanner. */
    constructor ()
      ensures Valid() && fresh(scanner)
      ensures history == map[] && lastKnown == [] && exportData == []
      ensures Sort() == InitialSort
      ensures scanner.beacons == map[] && scanner.order == [] && !scanning
    {
      history := map[];
      lastKnown := [];
      exportData := [];
      sortCol := Rssi;
      sortReverse := true;
      scanning := false;
      scanner := new BeaconScanner();
    }

    /**
     * `update_ui`, run once a second: while scanning, takes the registry
     * snapshot with a three-second activity window, records one sample per
     * listed device and one export row per active device, stamped `stamp`,
     * and shows the snapshot; otherwise it changes nothing. The registry is
     * read, not changed.
     */
    method UpdateUi(now: int, stamp: string)
      requires Valid()
      modifies this
      ensures Valid() && scanning == old(scanning) && Sort() == old(Sort())
      ensures !scanning ==> history == old(history) && lastKnown == old(lastKnown) && exportData == old(exportData)
      ensures scanning ==> lastKnown == Snapshot(scanner.beacons, scanner.order, now, ActiveTimeout, None)
      ensures scanning ==> history == TickHistory(old(history), lastKnown)
      ensures scanning ==> exportData == old(exportData) + ActiveRows(lastKnown, stamp)
      ensures scanning ==> scanner.beacons.Keys <= history.Keys
    {
      if scanning {
        var list := scanner.GetAllBeacons(now, ActiveTimeout, None);
        lastKnown := list;
        history, exportData := RecordTick(history, exportData, list, stamp);
        TickHistoryBounded(old(history), list);
        ActiveRowsSpec(list, stamp);
        TickCoversRegistry(scanner.beacons, scanner.order, now, old(history));
      }
    }

    /** `action_start`: scanning starts, unless it already runs. */
    method ActionStart()
      requires Valid()
      modifies this
      ensures Valid()
      ensures scanning
      ensures history == old(history) && lastKnown == old(lastKnown) && exportData == old(exportData)
      ensures Sort() == old(Sort())
    {
      if !scanning {
        scanning := true;
      }
    }

    /** `action_pause`: scanning stops; every collected datum is kept. */
    method ActionPause()
      requires Valid()
      modifies this
      ensures Valid()
      ensures !scanning
      ensures history == old(history) && lastKnown == old(lastKnown) && exportData == old(exportData)
      ensures Sort() == old(Sort())
    {
      if scanning {
        scanning := false;
      }
    }

    /**
     * `action_sort`: a click on the current column flips the direction; a
     * click on another column selects it, ascending for name and MAC and
     * descending otherwise. Nothing else changes.
     */
    method ActionSort(col: Column)
      requires Valid()
      modifies this
      ensures Valid()
      ensures Sort() == ClickHeading(old(Sort()), col)
      ensures history == old(history) && lastKnown == old(lastKnown) && exportData == old(exportData)
      ensures scanning == old(scanning)
    {
      if sortCol == col {
        sortReverse := !sortReverse;
      } else {
        sortCol := col;
        sortReverse := DefaultReverse(col);
      }
    }

    /**
     * The reset of `action_stop`: scanning stops and history, table, export
     * log and the scanner's registry are all emptied; the sort state is kept.
     */
    method Stop()
      requires Valid()
      modifies this, scanner
      ensures Valid()
      ensures history == map[] && lastKnown == [] && exportData == []
      ensures scanner.beacons == map[] && scanner.order == [] && !scanning
      ensures Sort() == old(Sort())
    {
      if scanning {
        scanning := false;
      }
      history := map[];
      lastKnown := [];
      exportData := [];
      scanner.Clear();
    }

    /**
     * `action_import` once a file has been chosen. It is refused while
     * scanning. Otherwise history and export log are cleared first; `None`
     * stands for a file that cannot be opened. The rows after the header
     * are replayed; a row with more than four fields stops the import,
     * leaving what was read so far and the old table. A completed import
     * shows the latest row per MAC, in first-appearance order. The
     * scanner's registry is not touched.
     */
    method ActionImport(file: Option<seq<seq<string>>>) returns (ok: bool)
      requires Valid()
      modifies this
      ensures Valid() && scanning == old(scanning) && Sort() == old(Sort())
      ensures old(scanning) ==> !ok && history == old(history) && exportData == old(exportData) && lastKnown == old(lastKnown)
      ensures !scanning && file.None? ==> !ok && history == map[] && exportData == [] && lastKnown == old(lastKnown)
      ensures !scanning && file.Some? ==>
                var run := ImportRows(DataRows(file.value));
                && ok == run.Completed?
                && history == run.st.history
                && exportData == run.st.log
                && lastKnown == if ok then ImportedView(DataRows(file.value)) else old(lastKnown)
    {
      if scanning {
        return false;
      }
      history := map[];
      exportData := [];
      if file.None? {
        return false;
      }
      var body := DataRows(file.value);
      var st;
      ok, st := ReadRows(body);
      history, exportData := st.history, st.log;
      ImportRowsValid(body);
      if ok {
        lastKnown := LatestList(st.latest, st.latestOrder);
      }
    }
  }
}
