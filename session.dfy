/**
 * Session export and import (`action_export`, `action_import`): the log is
 * written as CSV rows under a header, and an imported file rebuilds the
 * log, the per-device series and a latest-per-device view. Files are
 * modelled as their rows of fields; CSV quoting is below this level.
 */
module Session {
  import opened Wrappers
  import opened Text
  import opened Registry
  import opened Recorder

  const Header: seq<string> := ["Timestamp", "MAC", "Nome", "RSSI"]

  /** The CSV fields of one log row; `csv.writer` writes the RSSI with `str`. */
  function Fields(row: LogRow): seq<string> {
    match row
    case Live(stamp, mac, nome, rssi) => [stamp, mac, nome, FormatInt(rssi)]
    case Imported(fields) => fields
  }

  /** A row the import would accept: four fields, the last an integer. */
  predicate GoodRow(row: seq<string>) {
    |row| == 4 && ParseInt(row[3]).Some?
  }

  predicate AllGood(g: seq<seq<string>>) {
    forall i :: 0 <= i < |g| ==> GoodRow(g[i])
  }

  /** Log rows read back from a file always passed the import's checks. */
  predicate WellFormed(row: LogRow) {
    row.Imported? ==> GoodRow(row.fields)
  }

  /**
   * The rows `action_export` writes: the header, then every log row in
   * order. An empty log is refused ("nothing to export") and nothing is written.
   */
  function Export(log: seq<LogRow>): (file: Option<seq<seq<string>>>)
    ensures file.None? <==> log == []
    ensures file.Some? ==> |file.value| == |log| + 1 && file.value[0] == Header
    ensures file.Some? ==> forall i :: 0 <= i < |log| ==> file.value[i + 1] == Fields(log[i])
  {
    if log == [] then None
    else Some([Header] + seq(|log|, i requires 0 <= i < |log| => Fields(log[i])))
  }

  /** What the import has rebuilt so far. */
  datatype ImportState = ImportState(history: map<string, HistoryEntry>, log: seq<LogRow>,
                                     latest: map<string, Record>, latestOrder: seq<string>)

  /** The import either read every row or stopped at a row it could not unpack. */
  datatype ImportRun = Completed(st: ImportState) | Aborted(st: ImportState)

  /** `history` and `export_data` cleared, `latest_beacons_dict` empty. */
  const Fresh: ImportState := ImportState(map[], [], map[], [])

  function RowRssi(row: seq<string>): int
    requires GoodRow(row)
  {
    ParseInt(row[3]).value
  }

  /** The latest-view entry for an accepted row: always active, flagged imported. */
  function ImportedRecord(row: seq<string>): Record
    requires GoodRow(row)
  {
    Record(row[1], row[2], RowRssi(row), None, true, true)
  }

  /** One accepted row: log it, append its RSSI to its MAC's series, make it that MAC's latest. */
  function Accept(st: ImportState, row: seq<string>): ImportState
    requires GoodRow(row)
  {
    var mac := row[1];
    var e := if mac in st.history then st.history[mac] else HistoryEntry(row[2], [], true);
    ImportState(st.history[mac := e.(rssi := Push(e.rssi, RowRssi(row)))],
                st.log + [Imported(row)],
                st.latest[mac := ImportedRecord(row)],
                if mac in st.latest then st.latestOrder else st.latestOrder + [mac])
  }

  /** One iteration of the row loop: skip, abort on a row with too many fields, or accept. */
  function ImportStep(run: ImportRun, row: seq<string>): ImportRun {
    match run
    case Aborted(_) => run
    case Completed(st) =>
      if |row| < 4 then run
      else if |row| > 4 then Aborted(st)
      else if ParseInt(row[3]).None? then run
      else Completed(Accept(st, row))
  }

  /** The row loop over the data rows of a file. */
  function ImportRows(body: seq<seq<string>>): ImportRun {
    if body == [] then Completed(Fresh)
    else ImportStep(ImportRows(body[..|body| - 1]), body[|body| - 1])
  }

  /** The rows after the header (`next(reader, None)` consumes the first). */
  function DataRows(file: seq<seq<string>>): seq<seq<string>> {
    if file == [] then [] else file[1..]
  }

  /** `list(latest_beacons_dict.values())`. */
  function LatestList(latest: map<string, Record>, order: seq<string>): seq<Record>
    requires forall i :: 0 <= i < |order| ==> order[i] in latest
  {
    seq(|order|, i requires 0 <= i < |order| => latest[order[i]])
  }

  /**
   * The row loop of `action_import`, on the rows after the header: a row of
   * fewer than four fields or with a non-integer RSSI is skipped, a row of
   * more than four stops the loop, any other is logged, appended to its
   * MAC's series (a new MAC's entry is created first, flagged imported) and
   * made that MAC's latest record. `ok` says whether every row was read.
   */
  method ReadRows(body: seq<seq<string>>) returns (ok: bool, st: ImportState)
    ensures ImportRows(body) == if ok then Completed(st) else Aborted(st)
  {
    var history: map<string, HistoryEntry> := map[];
    var log: seq<LogRow> := [];
    var latest: map<string, Record> := map[];
    var latestOrder: seq<string> := [];
    var i := 0;
    while i < |body|
      invariant 0 <= i <= |body|
      invariant ImportRows(body[..i]) == Completed(ImportState(history, log, latest, latestOrder))
    {
      var row := body[i];
      assert body[..i + 1][..i] == body[..i];
      if |row| >= 4 {
        if |row| > 4 {
          ImportCompletes(body[..i]);
          forall k | 0 <= k < i ensures |body[k]| <= 4 {
            assert body[..i][k] == body[k];
          }
          ImportAbortsAt(body, i);
          return false, ImportState(history, log, latest, latestOrder);
        }
        var mac, nome, rssiText := row[1], row[2], row[3];
        var rssi := ParseInt(rssiText);
        if rssi.Some? {
          log := log + [Imported(row)];
          if mac !in history {
            history := history[mac := HistoryEntry(nome, [], true)];
          }
          history := history[mac := history[mac].(rssi := Push(history[mac].rssi, rssi.value))];
          if mac !in latest {
            latestOrder := latestOrder + [mac];
          }
          latest := latest[mac := Record(mac, nome, rssi.value, None, true, true)];
        }
      }
      i := i + 1;
    }
    assert body[..i] == body;
    return true, ImportState(history, log, latest, latestOrder);
  }

  /** `list(latest_beacons_dict.values())` at the end of an import of `body`. */
  function ImportedView(body: seq<seq<string>>): seq<Record> {
    ImportRowsValid(body);
    LatestList(ImportRows(body).st.latest, ImportRows(body).st.latestOrder)
  }

  /** The rows the import keeps, in file order: four fields and an integer RSSI. */
  function Accepted(body: seq<seq<string>>): (g: seq<seq<string>>)
    ensures |g| <= |body|
    ensures AllGood(g)
  {
    if body == [] then []
    else
      var row := body[|body| - 1];
      assert body == body[..|body| - 1] + [row];
      Accepted(body[..|body| - 1]) + (if GoodRow(row) then [row] else [])
  }

  /** The RSSIs of the rows of `g` for `mac`, in order. */
  function RssisFor(g: seq<seq<string>>, mac: string): seq<int>
    requires AllGood(g)
  {
    if g == [] then []
    else
      var row := g[|g| - 1];
      assert GoodRow(row);
      RssisFor(g[..|g| - 1], mac) + (if row[1] == mac then [RowRssi(row)] else [])
  }

  /** `mac` occurs in some row of `g`. */
  predicate Mentions(g: seq<seq<string>>, mac: string)
    requires AllGood(g)
  {
    exists i :: 0 <= i < |g| && g[i][1] == mac
  }

  /** One step of the row loop, from the state before the last row to the state after it. */
  lemma ImportUnfold(body: seq<seq<string>>)
    requires body != [] && ImportRows(body).Completed?
    ensures var b, row := body[..|body| - 1], body[|body| - 1];
            && ImportRows(b).Completed?
            && Accepted(body) == Accepted(b) + (if GoodRow(row) then [row] else [])
            && ImportRows(body).st == (if GoodRow(row) then Accept(ImportRows(b).st, row) else ImportRows(b).st)
  {
  }

  lemma {:induction false} ImportAbortedStays(body: seq<seq<string>>, k: nat)
    requires k <= |body| && ImportRows(body[..k]).Aborted?
    ensures ImportRows(body) == ImportRows(body[..k])
    decreases |body| - k
  {
    if k < |body| {
      assert body[..k + 1][..k] == body[..k];
      ImportAbortedStays(body, k + 1);
    } else {
      assert body[..k] == body;
    }
  }

  /** The import reads the whole file exactly when no data row has more than four fields. */
  lemma {:induction false} ImportCompletes(body: seq<seq<string>>)
    ensures ImportRows(body).Completed? <==> forall i :: 0 <= i < |body| ==> |body[i]| <= 4
    decreases |body|
  {
    if body != [] {
      var b, row := body[..|body| - 1], body[|body| - 1];
      ImportCompletes(b);
      assert ImportRows(body) == ImportStep(ImportRows(b), row);
      assert ImportRows(body).Completed? <==> ImportRows(b).Completed? && |row| <= 4;
      assert (forall i :: 0 <= i < |body| ==> |body[i]| <= 4)
         <==> (forall i :: 0 <= i < |b| ==> |b[i]| <= 4) && |row| <= 4;
    }
  }

  /**
   * At the first row with more than four fields the import stops, keeping
   * what the rows before it rebuilt: the state is left partially rebuilt.
   */
  lemma {:induction false} ImportAbortsAt(body: seq<seq<string>>, j: nat)
    requires j < |body| && |body[j]| > 4
    requires forall i :: 0 <= i < j ==> |body[i]| <= 4
    ensures ImportRows(body) == Aborted(ImportRows(body[..j]).st)
  {
    ImportCompletes(body[..j]);
    assert body[..j + 1][..j] == body[..j];
    assert ImportRows(body[..j + 1]) == Aborted(ImportRows(body[..j]).st);
    ImportAbortedStays(body, j + 1);
  }

  /** Every state the import reaches keeps series bounded and logs only acceptable rows. */
  lemma {:induction false} ImportRowsValid(body: seq<seq<string>>)
    ensures HistoryBounded(ImportRows(body).st.history)
    ensures forall i :: 0 <= i < |ImportRows(body).st.log| ==> WellFormed(ImportRows(body).st.log[i])
    ensures forall i :: 0 <= i < |ImportRows(body).st.latestOrder| ==>
              ImportRows(body).st.latestOrder[i] in ImportRows(body).st.latest
    decreases |body|
  {
    if body != [] {
      ImportRowsValid(body[..|body| - 1]);
    }
  }

  /** A completed import's log is the accepted rows, in file order. */
  lemma {:induction false} ImportLog(body: seq<seq<string>>)
    requires ImportRows(body).Completed?
    ensures |ImportRows(body).st.log| == |Accepted(body)|
    ensures forall i :: 0 <= i < |Accepted(body)| ==> ImportRows(body).st.log[i] == Imported(Accepted(body)[i])
    decreases |body|
  {
    if body != [] {
      ImportLog(body[..|body| - 1]);
    }
  }

  lemma MentionsSnoc(g: seq<seq<string>>, row: seq<string>, m: string)
    requires AllGood(g) && GoodRow(row)
    ensures AllGood(g + [row])
    ensures Mentions(g + [row], m) <==> Mentions(g, m) || row[1] == m
  {
    var g' := g + [row];
    assert AllGood(g') by {
      forall i | 0 <= i < |g'| ensures GoodRow(g'[i]) {
        if i < |g| { assert g'[i] == g[i]; }
      }
    }
    if Mentions(g', m) && row[1] != m {
      var i :| 0 <= i < |g'| && g'[i][1] == m;
      assert g[i][1] == m;
    }
    if Mentions(g, m) {
      var i :| 0 <= i < |g| && g[i][1] == m;
      assert g'[i][1] == m;
    }
    assert g'[|g|] == row;
  }

  /** A completed import has a series and a latest entry for exactly the MACs of the accepted rows. */
  lemma {:induction false} ImportKeys(body: seq<seq<string>>)
    requires ImportRows(body).Completed?
    ensures forall m :: m in ImportRows(body).st.history <==> Mentions(Accepted(body), m)
    ensures forall m :: m in ImportRows(body).st.latest <==> Mentions(Accepted(body), m)
    decreases |body|
  {
    if body != [] {
      var b, row := body[..|body| - 1], body[|body| - 1];
      ImportUnfold(body);
      ImportKeys(b);
      if GoodRow(row) {
        var st, st' := ImportRows(body).st, ImportRows(b).st;
        assert st == Accept(st', row);
        assert st.history.Keys == st'.history.Keys + {row[1]};
        assert st.latest.Keys == st'.latest.Keys + {row[1]};
        forall m ensures Mentions(Accepted(body), m) <==> Mentions(Accepted(b), m) || row[1] == m {
          MentionsSnoc(Accepted(b), row, m);
        }
      } else {
        assert Accepted(body) == Accepted(b);
      }
    }
  }

  /** The MAC column of accepted rows, in file order. */
  function Macs(g: seq<seq<string>>): (ms: seq<string>)
    requires AllGood(g)
    ensures |ms| == |g| && forall i :: 0 <= i < |g| ==> ms[i] == g[i][1]
  {
    seq(|g|, i requires 0 <= i < |g| => g[i][1])
  }

  /**
   * `s` with every repeated element dropped, keeping first occurrences: the
   * key order of a dictionary filled by assigning the keys of `s` in turn.
   */
  function Dedup(s: seq<string>): (r: seq<string>)
    ensures forall x :: x in r <==> x in s
    ensures forall i, j :: 0 <= i < j < |r| ==> r[i] != r[j]
  {
    if s == [] then []
    else
      var x := s[|s| - 1];
      Dedup(s[..|s| - 1]) + (if x in s[..|s| - 1] then [] else [x])
  }

  /** A MAC occurs among the accepted rows exactly when it is in their MAC column. */
  lemma MacsMentions(g: seq<seq<string>>, m: string)
    requires AllGood(g)
    ensures m in Macs(g) <==> Mentions(g, m)
  {
    if m in Macs(g) {
      var i :| 0 <= i < |g| && Macs(g)[i] == m;
      assert g[i][1] == m;
    }
    if Mentions(g, m) {
      var i :| 0 <= i < |g| && g[i][1] == m;
      assert Macs(g)[i] == m;
    }
  }

  /**
   * The latest view lists the MACs of the accepted rows in the order of
   * their first appearance, each exactly once, as the keys of
   * `latest_beacons_dict` come out.
   */
  lemma {:induction false} ImportOrder(body: seq<seq<string>>)
    requires ImportRows(body).Completed?
    ensures ImportRows(body).st.latestOrder == Dedup(Macs(Accepted(body)))
    ensures forall m :: m in ImportRows(body).st.latest <==> m in ImportRows(body).st.latestOrder
    ensures var o := ImportRows(body).st.latestOrder;
            forall i, j :: 0 <= i < j < |o| ==> o[i] != o[j]
    decreases |body|
  {
    if body != [] {
      var b, row := body[..|body| - 1], body[|body| - 1];
      ImportUnfold(body);
      ImportOrder(b);
      ImportKeys(b);
      if GoodRow(row) {
        var g := Accepted(b);
        var ms := Macs(g + [row]);
        assert ms[..|ms| - 1] == Macs(g);
        MacsMentions(g, row[1]);
      } else {
        assert Accepted(body) == Accepted(b);
      }
    }
  }

  /** Every latest record is keyed by its own MAC, active, imported and without a timestamp. */
  lemma {:induction false} ImportLatestRecords(body: seq<seq<string>>)
    ensures forall m :: m in ImportRows(body).st.latest ==>
              var r := ImportRows(body).st.latest[m];
              r.mac == m && r.isActive && r.isImported && r.lastSeen.None?
    decreases |body|
  {
    if body != [] {
      ImportLatestRecords(body[..|body| - 1]);
    }
  }

  /** The view's records are the latest records of the MACs in `latestOrder`, in that order. */
  lemma ImportedViewLayout(body: seq<seq<string>>)
    requires ImportRows(body).Completed?
    ensures var st, v := ImportRows(body).st, ImportedView(body);
            && |v| == |st.latestOrder| == |Dedup(Macs(Accepted(body)))|
            && forall i :: 0 <= i < |v| ==>
                 st.latestOrder[i] in st.latest && v[i] == st.latest[st.latestOrder[i]]
                 && v[i].mac == st.latestOrder[i] == Dedup(Macs(Accepted(body)))[i]
                 && v[i].isActive && v[i].isImported && v[i].lastSeen.None?
  {
    ImportRowsValid(body);
    ImportOrder(body);
    ImportLatestRecords(body);
  }

  /**
   * After a completed import the table lists exactly one record per MAC of
   * the accepted rows, in the order of their first appearance, each active
   * and flagged imported.
   */
  lemma ImportedViewSpec(body: seq<seq<string>>)
    requires ImportRows(body).Completed?
    ensures var v, o := ImportedView(body), Dedup(Macs(Accepted(body)));
            && |v| == |o| && (forall i :: 0 <= i < |v| ==> v[i].mac == o[i])
            && (forall i, j :: 0 <= i < j < |v| ==> v[i].mac != v[j].mac)
            && (forall i :: 0 <= i < |v| ==> v[i].isActive && v[i].isImported && v[i].lastSeen.None?)
            && (forall m :: Mentions(Accepted(body), m) <==> exists i :: 0 <= i < |v| && v[i].mac == m)
  {
    var v, o := ImportedView(body), Dedup(Macs(Accepted(body)));
    ImportedViewLayout(body);
    forall m ensures Mentions(Accepted(body), m) <==> exists i :: 0 <= i < |v| && v[i].mac == m {
      MacsMentions(Accepted(body), m);
      if m in o {
        var i :| 0 <= i < |o| && o[i] == m;
        assert v[i].mac == m;
      }
    }
  }

  lemma {:induction false} RssisForAbsent(g: seq<seq<string>>, mac: string)
    requires AllGood(g)
    requires !Mentions(g, mac)
    ensures RssisFor(g, mac) == []
    decreases |g|
  {
    if g != [] {
      var h := g[..|g| - 1];
      assert !Mentions(h, mac) by {
        forall i | 0 <= i < |h| ensures h[i][1] != mac { assert h[i] == g[i]; }
      }
      RssisForAbsent(h, mac);
    }
  }

  /**
   * After a completed import each MAC's series holds its accepted RSSIs in
   * file order (the most recent `MaxPlotHistory` of them), marked imported.
   */
  lemma {:induction false} ImportSeries(body: seq<seq<string>>, m: string)
    requires ImportRows(body).Completed?
    requires m in ImportRows(body).st.history
    ensures ImportRows(body).st.history[m].rssi == Cap(RssisFor(Accepted(body), m))
    ensures ImportRows(body).st.history[m].imported
    decreases |body|
  {
    if body != [] {
      var b, row := body[..|body| - 1], body[|body| - 1];
      ImportUnfold(body);
      var st, st' := ImportRows(body).st, ImportRows(b).st;
      var g := Accepted(b);
      if GoodRow(row) {
        assert st == Accept(st', row);
        var g' := g + [row];
        assert Accepted(body) == g';
        assert g'[..|g'| - 1] == g && g'[|g'| - 1] == row;
        assert RssisFor(g', m) == RssisFor(g, m) + (if row[1] == m then [RowRssi(row)] else []);
        if row[1] == m {
          if m in st'.history {
            ImportSeries(b, m);
          } else {
            ImportKeys(b);
            RssisForAbsent(g, m);
          }
          PushCap(RssisFor(g, m), RowRssi(row));
        } else {
          ImportSeries(b, m);
        }
      } else {
        assert Accepted(body) == g;
        ImportSeries(b, m);
      }
    }
  }

  /** After a completed import each MAC's series keeps the name of its first accepted row. */
  lemma {:induction false} ImportFirstName(body: seq<seq<string>>, i: nat)
    requires ImportRows(body).Completed?
    requires i < |Accepted(body)|
    requires forall j :: 0 <= j < i ==> Accepted(body)[j][1] != Accepted(body)[i][1]
    ensures Accepted(body)[i][1] in ImportRows(body).st.history
    ensures ImportRows(body).st.history[Accepted(body)[i][1]].nome == Accepted(body)[i][2]
    decreases |body|
  {
    var b, row := body[..|body| - 1], body[|body| - 1];
    ImportUnfold(body);
    var st, st' := ImportRows(body).st, ImportRows(b).st;
    var g, g' := Accepted(b), Accepted(body);
    if i < |g| {
      assert g'[..|g|] == g by {
        if GoodRow(row) { assert g' == g + [row]; } else { assert g' == g; }
      }
      assert g[i] == g'[i];
      assert forall j :: 0 <= j < i ==> g[j] == g'[j];
      ImportFirstName(b, i);
      if GoodRow(row) {
        assert st == Accept(st', row);
      }
    } else {
      assert GoodRow(row) && g' == g + [row] && g'[i] == row;
      ImportKeys(b);
      assert !Mentions(g, row[1]) by {
        forall j | 0 <= j < |g| ensures g[j][1] != row[1] { assert g[j] == g'[j]; }
      }
      assert row[1] !in st'.history;
      assert st == Accept(st', row);
    }
  }

  /**
   * After a completed import, the latest entry of each MAC carries the name
   * and RSSI of its last accepted row, active and flagged imported.
   */
  lemma {:induction false} ImportLatest(body: seq<seq<string>>, i: nat)
    requires ImportRows(body).Completed?
    requires i < |Accepted(body)|
    requires forall j :: i < j < |Accepted(body)| ==> Accepted(body)[j][1] != Accepted(body)[i][1]
    ensures Accepted(body)[i][1] in ImportRows(body).st.latest
    ensures ImportRows(body).st.latest[Accepted(body)[i][1]] == ImportedRecord(Accepted(body)[i])
    ensures ImportRows(body).st.latest[Accepted(body)[i][1]].isActive
    ensures ImportRows(body).st.latest[Accepted(body)[i][1]].isImported
    decreases |body|
  {
    var b := body[..|body| - 1];
    var row := body[|body| - 1];
    var g, g' := Accepted(b), Accepted(body);
    if GoodRow(row) {
      assert g' == g + [row];
      if i < |g| {
        assert g'[i] == g[i];
        assert row[1] != g[i][1] by { assert g'[|g|] == row; }
        assert forall j :: i < j < |g| ==> g[j] == g'[j];
        ImportLatest(b, i);
      }
    } else {
      assert g' == g;
      ImportLatest(b, i);
    }
  }

  /** Every log row the tick or an import produces passes the import's checks once written. */
  lemma FieldsGood(row: LogRow)
    requires WellFormed(row)
    ensures GoodRow(Fields(row))
    ensures Fields(row)[1] == RowMac(row) && Fields(row)[2] == RowNome(row)
    ensures RowRssi(Fields(row)) == LogRssi(row)
  {
    if row.Live? {
      FormatParseRoundTrip(row.rssi);
    }
  }

  lemma {:induction false} AcceptedAll(body: seq<seq<string>>)
    requires AllGood(body)
    ensures Accepted(body) == body
    decreases |body|
  {
    if body != [] {
      AcceptedAll(body[..|body| - 1]);
    }
  }

  /** The MAC, name and RSSI a log row stands for. */
  function RowMac(row: LogRow): string
    requires WellFormed(row)
  {
    match row
    case Live(_, mac, _, _) => mac
    case Imported(fields) => fields[1]
  }

  function RowNome(row: LogRow): string
    requires WellFormed(row)
  {
    match row
    case Live(_, _, nome, _) => nome
    case Imported(fields) => fields[2]
  }

  function LogRssi(row: LogRow): int
    requires WellFormed(row)
  {
    match row
    case Live(_, _, _, rssi) => rssi
    case Imported(fields) => RowRssi(fields)
  }

  /** The data rows of an exported file are the log's rows, all acceptable to the import. */
  lemma ExportBody(log: seq<LogRow>)
    requires log != []
    requires forall i :: 0 <= i < |log| ==> WellFormed(log[i])
    ensures |DataRows(Export(log).value)| == |log|
    ensures forall i :: 0 <= i < |log| ==> DataRows(Export(log).value)[i] == Fields(log[i])
    ensures AllGood(DataRows(Export(log).value))
  {
    var file := Export(log).value;
    var body := DataRows(file);
    forall i | 0 <= i < |log| ensures body[i] == Fields(log[i]) && GoodRow(body[i]) {
      assert body[i] == file[i + 1];
      FieldsGood(log[i]);
    }
  }

  /** A file whose every data row is acceptable is read completely, every row kept. */
  lemma GoodBodyImports(body: seq<seq<string>>)
    requires AllGood(body)
    ensures ImportRows(body).Completed? && Accepted(body) == body
  {
    AcceptedAll(body);
    ImportCompletes(body);
  }

  lemma LastOfMac(log: seq<LogRow>, body: seq<seq<string>>, i: nat)
    requires forall k :: 0 <= k < |log| ==> WellFormed(log[k])
    requires |body| == |log| && forall k :: 0 <= k < |log| ==> body[k] == Fields(log[k])
    requires i < |log| && forall j :: i < j < |log| ==> RowMac(log[j]) != RowMac(log[i])
    ensures |body[i]| == 4
    ensures forall j :: i < j < |body| ==> |body[j]| == 4 && body[j][1] != body[i][1]
  {
    FieldsGood(log[i]);
    forall j | i < j < |body| ensures |body[j]| == 4 && body[j][1] != body[i][1] {
      FieldsGood(log[j]);
    }
  }

  /** Importing the rows of an exported log completes and rebuilds a log with the same rows. */
  lemma ImportBodyLog(log: seq<LogRow>, body: seq<seq<string>>)
    requires log != []
    requires |body| == |log| && forall k :: 0 <= k < |log| ==> body[k] == Fields(log[k])
    requires AllGood(body)
    ensures ImportRows(body).Completed?
    ensures Export(ImportRows(body).st.log) == Export(log)
  {
    GoodBodyImports(body);
    ImportLog(body);
    var l := ImportRows(body).st.log;
    SameFields(l, log, body);
  }

  /**
   * Exporting a non-empty log and importing the file reads every row back:
   * the import completes and its log exports to the very same file.
   */
  lemma ExportImportLog(log: seq<LogRow>)
    requires log != []
    requires forall i :: 0 <= i < |log| ==> WellFormed(log[i])
    ensures Export(log).Some?
    ensures ImportRows(DataRows(Export(log).value)).Completed?
    ensures Export(ImportRows(DataRows(Export(log).value)).st.log) == Export(log)
  {
    var body := DataRows(Export(log).value);
    ExportBody(log);
    ImportBodyLog(log, body);
  }

  lemma SameFields(l: seq<LogRow>, log: seq<LogRow>, body: seq<seq<string>>)
    requires log != []
    requires |body| == |log| && forall k :: 0 <= k < |log| ==> body[k] == Fields(log[k])
    requires |l| == |body| && forall k :: 0 <= k < |body| ==> l[k] == Imported(body[k])
    ensures Export(l) == Export(log)
  {
    var f1, f2 := Export(l).value, Export(log).value;
    forall k | 0 <= k < |f1| ensures f1[k] == f2[k] {
      if k > 0 {
        assert f1[k] == Fields(l[k - 1]);
      }
    }
    assert f1 == f2;
  }

  /**
   * Round trip of the latest view: after exporting a non-empty log and
   * importing the file, the MAC of the last row logged for it has that row's
   * name and RSSI, flagged imported and active whatever its recency was.
   */
  lemma ExportImportLatest(log: seq<LogRow>, i: nat)
    requires log != []
    requires forall k :: 0 <= k < |log| ==> WellFormed(log[k])
    requires i < |log| && forall j :: i < j < |log| ==> RowMac(log[j]) != RowMac(log[i])
    ensures Export(log).Some? && ImportRows(DataRows(Export(log).value)).Completed?
    ensures RowMac(log[i]) in ImportRows(DataRows(Export(log).value)).st.latest
    ensures ImportRows(DataRows(Export(log).value)).st.latest[RowMac(log[i])]
            == Record(RowMac(log[i]), RowNome(log[i]), LogRssi(log[i]), None, true, true)
  {
    var body := DataRows(Export(log).value);
    ExportBody(log);
    GoodBodyImports(body);
    LastOfMac(log, body, i);
    FieldsGood(log[i]);
    ImportLatest(body, i);
  }
}
