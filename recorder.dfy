/**
 * The once-per-second recording tick of `BeaconApp.update_ui`: a bounded
 * per-device RSSI series (a `deque(maxlen=3600)`) and the append-only
 * export log of active observations.
 */
module Recorder {
  import opened Registry

  /** `MAX_PLOT_HISTORY`: capacity of every per-device series. */
  const MaxPlotHistory: nat := 3600
  /** Sample recorded for a device that is not active. */
  const InactiveSample: int := -100
  /** The activity window the tick passes to `get_all_beacons`, in seconds. */
  const ActiveTimeout: int := 3

  /** The most recent `MaxPlotHistory` samples of `s`. */
  function Cap(s: seq<int>): (r: seq<int>)
    ensures |r| <= MaxPlotHistory
    ensures |r| == if |s| <= MaxPlotHistory then |s| else MaxPlotHistory
  {
    if |s| <= MaxPlotHistory then s else s[|s| - MaxPlotHistory..]
  }

  /**
   * `deque.append` on a deque bounded at `MaxPlotHistory`: when full, the
   * oldest sample is dropped before the new one is added.
   */
  function Push(s: seq<int>, x: int): (r: seq<int>)
    ensures r == Cap(s + [x])
    ensures |r| <= MaxPlotHistory && r[|r| - 1] == x
  {
    if |s| < MaxPlotHistory then s + [x] else s[|s| - MaxPlotHistory + 1..] + [x]
  }

  /** Appending to a capped series is capping the whole history. */
  lemma PushCap(s: seq<int>, x: int)
    ensures Push(Cap(s), x) == Cap(s + [x])
  {
    if |s| > MaxPlotHistory {
      var c := Cap(s);
      assert (c + [x])[|c + [x]| - MaxPlotHistory..] == (s + [x])[|s + [x]| - MaxPlotHistory..];
    }
  }

  /** One entry of `self.history`: first-seen name, bounded series, import flag. */
  datatype HistoryEntry = HistoryEntry(nome: string, rssi: seq<int>, imported: bool)

  /** One row of `self.export_data`: recorded live, or read back from a CSV file. */
  datatype LogRow =
    | Live(stamp: string, mac: string, nome: string, rssi: int)
    | Imported(fields: seq<string>)

  ghost predicate HistoryBounded(h: map<string, HistoryEntry>) {
    forall m :: m in h ==> |h[m].rssi| <= MaxPlotHistory
  }

  /** The sample a tick records: the real RSSI when active, else the sentinel. */
  function Sample(b: Record): int {
    if b.isActive then b.rssi else InactiveSample
  }

  /** The entry `b.mac` has after `b` is recorded into `h`. */
  function Recorded(h: map<string, HistoryEntry>, b: Record): HistoryEntry {
    var e := if b.mac in h then h[b.mac] else HistoryEntry(b.nome, [], false);
    e.(rssi := Push(e.rssi, Sample(b)))
  }

  /** `self.history` after the tick loop has recorded each record of `list` in turn. */
  function TickHistory(h: map<string, HistoryEntry>, list: seq<Record>): map<string, HistoryEntry> {
    if list == [] then h
    else
      var b := list[|list| - 1];
      var h' := TickHistory(h, list[..|list| - 1]);
      h'[b.mac := Recorded(h', b)]
  }

  /** The export rows the tick loop appends: one per active record, in list order. */
  function ActiveRows(list: seq<Record>, stamp: string): seq<LogRow> {
    if list == [] then []
    else
      var b := list[|list| - 1];
      ActiveRows(list[..|list| - 1], stamp)
        + (if b.isActive then [Live(stamp, b.mac, b.nome, b.rssi)] else [])
  }

  /** How many records of `list` are active. */
  function ActiveCount(list: seq<Record>): nat {
    if list == [] then 0
    else ActiveCount(list[..|list| - 1]) + (if list[|list| - 1].isActive then 1 else 0)
  }

  /**
   * The tick loop's step: recording `list[i]` extends the history of
   * `list[..i]` by one sample and the log `log` by the row of `list[i]`, if any.
   */
  lemma TickStep(h: map<string, HistoryEntry>, log: seq<LogRow>, list: seq<Record>, stamp: string, i: nat)
    requires i < |list|
    ensures TickHistory(h, list[..i + 1]) == TickHistory(h, list[..i])[list[i].mac := Recorded(TickHistory(h, list[..i]), list[i])]
    ensures log + ActiveRows(list[..i + 1], stamp)
            == (log + ActiveRows(list[..i], stamp)) + if list[i].isActive then [Live(stamp, list[i].mac, list[i].nome, list[i].rssi)] else []
  {
    assert list[..i + 1][..i] == list[..i];
  }

  /**
   * The tick loop records `b` in two steps, as the source does: it first
   * creates an empty entry for an unknown MAC, then appends the sample.
   */
  lemma RecordedInTwoSteps(h: map<string, HistoryEntry>, b: Record)
    ensures var h1 := if b.mac in h then h else h[b.mac := HistoryEntry(b.nome, [], false)];
            h1[b.mac := h1[b.mac].(rssi := Push(h1[b.mac].rssi, Sample(b)))] == h[b.mac := Recorded(h, b)]
  {
  }

  /**
   * The loop of the tick over the snapshot `list`: per record, create the
   * entry of an unknown MAC, then append its RSSI (and log a row) when it
   * is active, or the -100 sentinel when it is not.
   */
  method RecordTick(history: map<string, HistoryEntry>, log: seq<LogRow>, list: seq<Record>, stamp: string)
    returns (h: map<string, HistoryEntry>, rows: seq<LogRow>)
    ensures h == TickHistory(history, list)
    ensures rows == log + ActiveRows(list, stamp)
  {
    h, rows := history, log;
    var i := 0;
    while i < |list|
      invariant 0 <= i <= |list|
      invariant h == TickHistory(history, list[..i])
      invariant rows == log + ActiveRows(list[..i], stamp)
    {
      var b := list[i];
      TickStep(history, log, list, stamp, i);
      RecordedInTwoSteps(h, b);
      if b.mac !in h {
        h := h[b.mac := HistoryEntry(b.nome, [], false)];
      }
      var e := h[b.mac];
      if b.isActive {
        h := h[b.mac := e.(rssi := Push(e.rssi, b.rssi))];
        rows := rows + [Live(stamp, b.mac, b.nome, b.rssi)];
      } else {
        h := h[b.mac := e.(rssi := Push(e.rssi, InactiveSample))];
        assert rows + [] == rows;
      }
      i := i + 1;
    }
    assert list[..i] == list;
  }

  ghost predicate DistinctMacs(list: seq<Record>) {
    forall i, j :: 0 <= i < j < |list| ==> list[i].mac != list[j].mac
  }

  /** A tick gives a history entry to every listed MAC and removes none. */
  lemma {:induction false} TickHistoryKeys(h: map<string, HistoryEntry>, list: seq<Record>)
    ensures forall m :: m in TickHistory(h, list) <==> m in h || exists i :: 0 <= i < |list| && list[i].mac == m
    decreases |list|
  {
    if list != [] {
      var l := list[..|list| - 1];
      TickHistoryKeys(h, l);
      forall m | m in TickHistory(h, list)
        ensures m in h || exists i :: 0 <= i < |list| && list[i].mac == m
      {
        if m != list[|list| - 1].mac && m !in h {
          var i :| 0 <= i < |l| && l[i].mac == m;
          assert list[i].mac == m;
        }
      }
      forall m, i | 0 <= i < |list| && list[i].mac == m ensures m in TickHistory(h, list) {
        if i < |l| { assert l[i].mac == m; }
      }
    }
  }

  /** A tick keeps every series within `MaxPlotHistory` samples. */
  lemma {:induction false} TickHistoryBounded(h: map<string, HistoryEntry>, list: seq<Record>)
    requires HistoryBounded(h)
    ensures HistoryBounded(TickHistory(h, list))
    decreases |list|
  {
    if list != [] {
      TickHistoryBounded(h, list[..|list| - 1]);
    }
  }

  /** A tick leaves the entries of MACs it does not list as they were. */
  lemma {:induction false} TickHistoryUnlisted(h: map<string, HistoryEntry>, list: seq<Record>, m: string)
    requires m in h && forall k :: 0 <= k < |list| ==> list[k].mac != m
    ensures m in TickHistory(h, list) && TickHistory(h, list)[m] == h[m]
    decreases |list|
  {
    if list != [] {
      var l := list[..|list| - 1];
      forall k | 0 <= k < |l| ensures l[k].mac != m { assert l[k] == list[k]; }
      TickHistoryUnlisted(h, l, m);
    }
  }

  /**
   * One tick, for a list with one record per MAC: every listed MAC gains
   * exactly one sample (its RSSI if active, -100 otherwise, dropping the
   * oldest when full) and keeps the name it was first recorded with.
   */
  lemma {:induction false} TickHistoryListed(h: map<string, HistoryEntry>, list: seq<Record>, k: int)
    requires DistinctMacs(list) && 0 <= k < |list|
    ensures list[k].mac in TickHistory(h, list)
    ensures TickHistory(h, list)[list[k].mac] == Recorded(h, list[k])
    decreases |list|
  {
    var l := list[..|list| - 1];
    var b := list[|list| - 1];
    var h' := TickHistory(h, l);
    assert DistinctMacs(l) by {
      forall i, j | 0 <= i < j < |l| ensures l[i].mac != l[j].mac { assert l[i] == list[i] && l[j] == list[j]; }
    }
    if k < |l| {
      assert l[k] == list[k];
      TickHistoryListed(h, l, k);
    } else {
      forall i | 0 <= i < |l| ensures l[i].mac != b.mac { assert l[i] == list[i]; }
      TickHistoryKeys(h, l);
      if b.mac in h {
        TickHistoryUnlisted(h, l, b.mac);
      }
      assert b.mac in h' <==> b.mac in h;
    }
  }

  /**
   * The export rows of a tick: one per active record, in list order, each
   * carrying the tick's timestamp and the record's MAC, name and RSSI.
   */
  lemma {:induction false} ActiveRowsSpec(list: seq<Record>, stamp: string)
    ensures |ActiveRows(list, stamp)| == ActiveCount(list) <= |list|
    ensures forall i :: 0 <= i < |list| && list[i].isActive ==>
              ActiveCount(list[..i]) < |ActiveRows(list, stamp)| &&
              ActiveRows(list, stamp)[ActiveCount(list[..i])] == Live(stamp, list[i].mac, list[i].nome, list[i].rssi)
    ensures forall j :: 0 <= j < |ActiveRows(list, stamp)| ==> ActiveRows(list, stamp)[j].Live? && ActiveRows(list, stamp)[j].stamp == stamp
    decreases |list|
  {
    if list != [] {
      var l := list[..|list| - 1];
      ActiveRowsSpec(l, stamp);
      assert list[..|list| - 1] == l;
      forall i | 0 <= i < |list| && list[i].isActive
        ensures ActiveCount(list[..i]) < |ActiveRows(list, stamp)|
        ensures ActiveRows(list, stamp)[ActiveCount(list[..i])] == Live(stamp, list[i].mac, list[i].nome, list[i].rssi)
      {
        if i < |l| {
          assert l[..i] == list[..i] && l[i] == list[i];
        } else {
          assert list[..i] == l;
        }
      }
    }
  }
}
