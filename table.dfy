/**
 * The device table of `BeaconApp`: the sort-column state machine and its
 * headings, the minimum-RSSI filter and per-column sort of `refresh_table`,
 * the cell texts of each row, and the plot-window slicing of `update_plot`.
 */
module Table {
  import opened Wrappers
  import opened Text
  import opened Sorting
  import opened Registry
  import opened Recorder

  /** The table columns `mac`, `status`, `rssi`, `nome`. */
  datatype Column = Mac | Status | Rssi | Nome

  /** `self.col_names`. */
  function ColName(c: Column): string {
    match c
    case Mac => "Endereço MAC"
    case Status => "Status"
    case Rssi => "Sinal (RSSI)"
    case Nome => "Nome"
  }

  /** `sort_col` and `sort_reverse`. */
  datatype SortState = SortState(col: Column, reverse: bool)

  /** The state set up in `__init__`: RSSI, descending. */
  const InitialSort: SortState := SortState(Rssi, true)

  /** Direction a column gets when it is newly chosen: ascending for name and MAC. */
  function DefaultReverse(c: Column): bool {
    !(c == Nome || c == Mac)
  }

  /** `action_sort(col)`: flip the direction on the current column, else switch with its default. */
  function ClickHeading(s: SortState, c: Column): (r: SortState)
    ensures r.col == c
    ensures r.reverse == if s.col == c then !s.reverse else DefaultReverse(c)
  {
    if s.col == c then s.(reverse := !s.reverse) else SortState(c, DefaultReverse(c))
  }

  /**
   * Clicking the same heading twice restores the state when it is already the
   * sort column, and otherwise leaves that column sorted against its default.
   */
  lemma ClickTwice(s: SortState, c: Column)
    ensures s.col == c ==> ClickHeading(ClickHeading(s, c), c) == s
    ensures s.col != c ==> ClickHeading(ClickHeading(s, c), c) == SortState(c, !DefaultReverse(c))
  {
  }

  const ArrowDown: string := " ▼"
  const ArrowUp: string := " ▲"

  /** `get_heading_text(col)`. */
  function HeadingText(s: SortState, c: Column): string {
    if s.col == c then ColName(c) + (if s.reverse then ArrowDown else ArrowUp) else ColName(c)
  }

  predicate HasArrow(t: string) {
    |t| > 0 && (t[|t| - 1] == '▼' || t[|t| - 1] == '▲')
  }

  /**
   * Exactly the current sort column's heading carries an arrow, ▼ when
   * descending and ▲ when ascending; every heading starts with its column name.
   */
  lemma HeadingArrow(s: SortState, c: Column)
    ensures HasArrow(HeadingText(s, c)) <==> c == s.col
    ensures c == s.col ==> HeadingText(s, c)[|HeadingText(s, c)| - 1] == (if s.reverse then '▼' else '▲')
    ensures |HeadingText(s, c)| >= |ColName(c)| && HeadingText(s, c)[..|ColName(c)|] == ColName(c)
  {
    var t := HeadingText(s, c);
    assert t[..|ColName(c)|] == ColName(c);
    assert ColName(c)[|ColName(c)| - 1] != '▼' && ColName(c)[|ColName(c)| - 1] != '▲' by {
      match c
      case Mac => assert ColName(c)[|ColName(c)| - 1] == 'C';
      case Status => assert ColName(c)[|ColName(c)| - 1] == 's';
      case Rssi => assert ColName(c)[|ColName(c)| - 1] == ')';
      case Nome => assert ColName(c)[|ColName(c)| - 1] == 'e';
    }
  }

  /** Signal strength an inactive device counts as in the filter. */
  const FilterFloor: int := -100
  /** Sort key an inactive device gets in the RSSI column. */
  const InactiveSortKey: int := -999

  /** The signal strength the filter compares: real when active, -100 otherwise. */
  function EffectiveRssi(b: Record): int {
    if b.isActive then b.rssi else FilterFloor
  }

  /** The spin-box value, or -100 when it cannot be read. */
  function MinRssi(spin: Option<int>): int {
    spin.GetOr(FilterFloor)
  }

  /** The filter comprehension of `refresh_table`. */
  function FilterRows(list: seq<Record>, minRssi: int): (r: seq<Record>)
    ensures |r| <= |list|
    ensures forall b :: b in r <==> b in list && EffectiveRssi(b) >= minRssi
    ensures forall b :: multiset(r)[b] == if EffectiveRssi(b) >= minRssi then multiset(list)[b] else 0
  {
    if list == [] then []
    else
      var rest := FilterRows(list[..|list| - 1], minRssi);
      var b := list[|list| - 1];
      assert list == list[..|list| - 1] + [b];
      rest + (if EffectiveRssi(b) >= minRssi then [b] else [])
  }

  /**
   * The filter keeps list order: filtering a prefix of the list gives a
   * prefix of the filtered list.
   */
  lemma {:induction false} FilterRowsPrefix(list: seq<Record>, minRssi: int, i: nat)
    requires i <= |list|
    ensures FilterRows(list[..i], minRssi) <= FilterRows(list, minRssi)
    decreases |list|
  {
    if i < |list| {
      var init := list[..|list| - 1];
      assert list[..i] == init[..i];
      FilterRowsPrefix(init, minRssi, i);
    } else {
      assert list[..i] == list;
    }
  }

  /**
   * With the fallback threshold of -100 an inactive row is always kept and an
   * active row is dropped only when its real RSSI is below -100.
   */
  lemma DefaultFilter(list: seq<Record>, b: Record)
    requires b in list
    ensures b in FilterRows(list, MinRssi(None)) <==> !b.isActive || b.rssi >= -100
  {
  }

  function NameKey(b: Record): seq<int> { CodePoints(Lower(b.nome)) }
  function MacKey(b: Record): seq<int> { CodePoints(b.mac) }
  function RssiKey(b: Record): seq<int> { [if b.isActive then b.rssi else InactiveSortKey] }

  /** `sort_key` for each column; the status column uses the snapshot's `(is_active, rssi)`. */
  function KeyFor(c: Column): Record -> seq<int> {
    match c
    case Nome => NameKey
    case Mac => MacKey
    case Rssi => RssiKey
    case Status => StatusKey
  }

  /** The rows `refresh_table` shows, top to bottom. */
  function TableRows(list: seq<Record>, spin: Option<int>, s: SortState): seq<Record> {
    SortBy(FilterRows(list, MinRssi(spin)), KeyFor(s.col), s.reverse)
  }

  /**
   * The table shows exactly the filtered rows, each as often as it occurs in
   * the list, ordered by the chosen column and direction, with equal keys in
   * list order.
   */
  lemma TableRowsSpec(list: seq<Record>, spin: Option<int>, s: SortState, k: seq<int>)
    ensures multiset(TableRows(list, spin, s)) == multiset(FilterRows(list, MinRssi(spin)))
    ensures Sorted(TableRows(list, spin, s), KeyFor(s.col), s.reverse)
    ensures Select(TableRows(list, spin, s), KeyFor(s.col), k) == Select(FilterRows(list, MinRssi(spin)), KeyFor(s.col), k)
  {
    var f := FilterRows(list, MinRssi(spin));
    SortByPerm(f, KeyFor(s.col), s.reverse);
    SortBySorted(f, KeyFor(s.col), s.reverse);
    SortByStable(f, KeyFor(s.col), s.reverse, k);
  }

  /**
   * Sorting by RSSI descending puts every inactive row after every active row
   * whose RSSI is above -999, and active rows in non-increasing RSSI.
   */
  lemma RssiDescending(list: seq<Record>, spin: Option<int>)
    ensures var t := TableRows(list, spin, SortState(Rssi, true));
            forall i, j :: 0 <= i < j < |t| ==>
              && !(!t[i].isActive && t[j].isActive && t[j].rssi > InactiveSortKey)
              && (t[i].isActive && t[j].isActive ==> t[i].rssi >= t[j].rssi)
  {
    var t := TableRows(list, spin, SortState(Rssi, true));
    SortBySorted(FilterRows(list, MinRssi(spin)), RssiKey, true);
    forall i, j | 0 <= i < j < |t|
      ensures !(!t[i].isActive && t[j].isActive && t[j].rssi > InactiveSortKey)
      ensures t[i].isActive && t[j].isActive ==> t[i].rssi >= t[j].rssi
    {
      assert LexLe(RssiKey(t[j]), RssiKey(t[i]));
      assert RssiKey(t[j])[1..] == [] && RssiKey(t[i])[1..] == [];
    }
  }

  /** Sorting by status lists active rows first, each group by non-increasing RSSI when descending. */
  lemma StatusDescending(list: seq<Record>, spin: Option<int>)
    ensures var t := TableRows(list, spin, SortState(Status, true));
            forall i, j :: 0 <= i < j < |t| ==>
              && (t[i].isActive || !t[j].isActive)
              && (t[i].isActive == t[j].isActive ==> t[i].rssi >= t[j].rssi)
  {
    var t := TableRows(list, spin, SortState(Status, true));
    SortBySorted(FilterRows(list, MinRssi(spin)), StatusKey, true);
    forall i, j | 0 <= i < j < |t|
      ensures (t[i].isActive || !t[j].isActive) && (t[i].isActive == t[j].isActive ==> t[i].rssi >= t[j].rssi)
    {
      assert LexLe(StatusKey(t[j]), StatusKey(t[i]));
      LexLePair(if t[j].isActive then 1 else 0, t[j].rssi, if t[i].isActive then 1 else 0, t[i].rssi);
    }
  }

  /** The status, RSSI and tag cells of one table row. */
  datatype RowView = RowView(status: string, rssiText: string, tag: string)

  function ViewOf(b: Record): (v: RowView)
    ensures v.rssiText == "---" <==> !b.isImported && !b.isActive
    ensures v.rssiText != "---" ==> v.rssiText == FormatInt(b.rssi) + " dBm"
  {
    if b.isImported then RowView("📘 Importado", FormatInt(b.rssi) + " dBm", "importado")
    else if b.isActive then RowView("🟢 Online", FormatInt(b.rssi) + " dBm", "online")
    else RowView("🔴 Offline", "---", "offline")
  }

  /** The plot window choice: "Tudo" is the whole capacity, otherwise the number of seconds. */
  function WindowLimit(selection: string): (r: Option<int>)
    ensures selection == "Tudo" ==> r == Some(MaxPlotHistory)
  {
    if selection == "Tudo" then Some(MaxPlotHistory) else ParseInt(RemoveChar(selection, 's'))
  }

  /** Python's `s[start:]`, with a negative start counted from the end. */
  function SliceFrom(s: seq<int>, start: int): seq<int> {
    if start < 0 then (if |s| + start < 0 then s else s[|s| + start..])
    else if start > |s| then []
    else s[start..]
  }

  /** `list(series)[-limit:]`: the samples plotted. */
  function PlotData(series: seq<int>, limit: int): (r: seq<int>)
    ensures limit > 0 ==> |r| == (if limit < |series| then limit else |series|)
    ensures limit > 0 ==> forall i :: 0 <= i < |r| ==> r[i] == series[|series| - |r| + i]
    ensures limit == 0 ==> r == series
  {
    SliceFrom(series, -limit)
  }

  lemma ParseTwoDigits(s: string)
    requires |s| == 2 && IsDigit(s[0]) && IsDigit(s[1])
    ensures ParseInt(s) == Some(DigitValue(s[0]) * 10 + DigitValue(s[1]))
  {
    assert AllDigits(s);
    assert s[..1][..0] == [] && s[..1][0] == s[0];
    assert DigitsValue(s[..1]) == DigitValue(s[0]);
    assert DigitsValue(s) == DigitsValue(s[..1]) * 10 + DigitValue(s[1]);
  }

  lemma ParseThreeDigits(s: string)
    requires |s| == 3 && IsDigit(s[0]) && IsDigit(s[1]) && IsDigit(s[2])
    ensures ParseInt(s) == Some(DigitValue(s[0]) * 100 + DigitValue(s[1]) * 10 + DigitValue(s[2]))
  {
    assert AllDigits(s);
    var p := s[..2];
    assert p[..1][..0] == [] && p[..1][0] == s[0] && p[1] == s[1];
    assert DigitsValue(p[..1]) == DigitValue(s[0]);
    assert DigitsValue(p) == DigitValue(s[0]) * 10 + DigitValue(s[1]);
    assert DigitsValue(s) == DigitsValue(p) * 10 + DigitValue(s[2]);
  }

  lemma {:induction false} RemoveSuffixS(d: string)
    requires forall i :: 0 <= i < |d| ==> d[i] != 's'
    ensures RemoveChar(d + "s", 's') == d
  {
    if d != [] {
      assert (d + "s")[1..] == d[1..] + "s";
      RemoveSuffixS(d[1..]);
      assert d == [d[0]] + d[1..];
    } else {
      assert RemoveChar("s"[1..], 's') == [];
    }
  }

  /** A selection "<digits>s" yields the number of seconds its digits spell. */
  lemma SecondsWindow(d: string, n: int)
    requires forall i :: 0 <= i < |d| ==> d[i] != 's'
    requires ParseInt(d) == Some(n)
    ensures WindowLimit(d + "s") == Some(n)
  {
    RemoveSuffixS(d);
    var t := d + "s";
    assert t[|t| - 1] == 's';
    assert t != "Tudo";
  }

  /** Each window the selector offers ("30s", "60s", "120s", "300s", "Tudo") yields its length. */
  lemma OfferedWindows()
    ensures WindowLimit("30s") == Some(30)
    ensures WindowLimit("60s") == Some(60)
    ensures WindowLimit("120s") == Some(120)
    ensures WindowLimit("300s") == Some(300)
    ensures WindowLimit("Tudo") == Some(3600)
  {
    ParseTwoDigits("30");
    SecondsWindow("30", 30);
    assert "30s" == "30" + "s";
    ParseTwoDigits("60");
    SecondsWindow("60", 60);
    assert "60s" == "60" + "s";
    ParseThreeDigits("120");
    SecondsWindow("120", 120);
    assert "120s" == "120" + "s";
    ParseThreeDigits("300");
    SecondsWindow("300", 300);
    assert "300s" == "300" + "s";
  }

}
