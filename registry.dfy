/**
 * The persistent beacon registry of `BeaconScanner`: one entry per MAC
 * address ever seen, upserted by the advertisement callback, and the
 * snapshot that classifies each entry as active or inactive and orders
 * the list for display.
 */
module Registry {
  import opened Wrappers
  import opened Text
  import opened Sorting

  /** Name given to a device that advertises no name. */
  const Unknown: string := "Desconhecido"

  /** One registry entry; the manufacturer data is opaque and never read. */
  datatype Entry = Entry(nome: string, mac: string, rssi: int, lastSeen: int)

  /**
   * A record handed to the display: a copy of an entry with the `is_active`
   * flag added, or an entry rebuilt from an imported log (`isImported`,
   * no last-seen time).
   */
  datatype Record = Record(mac: string, nome: string, rssi: int, lastSeen: Option<int>,
                           isActive: bool, isImported: bool)

  /** Python truthiness of an optional string: present and non-empty. */
  predicate Truthy(s: Option<string>) {
    s.Some? && s.value != ""
  }

  /** `local_name or device.name or "Desconhecido"`. */
  function ResolveName(localName: Option<string>, deviceName: Option<string>): (r: string)
    ensures r != ""
    ensures Truthy(localName) ==> r == localName.value
    ensures !Truthy(localName) && Truthy(deviceName) ==> r == deviceName.value
    ensures !Truthy(localName) && !Truthy(deviceName) ==> r == Unknown
  {
    if Truthy(localName) then localName.value
    else if Truthy(deviceName) then deviceName.value
    else Unknown
  }

  /** The optional case-insensitive name filter. */
  predicate Matches(nameFilter: Option<string>, nome: string) {
    nameFilter.None? || IsSubstring(Lower(nameFilter.value), Lower(nome))
  }

  /** Seen within the last `timeout` seconds; the boundary counts as active. */
  predicate IsActive(e: Entry, now: int, timeout: int) {
    now - e.lastSeen <= timeout
  }

  /** The copy of an entry with its activity flag. */
  function Copy(e: Entry, now: int, timeout: int): Record {
    Record(e.mac, e.nome, e.rssi, Some(e.lastSeen), IsActive(e, now, timeout), false)
  }

  /**
   * The registry invariant: `order` lists every key exactly once, in the
   * order a Python dict iterates them (insertion order), and each entry
   * records its own key as its MAC.
   */
  ghost predicate RegistryOk(beacons: map<string, Entry>, order: seq<string>) {
    && (forall i :: 0 <= i < |order| ==> order[i] in beacons)
    && (forall m :: m in beacons ==> m in order)
    && (forall i, j :: 0 <= i < j < |order| ==> order[i] != order[j])
    && (forall m :: m in beacons ==> beacons[m].mac == m)
  }

  /** The records the snapshot loop appends, before sorting, in registry order. */
  function Collect(beacons: map<string, Entry>, order: seq<string>, now: int, timeout: int,
                   nameFilter: Option<string>): seq<Record>
    requires forall i :: 0 <= i < |order| ==> order[i] in beacons
  {
    if order == [] then []
    else
      var m := order[|order| - 1];
      Collect(beacons, order[..|order| - 1], now, timeout, nameFilter)
        + (if Matches(nameFilter, beacons[m].nome) then [Copy(beacons[m], now, timeout)] else [])
  }

  /** The snapshot sort key `(is_active, rssi)`. */
  function StatusKey(r: Record): seq<int> {
    [if r.isActive then 1 else 0, r.rssi]
  }

  /** What `get_all_beacons` returns: the collected copies sorted by `StatusKey`, descending. */
  function Snapshot(beacons: map<string, Entry>, order: seq<string>, now: int, timeout: int,
                    nameFilter: Option<string>): seq<Record>
    requires forall i :: 0 <= i < |order| ==> order[i] in beacons
  {
    SortBy(Collect(beacons, order, now, timeout, nameFilter), StatusKey, true)
  }

  lemma {:induction false} CollectContents(beacons: map<string, Entry>, order: seq<string>, now: int,
                                           timeout: int, nameFilter: Option<string>)
    requires forall i :: 0 <= i < |order| ==> order[i] in beacons
    requires forall i, j :: 0 <= i < j < |order| ==> order[i] != order[j]
    requires forall m :: m in beacons ==> beacons[m].mac == m
    ensures forall r :: r in Collect(beacons, order, now, timeout, nameFilter) ==>
              r.mac in order && r == Copy(beacons[r.mac], now, timeout) && Matches(nameFilter, r.nome)
    ensures forall m :: m in beacons ==>
              multiset(Collect(beacons, order, now, timeout, nameFilter))[Copy(beacons[m], now, timeout)]
              == if m in order && Matches(nameFilter, beacons[m].nome) then 1 else 0
    decreases |order|
  {
    if order != [] {
      var o := order[..|order| - 1];
      var x := order[|order| - 1];
      assert order == o + [x];
      CollectContents(beacons, o, now, timeout, nameFilter);
      forall m | m in beacons
        ensures multiset(Collect(beacons, order, now, timeout, nameFilter))[Copy(beacons[m], now, timeout)]
                == if m in order && Matches(nameFilter, beacons[m].nome) then 1 else 0
      {
        assert Copy(beacons[m], now, timeout) == Copy(beacons[x], now, timeout) <==> m == x;
        if m == x {
          assert m !in o;
        }
      }
    }
  }

  /**
   * `get_all_beacons` returns exactly one record per entry whose name passes
   * the filter (every entry when there is no filter), each a copy of that entry
   * whose `isActive` says it was seen within `timeout`, and nothing else.
   */
  lemma SnapshotContents(beacons: map<string, Entry>, order: seq<string>, now: int, timeout: int,
                         nameFilter: Option<string>)
    requires RegistryOk(beacons, order)
    ensures forall r :: r in Snapshot(beacons, order, now, timeout, nameFilter) ==>
              && r.mac in beacons
              && r == Copy(beacons[r.mac], now, timeout)
              && (r.isActive <==> now - beacons[r.mac].lastSeen <= timeout)
              && !r.isImported
              && Matches(nameFilter, r.nome)
    ensures forall m :: m in beacons ==>
              multiset(Snapshot(beacons, order, now, timeout, nameFilter))[Copy(beacons[m], now, timeout)]
              == if Matches(nameFilter, beacons[m].nome) then 1 else 0
  {
    var c := Collect(beacons, order, now, timeout, nameFilter);
    var s := Snapshot(beacons, order, now, timeout, nameFilter);
    CollectContents(beacons, order, now, timeout, nameFilter);
    SortByPerm(c, StatusKey, true);
    assert multiset(s) == multiset(c);
    forall r | r in s
      ensures r.mac in beacons && r == Copy(beacons[r.mac], now, timeout) && Matches(nameFilter, r.nome)
    {
      assert r in multiset(s);
      assert r in c;
    }
  }

  /** A value found at two positions of a sequence occurs in it at least twice. */
  lemma TwiceCounted<T>(s: seq<T>, i: nat, j: nat)
    requires i < j < |s| && s[i] == s[j]
    ensures multiset(s)[s[i]] >= 2
  {
    var pre, post := s[..j], s[j + 1..];
    assert s == pre + [s[j]] + post;
    assert pre[i] == s[i];
    assert multiset(s) == multiset(pre) + multiset([s[j]]) + multiset(post);
  }

  /** The snapshot holds at most one record per MAC. */
  lemma SnapshotDistinct(beacons: map<string, Entry>, order: seq<string>, now: int, timeout: int,
                         nameFilter: Option<string>)
    requires RegistryOk(beacons, order)
    ensures var s := Snapshot(beacons, order, now, timeout, nameFilter);
            forall i, j :: 0 <= i < j < |s| ==> s[i].mac != s[j].mac
  {
    var s := Snapshot(beacons, order, now, timeout, nameFilter);
    SnapshotContents(beacons, order, now, timeout, nameFilter);
    forall i, j | 0 <= i < j < |s| ensures s[i].mac != s[j].mac {
      if s[i].mac == s[j].mac {
        assert s[i] in s && s[j] in s;
        TwiceCounted(s, i, j);
        assert false;
      }
    }
  }

  /**
   * The snapshot lists every active record before every inactive one, and
   * within each group the signal strength does not increase.
   */
  lemma SnapshotOrdered(beacons: map<string, Entry>, order: seq<string>, now: int, timeout: int,
                        nameFilter: Option<string>)
    requires forall i :: 0 <= i < |order| ==> order[i] in beacons
    ensures var s := Snapshot(beacons, order, now, timeout, nameFilter);
            forall i, j :: 0 <= i < j < |s| ==>
              && (s[i].isActive || !s[j].isActive)
              && (s[i].isActive == s[j].isActive ==> s[i].rssi >= s[j].rssi)
  {
    var s := Snapshot(beacons, order, now, timeout, nameFilter);
    SortBySorted(Collect(beacons, order, now, timeout, nameFilter), StatusKey, true);
    forall i, j | 0 <= i < j < |s|
      ensures (s[i].isActive || !s[j].isActive) && (s[i].isActive == s[j].isActive ==> s[i].rssi >= s[j].rssi)
    {
      assert LexLe(StatusKey(s[j]), StatusKey(s[i]));
      LexLePair(if s[j].isActive then 1 else 0, s[j].rssi, if s[i].isActive then 1 else 0, s[i].rssi);
    }
  }

  /**
   * Ties keep registry insertion order: the records sharing a sort key
   * appear in the snapshot in the order the registry loop collected them.
   */
  lemma SnapshotStable(beacons: map<string, Entry>, order: seq<string>, now: int, timeout: int,
                       nameFilter: Option<string>, k: seq<int>)
    requires forall i :: 0 <= i < |order| ==> order[i] in beacons
    ensures Select(Snapshot(beacons, order, now, timeout, nameFilter), StatusKey, k)
         == Select(Collect(beacons, order, now, timeout, nameFilter), StatusKey, k)
  {
    SortByStable(Collect(beacons, order, now, timeout, nameFilter), StatusKey, true, k);
  }

  /**
   * The snapshot's order is fully determined: any list that is ordered by
   * `(is_active, rssi)` descending and keeps ties in registry order is it.
   */
  lemma SnapshotDetermined(beacons: map<string, Entry>, order: seq<string>, now: int, timeout: int,
                           nameFilter: Option<string>, r: seq<Record>)
    requires forall i :: 0 <= i < |order| ==> order[i] in beacons
    requires Sorted(r, StatusKey, true)
    requires forall k :: Select(r, StatusKey, k) == Select(Collect(beacons, order, now, timeout, nameFilter), StatusKey, k)
    ensures r == Snapshot(beacons, order, now, timeout, nameFilter)
  {
    StableSortUnique(Collect(beacons, order, now, timeout, nameFilter), r, StatusKey, true);
  }

  class BeaconScanner {
    /** `self.beacons`: MAC to latest observation. */
    var beacons: map<string, Entry>
    /** The iteration order of `self.beacons` (first insertion of each key). */
    var order: seq<string>

    ghost predicate Valid()
      reads this
    {
      RegistryOk(beacons, order)
    }

    constructor ()
      ensures Valid() && beacons == map[] && order == []
    {
      beacons := map[];
      order := [];
    }

    /**
     * `_callback`: upserts the entry for `mac`, stamping it with `now`.
     * Every other entry is left as it was and no key is ever removed.
     */
    method Callback(mac: string, localName: Option<string>, deviceName: Option<string>,
                    rssi: int, now: int)
      requires Valid()
      modifies this
      ensures Valid()
      ensures beacons == old(beacons)[mac := Entry(ResolveName(localName, deviceName), mac, rssi, now)]
      ensures beacons.Keys == old(beacons).Keys + {mac}
      ensures forall m :: m in old(beacons) && m != mac ==> beacons[m] == old(beacons)[m]
      ensures order == if mac in old(beacons) then old(order) else old(order) + [mac]
    {
      var nome := ResolveName(localName, deviceName);
      if mac !in beacons {
        order := order + [mac];
      }
      beacons := beacons[mac := Entry(nome, mac, rssi, now)];
    }

    /**
     * `get_all_beacons`: copies every entry passing the name filter in
     * registry order, marks it active when seen within `timeout` of `now`,
     * and sorts by `(is_active, rssi)` descending. The registry is not changed,
     * so two calls with the same clock and no callback between them agree.
     */
    method GetAllBeacons(now: int, timeout: int, nameFilter: Option<string>) returns (result: seq<Record>)
      requires Valid()
      ensures result == Snapshot(beacons, order, now, timeout, nameFilter)
    {
      var items := order;
      result := [];
      var i := 0;
      while i < |items|
        invariant 0 <= i <= |items|
        invariant result == Collect(beacons, items[..i], now, timeout, nameFilter)
      {
        var data := beacons[items[i]];
        if nameFilter.None? || IsSubstring(Lower(nameFilter.value), Lower(data.nome)) {
          var isActive := now - data.lastSeen <= timeout;
          result := result + [Record(data.mac, data.nome, data.rssi, Some(data.lastSeen), isActive, false)];
        }
        assert items[..i + 1][..i] == items[..i];
        i := i + 1;
      }
      assert items[..i] == items;
      result := SortBy(result, StatusKey, true);
    }

    /** `self.beacons.clear()`. */
    method Clear()
      modifies this
      ensures Valid() && beacons == map[] && order == []
    {
      beacons := map[];
      order := [];
    }
  }
}
