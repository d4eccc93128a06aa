/** The Drivers screen: the column-click sort state, the name search, the
    per-row completed/active counts and the sorted table they produce. */
module Drivers {
  import opened Records
  import opened Seqs
  import Text
  import Sorting

  /** The table's `order` and `orderBy` state. */
  datatype SortState = SortState(order: Sorting.Direction, orderBy: string)

  /** The state the screen starts in: ascending by name. */
  const InitialSort := SortState(Sorting.Asc, "name")

  /** `handleRequestSort(event, property)`: a click on the column already
      sorted ascending turns it descending; every other click sorts the
      clicked column ascending. */
  function RequestSort(s: SortState, property: string): (s': SortState)
    ensures s'.orderBy == property
    ensures s'.order == Sorting.Desc <==> s.orderBy == property && s.order == Sorting.Asc
  {
    var isAsc := s.orderBy == property && s.order == Sorting.Asc;
    SortState(if isAsc then Sorting.Desc else Sorting.Asc, property)
  }

  /** Two clicks on one column: starting from that column ascending they
      come back to it; from any other state they end descending on it. */
  lemma RequestSortTwice(s: SortState, property: string)
    ensures var twice := RequestSort(RequestSort(s, property), property);
            twice == if s == SortState(Sorting.Asc, property)
                     then s else SortState(Sorting.Desc, property)
  {
  }

  /** From the initial state, a first click on "name" sorts descending and
      a first click on any other column sorts it ascending. */
  lemma FirstClick(property: string)
    ensures RequestSort(InitialSort, property).order ==
            if property == "name" then Sorting.Desc else Sorting.Asc
  {
  }

  /** A history entry that records a completed load. */
  predicate IsCompletedEntry(entry: string)
  {
    Text.Contains(entry, "Completed")
  }

  /** `driver.history || []`: a falsy history reads as an empty list. */
  function HistoryOrEmpty(h: History): History
  {
    match h
    case NoHistory => Entries([])
    case NotAList(truthy) => if truthy then h else Entries([])
    case Entries(_) => h
  }

  /** The "Completed Loads" cell: entries mentioning "Completed" when the
      history is a list, 0 otherwise. */
  function CompletedLoads(d: Driver): (n: nat)
    ensures d.history.Entries? ==> n == Count(d.history.entries, IsCompletedEntry)
    ensures !d.history.Entries? ==> n == 0
  {
    match HistoryOrEmpty(d.history)
    case Entries(es) => Count(es, IsCompletedEntry)
    case _ => 0
  }

  /** The "Active Loads" cell: `(driver.loads || []).length`. */
  function ActiveLoads(d: Driver): (n: nat)
    ensures d.loads.None? ==> n == 0
    ensures d.loads.Some? ==> n == |d.loads.value|
  {
    match d.loads
    case None => 0
    case Some(ls) => |ls|
  }

  /** The search predicate, for a driver that has a name. */
  predicate NameMatches(d: Driver, term: string)
  {
    d.name.Some? && Text.Contains(Text.Lower(d.name.value), Text.Lower(term))
  }

  function NameMatcher(term: string): Driver -> bool
  {
    (d: Driver) => NameMatches(d, term)
  }

  /** `filteredDrivers`. `driver.name.toLowerCase()` throws on a driver
      with no name, which aborts the render: that outcome is `None`.
      Otherwise the drivers whose lowercased name contains the lowercased
      term are kept, in order. */
  function FilterDrivers(ds: seq<Driver>, term: string): (r: Option<seq<Driver>>)
    ensures r.None? <==> exists i :: 0 <= i < |ds| && ds[i].name.None?
    ensures r.Some? ==> IsSubsequence(r.value, ds)
    ensures r.Some? ==> |r.value| == Count(ds, NameMatcher(term))
    ensures r.Some? ==> forall i :: 0 <= i < |r.value| ==> NameMatches(r.value[i], term)
    ensures r.Some? ==> forall i :: 0 <= i < |ds| && NameMatches(ds[i], term) ==> ds[i] in r.value
  {
    if exists i :: 0 <= i < |ds| && ds[i].name.None? then None
    else Some(Filter(ds, NameMatcher(term)))
  }

  /** An empty search keeps every driver, in order. */
  lemma EmptySearchKeepsAll(ds: seq<Driver>)
    requires forall i :: 0 <= i < |ds| ==> ds[i].name.Some?
    ensures FilterDrivers(ds, "") == Some(ds)
  {
    forall i | 0 <= i < |ds|
      ensures NameMatches(ds[i], "")
    {
      Text.EmptyOccursEverywhere(Text.Lower(ds[i].name.value));
    }
    FilterKeepsAll(ds, NameMatcher(""));
  }

  /** JavaScript's `<` on strings is a strict total order, so the table
      may be sorted by a text column. */
  lemma StringLessIsStrictTotalOrder()
    ensures Sorting.StrictTotalOrder(Text.Less)
  {
    forall x: string
      ensures !Text.Less(x, x)
    {
      Text.LessIrreflexive(x);
    }
    forall x: string, y: string, z: string | Text.Less(x, y) && Text.Less(y, z)
      ensures Text.Less(x, z)
    {
      Text.LessTransitive(x, y, z);
    }
    forall x: string, y: string | x != y
      ensures Text.Less(x, y) || Text.Less(y, x)
    {
      Text.LessConnected(x, y);
    }
  }

  /** The name column's value; every driver that reaches the table has a
      name, since the search throws otherwise. */
  function NameKey(d: Driver): string
  {
    if d.name.Some? then d.name.value else ""
  }

  /** The rendered table: `stableSort(filteredDrivers, getComparator(order,
      orderBy))`, with the column abstracted as `key` and its `<` as `lt`.
      It lists exactly the filtered drivers, in column order. */
  function Table<K(!new)>(ds: seq<Driver>, term: string, order: Sorting.Direction,
                         key: Driver -> K, lt: (K, K) -> bool): (r: Option<seq<Driver>>)
    requires Sorting.StrictTotalOrder(lt)
    ensures r.Some? <==> FilterDrivers(ds, term).Some?
    ensures r.Some? ==> multiset(r.value) == multiset(FilterDrivers(ds, term).value)
    ensures r.Some? ==> forall i, j :: 0 <= i < j < |r.value| ==>
              Sorting.GetComparator(order, key, lt)(r.value[i], r.value[j]) <= 0
  {
    match FilterDrivers(ds, term)
    case None => None
    case Some(shown) =>
      Sorting.GetComparatorConsistent(order, key, lt);
      Some(Sorting.StableSort(shown, Sorting.GetComparator(order, key, lt)))
  }

  /** In the initial state the table is alphabetical by name. */
  lemma InitialTableIsAlphabetical(ds: seq<Driver>, term: string)
    ensures (StringLessIsStrictTotalOrder();
             var t := Table(ds, term, InitialSort.order, NameKey, Text.Less);
             t.Some? ==> forall i, j :: 0 <= i < j < |t.value| ==> !Text.Less(NameKey(t.value[j]), NameKey(t.value[i])))
  {
    StringLessIsStrictTotalOrder();
    match FilterDrivers(ds, term)
    case None =>
    case Some(shown) =>
      Sorting.DirectionOrdersKeys(shown, Sorting.Asc, NameKey, Text.Less);
  }
}
