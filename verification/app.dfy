/** The root component: the authoritative Loads collection and its
    synchronisation with the remote store (`handleUpdateLoad`), the
    initial load of all three collections (`fetchData`), and the chart
    data derived from them (`driverChartData`, `statusData`).

    The remote Loads collection is a map from document id to document
    fields. Each remote call's outcome comes from a `Remote` oracle: the
    id the store assigns on creation, whether the write throws, whether
    each re-fetch throws, and the order in which the store lists its
    documents. */
module App {
  import opened Records
  import opened Seqs
  import Drivers

  /** The remote Loads collection: document id to stored fields. */
  type Store = map<string, Load>

  /** The local record built from a listed document:
      `{ id: doc.id, ...doc.data() }`. A stored `id` field, being spread
      last, wins over the document id. */
  function Listed(key: string, doc: Load): Load
  {
    if doc.id.Some? then doc else doc.(id := Some(key))
  }

  /** `order` lists every key of the store exactly once. */
  ghost predicate Enumerates(order: seq<string>, keys: set<string>)
  {
    && Distinct(order)
    && (forall i :: 0 <= i < |order| ==> order[i] in keys)
    && (forall k :: k in keys ==> k in order)
  }

  /** What `fetchLoads` stores locally: the listing of the collection. */
  function Listing(store: Store, order: seq<string>): (docs: seq<Load>)
    requires forall i :: 0 <= i < |order| ==> order[i] in store
    ensures |docs| == |order|
    ensures forall i :: 0 <= i < |order| ==> docs[i] == Listed(order[i], store[order[i]])
  {
    seq(|order|, i requires 0 <= i < |order| => Listed(order[i], store[order[i]]))
  }

  /** No stored document carries an `id` field of its own, so every
      listed record's id is its document id. */
  predicate Clean(store: Store)
  {
    forall k :: k in store ==> store[k].id.None?
  }

  /** The remote store's answers during one `handleUpdateLoad` call. */
  datatype Remote = Remote(
    freshId: string,     // the id `addDoc` assigns
    writeFails: bool,    // `deleteDoc` / `setDoc` / `addDoc` throws
    fetchFails: bool,    // the first `fetchLoads` throws
    retryFails: bool,    // the catch block's `fetchLoads` throws
    order: seq<string>)  // the order of the store's listing

  /** The remote collection and the component's `loads` state. */
  datatype LoadsState = LoadsState(store: Store, local: seq<Load>)

  /** The write and local update of the `try` block; `ok` is false when
      the remote call threw, in which case nothing changed. */
  datatype Step = Step(state: LoadsState, ok: bool)

  /** The end of a `handleUpdateLoad` call: its state, how many times it
      fetched the collection, and whether its promise rejected (the
      catch block's own re-fetch threw). */
  datatype Update = Update(state: LoadsState, fetches: nat, rejected: bool)

  /** `load => load.id !== id` */
  function OtherId(id: Option<string>): Load -> bool
  {
    (l: Load) => l.id != id
  }

  /** The store keys a delete of `id` leaves in place. */
  function OtherKey(id: Option<string>): string -> bool
  {
    (k: string) => Some(k) != id
  }

  /** The delete branch: `deleteDoc`, then
      `currentLoads.filter(load => load.id !== id)`. The document leaves
      the store and every local record with that id leaves the list; all
      else stays, in order. */
  function DeleteStep(s: LoadsState, id: string): (t: LoadsState)
    ensures t.store.Keys == s.store.Keys - {id}
    ensures forall k :: k in t.store ==> t.store[k] == s.store[k]
    ensures IsSubsequence(t.local, s.local)
    ensures |t.local| == Count(s.local, OtherId(Some(id)))
    ensures forall i :: 0 <= i < |t.local| ==> t.local[i].id != Some(id)
    ensures forall i :: 0 <= i < |s.local| && s.local[i].id != Some(id) ==> s.local[i] in t.local
  {
    LoadsState(s.store - {id}, Filter(s.local, OtherId(Some(id))))
  }

  /** The overwrite branch: `setDoc` of every field but `id`, without
      merge, so fields the input lacks are dropped from the document; then
      every local record with that id is replaced by the input. */
  function OverwriteStep(s: LoadsState, input: Load): (t: LoadsState)
    requires Truthy(input.id)
    ensures t.store.Keys == s.store.Keys + {input.id.value}
    ensures t.store[input.id.value] == input.(id := None)
    ensures forall k :: k in s.store && k != input.id.value ==> t.store[k] == s.store[k]
    ensures |t.local| == |s.local|
    ensures forall i :: 0 <= i < |s.local| && s.local[i].id == input.id ==> t.local[i] == input
    ensures forall i :: 0 <= i < |s.local| && s.local[i].id != input.id ==> t.local[i] == s.local[i]
  {
    LoadsState(
      s.store[input.id.value := input.(id := None)],
      seq(|s.local|, i requires 0 <= i < |s.local| => if s.local[i].id == input.id then input else s.local[i]))
  }

  /** The create branch: `addDoc` of the whole input under a fresh id,
      then the input with that id appended to the list. The store gains
      exactly one document. */
  function CreateStep(s: LoadsState, input: Load, freshId: string): (t: LoadsState)
    requires freshId !in s.store
    ensures t.store.Keys == s.store.Keys + {freshId}
    ensures |t.store| == |s.store| + 1
    ensures t.store[freshId] == input
    ensures forall k :: k in s.store ==> t.store[k] == s.store[k]
    ensures t.local == s.local + [input.(id := Some(freshId))]
  {
    LoadsState(s.store[freshId := input], s.local + [input.(id := Some(freshId))])
  }

  /** The id `addDoc` assigns is new to the store; only the create branch
      asks the store for one. */
  predicate CreatesFresh(s: LoadsState, input: Load, r: Remote)
  {
    input.deleted || Truthy(input.id) || r.freshId !in s.store
  }

  /** The `try` block of `handleUpdateLoad` up to its re-fetch. A truthy
      `deleted` wins; otherwise a truthy id overwrites and a falsy one
      creates. `doc(db, "Loads", id)` throws for a missing or empty id,
      so such a delete fails like a failed remote call, and a failed call
      changes nothing. */
  function Write(s: LoadsState, input: Load, r: Remote): (w: Step)
    requires CreatesFresh(s, input, r)
    ensures w.ok <==> !r.writeFails && (input.deleted ==> Truthy(input.id))
    ensures !w.ok ==> w.state == s
    ensures w.ok && input.deleted ==> w.state.local == Filter(s.local, OtherId(input.id))
    ensures w.ok && !input.deleted && Truthy(input.id) ==>
              && |w.state.local| == |s.local|
              && (forall i :: 0 <= i < |s.local| ==>
                    w.state.local[i] == if s.local[i].id == input.id then input else s.local[i])
    ensures w.ok && !input.deleted && !Truthy(input.id) ==>
              w.state.local == s.local + [input.(id := Some(r.freshId))]
  {
    if r.writeFails then Step(s, false)
    else if input.deleted then
      if !Truthy(input.id) then Step(s, false)
      else Step(DeleteStep(s, input.id.value), true)
    else if Truthy(input.id) then Step(OverwriteStep(s, input), true)
    else Step(CreateStep(s, input, r.freshId), true)
  }

  /** The re-fetch that ends every call: `await fetchLoads()` after the
      write, and the catch block's `await fetchLoads()` when the write or
      that first fetch threw. */
  function Reconcile(w: Step, r: Remote): (u: Update)
    requires Enumerates(r.order, w.state.store.Keys)
    ensures u.state.store == w.state.store
    ensures 1 <= u.fetches <= 2
    ensures u.fetches == 2 <==> w.ok && r.fetchFails
    ensures u.rejected <==> r.fetchFails && (!w.ok || r.retryFails)
    ensures !u.rejected ==> u.state.local == Listing(w.state.store, r.order)
    ensures u.rejected ==> u.state.local == w.state.local
  {
    var listing := Listing(w.state.store, r.order);
    if !r.fetchFails then Update(w.state.(local := listing), 1, false)
    else if !w.ok then Update(w.state, 1, true)
    else if !r.retryFails then Update(w.state.(local := listing), 2, false)
    else Update(w.state, 2, true)
  }

  /** The store as it stands after the write of `handleUpdateLoad`: a
      failed call leaves it as it was; a delete removes the document; an
      overwrite replaces the document wholesale by the input without its
      id; a create adds the input under the fresh id. */
  function StoreAfter(s: LoadsState, input: Load, r: Remote): (st: Store)
    requires CreatesFresh(s, input, r)
    ensures r.writeFails ==> st == s.store
    ensures input.deleted && !Truthy(input.id) ==> st == s.store
    ensures !r.writeFails && input.deleted && Truthy(input.id) ==> st == s.store - {input.id.value}
    ensures !r.writeFails && !input.deleted && Truthy(input.id) ==>
              st == s.store[input.id.value := input.(id := None)]
    ensures !r.writeFails && !input.deleted && !Truthy(input.id) ==> st == s.store[r.freshId := input]
  {
    Write(s, input, r).state.store
  }

  /** `handleUpdateLoad(updatedLoad)`: the write, then the mandatory
      re-fetch. Whichever way the write went, the call fetches the
      collection, the store ends as `StoreAfter` says, and unless every
      fetch it tried threw, the local list ends equal to the store's
      listing. */
  function UpdateLoad(s: LoadsState, input: Load, r: Remote): (u: Update)
    requires CreatesFresh(s, input, r)
    requires Enumerates(r.order, StoreAfter(s, input, r).Keys)
    ensures u.fetches >= 1
    ensures u.state.store == StoreAfter(s, input, r)
    ensures !u.rejected ==> u.state.local == Listing(u.state.store, r.order)
    ensures u.rejected ==> u.state.local == Write(s, input, r).state.local
    ensures u.rejected <==> r.fetchFails && (r.writeFails || (input.deleted && !Truthy(input.id)) || r.retryFails)
  {
    Reconcile(Write(s, input, r), r)
  }

  /** Listing a clean store gives each record its document id, so the
      local ids after a successful re-fetch are distinct. */
  lemma CleanListingHasDistinctIds(store: Store, order: seq<string>)
    requires Clean(store)
    requires Enumerates(order, store.Keys)
    ensures var docs := Listing(store, order);
            && (forall i :: 0 <= i < |docs| ==> docs[i].id == Some(order[i]))
            && (forall i, j :: 0 <= i < j < |docs| ==> docs[i].id != docs[j].id)
  {
  }

  /** Writes keep the store clean, except a create whose input carries an
      empty id, which is stored verbatim. */
  lemma WritePreservesClean(s: LoadsState, input: Load, r: Remote)
    requires CreatesFresh(s, input, r)
    requires Clean(s.store)
    requires input.id != Some("")
    ensures Clean(StoreAfter(s, input, r))
  {
  }

  /** Filtering a listing by id lists the store without that document, in
      the filtered order. */
  lemma {:induction false} ListingWithout(store: Store, order: seq<string>, id: string)
    requires Clean(store)
    requires forall i :: 0 <= i < |order| ==> order[i] in store
    ensures forall i :: 0 <= i < |Filter(order, OtherKey(Some(id)))| ==>
              Filter(order, OtherKey(Some(id)))[i] in store - {id}
    ensures Filter(Listing(store, order), OtherId(Some(id))) ==
            Listing(store - {id}, Filter(order, OtherKey(Some(id))))
  {
    var p, q := OtherKey(Some(id)), OtherId(Some(id));
    var rest := Filter(order, p);
    assert forall i :: 0 <= i < |rest| ==> rest[i] in order && p(rest[i]);
    if |order| > 0 {
      var head := Listed(order[0], store[order[0]]);
      ListingCons(store, order);
      ListingWithout(store, order[1..], id);
      var tail := Filter(order[1..], p);
      FilterCons(head, Listing(store, order[1..]), q);
      if p(order[0]) {
        assert rest == [order[0]] + tail;
        ListingCons(store - {id}, rest);
        assert rest[1..] == tail;
      }
    }
  }

  lemma ListingCons(store: Store, order: seq<string>)
    requires |order| > 0
    requires forall i :: 0 <= i < |order| ==> order[i] in store
    ensures Listing(store, order) == [Listed(order[0], store[order[0]])] + Listing(store, order[1..])
  {
  }

  /** On a listing, the optimistic delete leaves exactly the listing of the
      new store, in the old order with the deleted key dropped. */
  lemma DeleteAgreesWithStore(store: Store, order: seq<string>, id: string)
    requires Clean(store)
    requires Enumerates(order, store.Keys)
    ensures var t := DeleteStep(LoadsState(store, Listing(store, order)), id);
            var rest := Filter(order, OtherKey(Some(id)));
            Enumerates(rest, t.store.Keys) && t.local == Listing(t.store, rest)
  {
    var rest := Filter(order, OtherKey(Some(id)));
    ListingWithout(store, order, id);
    FilterDistinct(order, OtherKey(Some(id)));
    forall k | k in store.Keys - {id}
      ensures k in rest
    {
      var i :| 0 <= i < |order| && order[i] == k;
    }
  }

  /** On a listing, the optimistic overwrite of a stored document leaves
      exactly the listing of the new store, in the same order. */
  lemma OverwriteAgreesWithStore(store: Store, order: seq<string>, input: Load)
    requires Clean(store)
    requires Enumerates(order, store.Keys)
    requires Truthy(input.id) && input.id.value in store
    ensures var t := OverwriteStep(LoadsState(store, Listing(store, order)), input);
            Enumerates(order, t.store.Keys) && t.local == Listing(t.store, order)
  {
    var t := OverwriteStep(LoadsState(store, Listing(store, order)), input);
    forall i | 0 <= i < |order|
      ensures t.local[i] == Listed(order[i], t.store[order[i]])
    {
      assert Listing(store, order)[i].id == Some(order[i]);
    }
  }

  /** On a listing, the optimistic create of a load without an id leaves
      exactly the listing of the new store, with the new key last. */
  lemma CreateAgreesWithStore(store: Store, order: seq<string>, input: Load, freshId: string)
    requires Clean(store)
    requires Enumerates(order, store.Keys)
    requires freshId !in store && input.id.None?
    ensures var t := CreateStep(LoadsState(store, Listing(store, order)), input, freshId);
            Enumerates(order + [freshId], t.store.Keys) && t.local == Listing(t.store, order + [freshId])
  {
    var t := CreateStep(LoadsState(store, Listing(store, order)), input, freshId);
    var order' := order + [freshId];
    forall i | 0 <= i < |order'|
      ensures t.local[i] == Listed(order'[i], t.store[order'[i]])
    {
      if i < |order| {
        assert t.local[i] == t.local[..|order|][i];
      }
    }
  }

  /** The optimistic overwrite of a document the store no longer has
      recreates it remotely but not locally: only the re-fetch brings the
      two back together. */
  lemma OverwriteOfMissingDocumentDiverges(input: Load)
    requires Truthy(input.id)
    ensures var t := OverwriteStep(LoadsState(map[], []), input);
            input.id.value in t.store && t.local == []
  {
  }

  /** The scenario of an empty collection taken through create, edit and
      delete with a cooperating store: one record with the new id after
      the create, the same single record relabelled after the edit, and
      an empty collection after the delete. */
  lemma CreateEditDeleteScenario(created: Load, edited: Load, id: string)
    requires id != ""
    requires created.id.None? && !created.deleted
    requires edited.id == Some(id) && !edited.deleted
    ensures var s0 := LoadsState(map[], []);
            var u1 := UpdateLoad(s0, created, Remote(id, false, false, false, [id]));
            && u1.state.local == [created.(id := Some(id))]
            && var u2 := UpdateLoad(u1.state, edited, Remote(id + "x", false, false, false, [id]));
               && u2.state.local == [edited]
               && var u3 := UpdateLoad(u2.state, edited.(deleted := true), Remote(id + "x", false, false, false, []));
                  && u3.state.local == [] && u3.state.store == map[]
  {
    var s0 := LoadsState(map[], []);
    var u1 := UpdateLoad(s0, created, Remote(id, false, false, false, [id]));
    assert u1.state.store == map[id := created];
    assert id + "x" != id by {
      assert |id + "x"| != |id|;
    }
    var u2 := UpdateLoad(u1.state, edited, Remote(id + "x", false, false, false, [id]));
    assert u2.state.store == map[id := edited.(id := None)];
    assert u2.state.store.Keys == {id};
    var u3 := UpdateLoad(u2.state, edited.(deleted := true), Remote(id + "x", false, false, false, []));
    assert u3.state.store == map[];
  }

  /** The notifications the root component starts with. */
  const InitialNotifications: seq<Notification> := [
    Notification(1, "New load assigned", false),
    Notification(2, "Driver John updated status", false),
    Notification(3, "Load 12345 delivered", true)
  ]

  /** The three collections held by the root component, with its loading
      flags. */
  datatype Collections = Collections(
    drivers: seq<Driver>,
    dispatchers: seq<Dispatcher>,
    loads: seq<Load>,
    dataLoaded: bool,
    error: Option<string>)

  const InitialCollections := Collections([], [], [], false, None)

  const LoadFailure := "Failed to load data. Please try again."

  /** `fetchData`: the three fetches run together; each that succeeds
      stores its own result (there is no atomic swap), and loading always
      ends, with the fixed message when any fetch threw. `None` stands for
      a fetch that threw. */
  function FetchData(c: Collections, drivers: Option<seq<Driver>>,
                     dispatchers: Option<seq<Dispatcher>>, loads: Option<seq<Load>>): (c': Collections)
    ensures c'.dataLoaded
    ensures c'.error.None? <==> drivers.Some? && dispatchers.Some? && loads.Some?
    ensures c'.error.Some? ==> c'.error.value == LoadFailure
    ensures c'.drivers == if drivers.Some? then drivers.value else c.drivers
    ensures c'.dispatchers == if dispatchers.Some? then dispatchers.value else c.dispatchers
    ensures c'.loads == if loads.Some? then loads.value else c.loads
  {
    var ok := drivers.Some? && dispatchers.Some? && loads.Some?;
    Collections(
      if drivers.Some? then drivers.value else c.drivers,
      if dispatchers.Some? then dispatchers.value else c.dispatchers,
      if loads.Some? then loads.value else c.loads,
      true,
      if ok then None else Some(LoadFailure))
  }

  /** A failed fetch does not discard the collections the other fetches
      returned: the initial load is not all-or-nothing. */
  lemma FetchDataIsNotAtomic(d: Driver)
    ensures var c := FetchData(InitialCollections, Some([d]), Some([]), None);
            c.error == Some(LoadFailure) && c.drivers == [d]
  {
  }

  /** One bar of the driver performance chart. */
  datatype ChartRow = ChartRow(name: Option<string>, loads: nat, completed: nat)

  /** `driver.loads ? driver.loads.length : 0` and the history count
      `driver.history ? (Array.isArray(driver.history) ? … : 0) : 0`. */
  function ChartRowOf(d: Driver): (row: ChartRow)
    ensures row.name == d.name
    ensures row.loads == Drivers.ActiveLoads(d)
    ensures row.completed == Drivers.CompletedLoads(d)
  {
    ChartRow(
      d.name,
      if d.loads.Some? then |d.loads.value| else 0,
      match d.history
      case Entries(es) => Count(es, Drivers.IsCompletedEntry)
      case _ => 0)
  }

  /** `driverChartData`: one row per driver, in driver order. */
  function DriverChartData(ds: seq<Driver>): (rows: seq<ChartRow>)
    ensures |rows| == |ds|
    ensures forall i :: 0 <= i < |ds| ==> rows[i].name == ds[i].name
    ensures forall i :: 0 <= i < |ds| ==> rows[i].loads == Drivers.ActiveLoads(ds[i])
    ensures forall i :: 0 <= i < |ds| ==> rows[i].completed == Drivers.CompletedLoads(ds[i])
    ensures forall i :: 0 <= i < |ds| && ds[i].history.Entries? ==> rows[i].completed <= |ds[i].history.entries|
  {
    seq(|ds|, i requires 0 <= i < |ds| => ChartRowOf(ds[i]))
  }

  /** One slice of the status pie chart. */
  datatype StatusEntry = StatusEntry(name: string, value: nat)

  const StatusNames: seq<string> := ["In Transit", "Pending", "Delivered", "Unassigned"]

  /** `load.status === status` */
  function HasStatus(status: string): Load -> bool
  {
    (l: Load) => l.status == Some(status)
  }

  /** `statusData`: the four fixed statuses, each with the number of loads
      whose `status` is exactly that text. "Unassigned" is matched against
      `status` too, not against `assigned_to`. */
  function StatusData(loads: seq<Load>): (r: seq<StatusEntry>)
    ensures |r| == 4
    ensures forall i :: 0 <= i < 4 ==> r[i].name == StatusNames[i]
    ensures forall i :: 0 <= i < 4 ==> r[i].value == Count(loads, HasStatus(StatusNames[i]))
  {
    seq(4, i requires 0 <= i < 4 => StatusEntry(StatusNames[i], Count(loads, HasStatus(StatusNames[i]))))
  }

  /** A load has at most one status, so the four counts together never
      exceed the number of loads. */
  lemma {:induction false} StatusCountsBounded(loads: seq<Load>)
    ensures var r := StatusData(loads);
            r[0].value + r[1].value + r[2].value + r[3].value <= |loads|
  {
    if |loads| > 0 {
      StatusCountsBounded(loads[1..]);
    }
  }
}
