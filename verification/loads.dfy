/** The Loads screen: the search and category filter over the loads list,
    the edit payload normalisation, and the add, edit and delete flows,
    each of which performs its own remote call and then hands a record to
    the root component's `handleUpdateLoad` (`App.UpdateLoad`). */
module Loads {
  import opened Records
  import opened Seqs
  import Text
  import App

  /** `field?.toLowerCase().includes(termLower)`: an absent field never
      matches; a present one, even empty, is searched. */
  predicate FieldMatches(field: Option<string>, term: string)
  {
    field.Some? && Text.Contains(Text.Lower(field.value), Text.Lower(term))
  }

  /** The search half of `filteredLoads`: the term occurs in the load id,
      the origin city or the destination. */
  predicate SearchMatch(l: Load, term: string)
  {
    FieldMatches(l.loadId, term) || FieldMatches(l.city, term) || FieldMatches(l.destination, term)
  }

  /** The category half of `filteredLoads`. "Unassigned" accepts loads
      whose `status` is "Unassigned" and also loads with no assigned
      driver, whatever their status. */
  predicate CategoryMatch(l: Load, filter: string)
  {
    filter == "All Loads" || l.status == Some(filter) || (filter == "Unassigned" && EmptyAssignment(l.assignedTo))
  }

  function Searched(term: string): Load -> bool
  {
    (l: Load) => SearchMatch(l, term)
  }

  function InCategory(filter: string): Load -> bool
  {
    (l: Load) => CategoryMatch(l, filter)
  }

  function Shown(term: string, filter: string): Load -> bool
  {
    (l: Load) => SearchMatch(l, term) && CategoryMatch(l, filter)
  }

  /** `filteredLoads`: the loads that match both the search and the
      category, in list order. */
  function FilteredLoads(loads: seq<Load>, term: string, filter: string): (r: seq<Load>)
    ensures IsSubsequence(r, loads)
    ensures |r| == Count(loads, Shown(term, filter))
    ensures forall i :: 0 <= i < |r| ==> SearchMatch(r[i], term) && CategoryMatch(r[i], filter)
    ensures forall i :: 0 <= i < |loads| && SearchMatch(loads[i], term) && CategoryMatch(loads[i], filter) ==>
              loads[i] in r
  {
    Filter(loads, Shown(term, filter))
  }

  /** The two halves combine by conjunction: the screen shows the search
      results narrowed to the category. */
  lemma FilteredIsSearchThenCategory(loads: seq<Load>, term: string, filter: string)
    ensures FilteredLoads(loads, term, filter) == Filter(Filter(loads, Searched(term)), InCategory(filter))
  {
    FilterBoth(loads, Searched(term), InCategory(filter), Shown(term, filter));
  }

  /** With "All Loads" only the search narrows the list. */
  lemma AllLoadsIsSearchOnly(loads: seq<Load>, term: string)
    ensures FilteredLoads(loads, term, "All Loads") == Filter(loads, Searched(term))
  {
    FilteredIsSearchThenCategory(loads, term, "All Loads");
    FilterKeepsAll(Filter(loads, Searched(term)), InCategory("All Loads"));
  }

  /** With an empty term, a load is searched in exactly when it has at
      least one of the three fields: a load with none of them is hidden
      even from the unfiltered list. */
  lemma EmptyTermNeedsAField(l: Load)
    ensures SearchMatch(l, "") <==> l.loadId.Some? || l.city.Some? || l.destination.Some?
  {
    if l.loadId.Some? {
      Text.EmptyOccursEverywhere(Text.Lower(l.loadId.value));
    }
    if l.city.Some? {
      Text.EmptyOccursEverywhere(Text.Lower(l.city.value));
    }
    if l.destination.Some? {
      Text.EmptyOccursEverywhere(Text.Lower(l.destination.value));
    }
  }

  /** The list filter and the dashboard's status chart disagree about
      "Unassigned": a load in transit with no driver is listed under the
      "Unassigned" filter but counted as "In Transit", and not as
      "Unassigned", by the chart. */
  lemma UnassignedFilterDisagreesWithChart()
    ensures var l := EmptyLoad.(loadId := Some("L1"), status := Some("In Transit"));
            && FilteredLoads([l], "", "Unassigned") == [l]
            && App.StatusData([l])[0].value == 1
            && App.StatusData([l])[3].value == 0
  {
    var l := EmptyLoad.(loadId := Some("L1"), status := Some("In Transit"));
    EmptyTermNeedsAField(l);
    assert l in FilteredLoads([l], "", "Unassigned");
    assert |FilteredLoads([l], "", "Unassigned")| <= 1 by {
      assert Count([l], Shown("", "Unassigned")) <= 1;
    }
  }

  /** The selection of the driver picker: one name or a list of names. */
  datatype Picked = One(name: string) | Many(names: seq<string>)

  /** `handleDriverChange`: the picked names become `assigned_to`, a
      single value being wrapped into a one-element list. */
  function PickDrivers(p: Picked): (a: Assignment)
    ensures a.Names?
    ensures p.One? ==> |a.names| == 1 && a.names[0] == p.name
    ensures p.Many? ==> a.names == p.names
  {
    match p
    case One(n) => Names([n])
    case Many(ns) => Names(ns)
  }

  /** `Array.isArray(v) ? v : []` for `assigned_to`. */
  function AssignmentList(a: Assignment): (r: Assignment)
    ensures r.Names?
    ensures a.Names? ==> r == a
    ensures !a.Names? ==> r == Names([])
  {
    if a.Names? then a else Names([])
  }

  /** `updatedLoadData`, the edit payload: every text field is its value
      or '' when falsy, the date defaults to `today` and the status to
      'Pending', and `assigned_to` is a list. It carries no id. */
  function Payload(form: Load, today: string): (p: Load)
    ensures p.id.None? && !p.deleted
    ensures p.loadId == Some(TextOr(form.loadId, ""))
    ensures p.city == Some(TextOr(form.city, ""))
    ensures p.destination == Some(TextOr(form.destination, ""))
    ensures p.totalMiles == Some(TextOr(form.totalMiles, ""))
    ensures p.rate == Some(TextOr(form.rate, ""))
    ensures p.rpm == Some(TextOr(form.rpm, ""))
    ensures p.dispatcher == Some(TextOr(form.dispatcher, ""))
    ensures p.assignedTo == AssignmentList(form.assignedTo)
    ensures p.date == Some(TextOr(form.date, today))
    ensures p.status == Some(TextOr(form.status, "Pending"))
  {
    Load(
      None,
      Some(TextOr(form.loadId, "")),
      Some(TextOr(form.city, "")),
      Some(TextOr(form.destination, "")),
      Some(TextOr(form.totalMiles, "")),
      Some(TextOr(form.rate, "")),
      Some(TextOr(form.rpm, "")),
      AssignmentList(form.assignedTo),
      Some(TextOr(form.dispatcher, "")),
      Some(TextOr(form.date, today)),
      Some(TextOr(form.status, "Pending")),
      false)
  }

  /** `formattedLoad` of `handleEditLoadOpen`: `{...load, …}` with every
      field normalised as in the payload; the id and a stored delete
      marker come through from the load. */
  function EditForm(l: Load, today: string): (f: Load)
    ensures f.id == l.id && f.deleted == l.deleted
    ensures f.loadId == Some(TextOr(l.loadId, "")) && f.city == Some(TextOr(l.city, ""))
    ensures f.destination == Some(TextOr(l.destination, "")) && f.totalMiles == Some(TextOr(l.totalMiles, ""))
    ensures f.rate == Some(TextOr(l.rate, "")) && f.rpm == Some(TextOr(l.rpm, ""))
    ensures f.dispatcher == Some(TextOr(l.dispatcher, "")) && f.assignedTo == AssignmentList(l.assignedTo)
    ensures f.date == Some(TextOr(l.date, today)) && f.status == Some(TextOr(l.status, "Pending"))
  {
    Payload(l, today).(id := l.id, deleted := l.deleted)
  }

  /** One field of a spread: the spread value when present. */
  function Over<T>(over: Option<T>, under: Option<T>): Option<T>
  {
    if over.Some? then over else under
  }

  /** `...x` of one load over another: each field the spread load has
      replaces the one beneath it; a field it lacks (`None`, an absent
      assignment, no delete marker) leaves the one beneath. */
  function Spread(under: Load, over: Load): (m: Load)
    ensures over.id.Some? ==> m.id == over.id
    ensures over.id.None? ==> m.id == under.id
    ensures over.deleted ==> m.deleted
    ensures !over.deleted ==> m.deleted == under.deleted
    ensures m.loadId == if over.loadId.Some? then over.loadId else under.loadId
    ensures m.city == if over.city.Some? then over.city else under.city
    ensures m.destination == if over.destination.Some? then over.destination else under.destination
    ensures m.totalMiles == if over.totalMiles.Some? then over.totalMiles else under.totalMiles
    ensures m.rate == if over.rate.Some? then over.rate else under.rate
    ensures m.rpm == if over.rpm.Some? then over.rpm else under.rpm
    ensures m.dispatcher == if over.dispatcher.Some? then over.dispatcher else under.dispatcher
    ensures m.date == if over.date.Some? then over.date else under.date
    ensures m.status == if over.status.Some? then over.status else under.status
    ensures m.assignedTo == if over.assignedTo.NoAssignment? then under.assignedTo else over.assignedTo
  {
    Load(
      Over(over.id, under.id),
      Over(over.loadId, under.loadId),
      Over(over.city, under.city),
      Over(over.destination, under.destination),
      Over(over.totalMiles, under.totalMiles),
      Over(over.rate, under.rate),
      Over(over.rpm, under.rpm),
      if over.assignedTo.NoAssignment? then under.assignedTo else over.assignedTo,
      Over(over.dispatcher, under.dispatcher),
      Over(over.date, under.date),
      Over(over.status, under.status),
      over.deleted || under.deleted)
  }

  /** A load with no fields changes nothing, on either side of a spread. */
  lemma SpreadUnit(a: Load)
    ensures Spread(a, EmptyLoad) == a
    ensures Spread(EmptyLoad, a) == a
  {
  }

  lemma OverAssociative<T>(a: Option<T>, b: Option<T>, c: Option<T>)
    ensures Over(c, Over(b, a)) == Over(Over(c, b), a)
  {
  }

  /** Spreading several loads in turn does not depend on how the spreads
      are grouped, as with object spread. */
  lemma SpreadAssociative(a: Load, b: Load, c: Load)
    ensures Spread(Spread(a, b), c) == Spread(a, Spread(b, c))
  {
    var l, r := Spread(Spread(a, b), c), Spread(a, Spread(b, c));
    OverAssociative(a.id, b.id, c.id);
    OverAssociative(a.loadId, b.loadId, c.loadId);
    OverAssociative(a.city, b.city, c.city);
    OverAssociative(a.destination, b.destination, c.destination);
    OverAssociative(a.totalMiles, b.totalMiles, c.totalMiles);
    OverAssociative(a.rate, b.rate, c.rate);
    OverAssociative(a.rpm, b.rpm, c.rpm);
    OverAssociative(a.dispatcher, b.dispatcher, c.dispatcher);
    OverAssociative(a.date, b.date, c.date);
    OverAssociative(a.status, b.status, c.status);
  }

  /** The selected-load effect: whenever a load becomes selected (by
      opening its row menu) the form `newLoad`, which
      is also the add form, takes that load's fields and id, with
      `assigned_to`, `load_id`, `totalMiles`, `rpm` and `rate` normalised.
      A cleared selection leaves the form alone. */
  function SelectionEffect(form: Load, selected: Option<Load>): (f: Load)
    ensures selected.None? ==> f == form
    ensures selected.Some? ==>
              && f.id == (if selected.value.id.Some? then selected.value.id else form.id)
              && f.loadId == Some(TextOr(selected.value.loadId, ""))
              && f.totalMiles == Some(TextOr(selected.value.totalMiles, ""))
              && f.rpm == Some(TextOr(selected.value.rpm, ""))
              && f.rate == Some(TextOr(selected.value.rate, ""))
              && f.assignedTo == AssignmentList(selected.value.assignedTo)
              && (selected.value.deleted ==> f.deleted)
              && (!selected.value.deleted ==> f.deleted == form.deleted)
              && f.city == (if selected.value.city.Some? then selected.value.city else form.city)
              && f.destination == (if selected.value.destination.Some? then selected.value.destination else form.destination)
              && f.dispatcher == (if selected.value.dispatcher.Some? then selected.value.dispatcher else form.dispatcher)
              && f.date == (if selected.value.date.Some? then selected.value.date else form.date)
              && f.status == (if selected.value.status.Some? then selected.value.status else form.status)
  {
    match selected
    case None => form
    case Some(l) =>
      Spread(form, l).(
        assignedTo := AssignmentList(l.assignedTo),
        loadId := Some(TextOr(l.loadId, "")),
        totalMiles := Some(TextOr(l.totalMiles, "")),
        rpm := Some(TextOr(l.rpm, "")),
        rate := Some(TextOr(l.rate, "")))
  }

  /** Normalising is idempotent, and the form opened on a load yields the
      same payload as the load itself. Opening the edit dialog also closes
      the row menu in the same click, which clears the selection, so the
      effect leaves that form alone; the third clause adds that, as an
      algebraic fact, normalisation would absorb the effect even if it
      spread the raw load over its own edit form. */
  lemma PayloadIdempotent(form: Load, today: string)
    ensures Payload(Payload(form, today), today) == Payload(form, today)
    ensures Payload(EditForm(form, today), today) == Payload(form, today)
    ensures Payload(SelectionEffect(EditForm(form, today), Some(form)), today) == Payload(form, today)
  {
  }

  /** Opening a row's menu and closing it again leaves that load's fields
      and id in the add form, since opening the add dialog does not reset
      the form: a load with all its fields present is saved again in full
      by the next "Add Load", and the form keeps its id. */
  lemma MenuOpenPrefillsAddForm(form: Load, l: Load, today: string)
    requires l.city.Some? && l.destination.Some? && l.dispatcher.Some? && l.date.Some? && l.status.Some?
    ensures var f := SelectionEffect(SelectionEffect(form, Some(l)), None);
            && Payload(f, today) == Payload(l, today)
            && (l.id.Some? ==> f.id == l.id)
  {
  }

  /** A saved edit always has all three searchable fields, so it stays
      visible under the empty search. */
  lemma PayloadIsSearchable(form: Load, today: string)
    ensures SearchMatch(Payload(form, today), "")
  {
    EmptyTermNeedsAField(Payload(form, today));
  }

  /** What a screen flow did: the collection state afterwards, the record
      it passed to `updateLoad` (if it called it), and whether it reported
      an error. */
  datatype Flow = Flow(state: App.LoadsState, passed: Option<Load>, failed: bool)

  /** Firestore's merge write: the payload's fields replace the stored
      ones, and fields the payload lacks (its id, the delete marker) keep
      their stored value. */
  function Merge(stored: Option<Load>, payload: Load): (m: Load)
    ensures m.(id := payload.id, deleted := payload.deleted) == payload
    ensures stored.Some? ==> m.id == stored.value.id && m.deleted == stored.value.deleted
    ensures stored.None? ==> m == payload
  {
    match stored
    case None => payload
    case Some(o) => payload.(id := o.id, deleted := o.deleted)
  }

  /** The keys the store holds once the edit's merge write has landed. */
  function EditedKeys(s: App.LoadsState, form: Load): set<string>
  {
    if Truthy(form.id) then s.store.Keys + {form.id.value} else s.store.Keys
  }

  /** The Loads screen's `handleUpdateLoad`: with no id or no store handle
      nothing happens; otherwise the payload is merged into the stored
      document and, if that write succeeded, the payload plus the id is
      passed to `updateLoad`, whose overwrite leaves exactly the payload in
      the store and whose re-fetch makes the store's listing, which holds
      the edited record, the local list. */
  function EditLoad(s: App.LoadsState, form: Load, dbReady: bool, mergeFails: bool,
                    today: string, r: App.Remote): (f: Flow)
    requires App.Enumerates(r.order, EditedKeys(s, form))
    ensures !Truthy(form.id) || !dbReady ==> f == Flow(s, None, false)
    ensures f.failed <==> Truthy(form.id) && dbReady && mergeFails
    ensures f.failed ==> f.state == s && f.passed.None?
    ensures Truthy(form.id) && dbReady && !mergeFails ==>
              && f.passed == Some(Payload(form, today).(id := form.id))
              && f.state.store.Keys == s.store.Keys + {form.id.value}
              && (forall k :: k in s.store && k != form.id.value ==> f.state.store[k] == s.store[k])
    ensures Truthy(form.id) && dbReady && !mergeFails && !r.writeFails ==>
              f.state.store[form.id.value] == Payload(form, today)
    ensures f.passed.Some? && !(r.fetchFails && (r.writeFails || r.retryFails)) ==>
              && App.Enumerates(r.order, f.state.store.Keys)
              && f.state.local == App.Listing(f.state.store, r.order)
    ensures f.passed.Some? && r.fetchFails && (r.writeFails || r.retryFails) ==>
              f.state.local == App.Write(s, f.passed.value, r).state.local
    ensures f.passed.Some? && !r.writeFails && !(r.fetchFails && r.retryFails) ==>
              f.passed.value in f.state.local
  {
    if !Truthy(form.id) || !dbReady then Flow(s, None, false)
    else if mergeFails then Flow(s, None, true)
    else
      var id := form.id.value;
      var payload := Payload(form, today);
      var merged := Merge(if id in s.store then Some(s.store[id]) else None, payload);
      var s1 := s.(store := s.store[id := merged]);
      var complete := payload.(id := form.id);
      var u := App.UpdateLoad(s1, complete, r);
      Flow(u.state, Some(complete), false)
  }

  /** The blank add form, dated `today`. */
  function BlankForm(today: string): (f: Load)
    ensures f.id.None? && !f.deleted && f.status == Some("Pending") && f.assignedTo == Names([])
    ensures f.loadId == f.city == f.destination == f.totalMiles == f.rate == f.rpm == f.dispatcher == Some("")
    ensures f.date == Some(today)
  {
    Load(None, Some(""), Some(""), Some(""), Some(""), Some(""), Some(""), Names([]), Some(""), Some(today),
         Some("Pending"), false)
  }

  /** The add flow and the form it leaves behind. */
  datatype Added = Added(flow: Flow, form: Load)

  /** `handleAddLoad`: `addDoc` of the form under the store's new id, then
      `updateLoad` of the form plus that id (an overwrite of the document
      just created), then the form is reset. A failed `addDoc` reports an
      error and keeps the form. A form that carries a delete marker sends
      `updateLoad` down its delete branch instead. */
  function AddLoad(s: App.LoadsState, form: Load, dbReady: bool, addFails: bool, newId: string,
                   today: string, r: App.Remote): (a: Added)
    requires newId !in s.store && newId != ""
    requires App.Enumerates(r.order, AddedKeys(s, form, newId, r))
    ensures !dbReady ==> a == Added(Flow(s, None, false), form)
    ensures a.flow.failed <==> dbReady && addFails
    ensures a.flow.failed ==> a.flow.state == s && a.flow.passed.None? && a.form == form
    ensures dbReady && !addFails ==>
              a.flow.passed == Some(form.(id := Some(newId))) && a.form == BlankForm(today)
    ensures dbReady && !addFails && !form.deleted ==>
              && a.flow.state.store.Keys == s.store.Keys + {newId}
              && |a.flow.state.store| == |s.store| + 1
              && (forall k :: k in s.store ==> a.flow.state.store[k] == s.store[k])
    ensures dbReady && !addFails && !form.deleted && (form.id.None? || !r.writeFails) ==>
              a.flow.state.store[newId] == form.(id := None)
    ensures dbReady && !addFails && form.deleted && !r.writeFails ==> a.flow.state.store == s.store
    ensures a.flow.passed.Some? && !(r.fetchFails && (r.writeFails || r.retryFails)) ==>
              && App.Enumerates(r.order, a.flow.state.store.Keys)
              && a.flow.state.local == App.Listing(a.flow.state.store, r.order)
    ensures a.flow.passed.Some? && r.fetchFails && (r.writeFails || r.retryFails) ==>
              a.flow.state.local == App.Write(s, a.flow.passed.value, r).state.local
    ensures a.flow.passed.Some? && !form.deleted && !r.writeFails && !(r.fetchFails && r.retryFails) ==>
              a.flow.passed.value in a.flow.state.local
  {
    if !dbReady then Added(Flow(s, None, false), form)
    else if addFails then Added(Flow(s, None, true), form)
    else
      var s1 := s.(store := s.store[newId := form]);
      var withId := form.(id := Some(newId));
      AddedStore(s, form, newId, r);
      var u := App.UpdateLoad(s1, withId, r);
      Added(Flow(u.state, Some(withId), false), BlankForm(today))
  }

  /** The keys the store holds after a successful add: the new id, unless
      a stale delete marker on the form made `updateLoad` delete the new
      document again. */
  function AddedKeys(s: App.LoadsState, form: Load, newId: string, r: App.Remote): set<string>
  {
    if form.deleted && !r.writeFails then s.store.Keys else s.store.Keys + {newId}
  }

  /** What the store holds once `handleAddLoad`'s `updateLoad` has run. */
  lemma AddedStore(s: App.LoadsState, form: Load, newId: string, r: App.Remote)
    requires newId !in s.store && newId != ""
    ensures var st := App.StoreAfter(s.(store := s.store[newId := form]), form.(id := Some(newId)), r);
            && st.Keys == AddedKeys(s, form, newId, r)
            && (!form.deleted ==>
                  && |st| == |s.store| + 1
                  && (forall k :: k in s.store ==> st[k] == s.store[k])
                  && (form.id.None? || !r.writeFails ==> st[newId] == form.(id := None)))
            && (form.deleted && !r.writeFails ==> st == s.store)
  {
    var s1 := s.(store := s.store[newId := form]);
    var withId := form.(id := Some(newId));
    var st := App.StoreAfter(s1, withId, r);
    if !form.deleted {
      if r.writeFails {
        assert st == s.store[newId := form];
      } else {
        assert st == s.store[newId := form.(id := None)];
      }
    } else if !r.writeFails {
      assert st == s1.store - {newId};
      assert st == s.store;
    }
  }

  /** The delete flow and the menu selection it leaves behind. */
  datatype Deleted = Deleted(flow: Flow, selected: Option<Load>)

  /** The "Delete Load" menu item: with a load selected it starts
      `handleDeleteLoad` and, without awaiting it, closes the menu, which
      clears the selection whatever the delete's outcome. With a store
      handle the document is deleted remotely first; only when that
      succeeded is the same record, marked deleted, passed to `updateLoad`.
      A missing or empty id makes `doc` throw, which is reported like a
      failed delete. */
  function DeleteLoad(s: App.LoadsState, selected: Option<Load>, dbReady: bool, deleteFails: bool,
                      r: App.Remote): (d: Deleted)
    requires selected.Some? && Truthy(selected.value.id) ==>
               App.Enumerates(r.order, s.store.Keys - {selected.value.id.value})
    ensures selected.None? ==> d == Deleted(Flow(s, None, false), None)
    ensures d.selected.None?
    ensures d.flow.failed <==>
              selected.Some? && dbReady && (!Truthy(selected.value.id) || deleteFails)
    ensures d.flow.passed.Some? <==>
              selected.Some? && dbReady && Truthy(selected.value.id) && !deleteFails
    ensures d.flow.passed.Some? ==>
              && d.flow.passed.value == selected.value.(deleted := true)
              && d.flow.state.store == s.store - {selected.value.id.value}
    ensures d.flow.passed.None? ==> d.flow.state == s
    ensures d.flow.passed.Some? && !(r.fetchFails && (r.writeFails || r.retryFails)) ==>
              && App.Enumerates(r.order, d.flow.state.store.Keys)
              && d.flow.state.local == App.Listing(d.flow.state.store, r.order)
    ensures d.flow.passed.Some? && r.fetchFails && (r.writeFails || r.retryFails) ==>
              d.flow.state.local == App.Write(s, d.flow.passed.value, r).state.local
  {
    if selected.None? || !dbReady then Deleted(Flow(s, None, false), None)
    else if !Truthy(selected.value.id) || deleteFails then Deleted(Flow(s, None, true), None)
    else
      var id := selected.value.id.value;
      var s1 := s.(store := s.store - {id});
      var marked := selected.value.(deleted := true);
      var u := App.UpdateLoad(s1, marked, r);
      Deleted(Flow(u.state, Some(marked), false), None)
  }

  /** After a delete whose re-fetch succeeded, no local record carries the
      deleted id, provided no stored document carries an id field. */
  lemma DeleteLeavesNoRecord(s: App.LoadsState, l: Load, r: App.Remote)
    requires App.Clean(s.store)
    requires Truthy(l.id)
    requires App.Enumerates(r.order, s.store.Keys - {l.id.value})
    ensures var s1 := s.(store := s.store - {l.id.value});
            var d := DeleteLoad(s, Some(l), true, false, r);
            !App.UpdateLoad(s1, l.(deleted := true), r).rejected ==>
              forall i :: 0 <= i < |d.flow.state.local| ==> d.flow.state.local[i].id != l.id
  {
    App.CleanListingHasDistinctIds(s.store - {l.id.value}, r.order);
  }
}
