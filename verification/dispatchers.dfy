/** The Dispatchers screen: the team filter and its selection, the
    document a new dispatcher is stored as, and the derived table cells
    (display id, managed-loads count, teams label). */
module Dispatchers {
  import opened Records
  import opened Seqs
  import Text

  /** `dispatcher.teams && dispatcher.teams.includes(team)` */
  function OnTeam(team: string): Dispatcher -> bool
  {
    (d: Dispatcher) => d.teams.Some? && team in d.teams.value
  }

  /** `filteredDispatchers`: every dispatcher while no team is selected;
      otherwise those whose teams include the selected one, in order. */
  function FilteredDispatchers(ds: seq<Dispatcher>, selected: Option<string>): (r: seq<Dispatcher>)
    ensures !Truthy(selected) ==> r == ds
    ensures IsSubsequence(r, ds)
    ensures Truthy(selected) ==> |r| == Count(ds, OnTeam(selected.value))
    ensures Truthy(selected) ==> forall i :: 0 <= i < |r| ==>
              r[i].teams.Some? && selected.value in r[i].teams.value
    ensures Truthy(selected) ==> forall i :: 0 <= i < |ds| && ds[i].teams.Some? && selected.value in ds[i].teams.value ==>
              ds[i] in r
  {
    SubsequenceReflexive(ds);
    if Truthy(selected) then Filter(ds, OnTeam(selected.value)) else ds
  }

  /** The team chips: `handleTeamSelect(team)` selects a team and "View
      All" clears the selection. */
  datatype TeamAction = SelectTeam(team: string) | ViewAll

  function ApplyTeamAction(selected: Option<string>, a: TeamAction): (s: Option<string>)
    ensures a.ViewAll? ==> !Truthy(s)
    ensures a.SelectTeam? ==> s == Some(a.team)
  {
    match a
    case SelectTeam(t) => Some(t)
    case ViewAll => None
  }

  /** Whatever teams were picked before, "View All" restores the unfiltered
      list. */
  lemma {:induction false} ViewAllRestores(ds: seq<Dispatcher>, selected: Option<string>, actions: seq<TeamAction>)
    ensures FilteredDispatchers(ds, Replay(selected, actions + [ViewAll])) == ds
  {
    ReplayLast(selected, actions, ViewAll);
  }

  /** The selection after a run of chip clicks. */
  function Replay(selected: Option<string>, actions: seq<TeamAction>): Option<string>
    decreases |actions|
  {
    if |actions| == 0 then selected
    else Replay(ApplyTeamAction(selected, actions[0]), actions[1..])
  }

  /** Only the last click matters. */
  lemma {:induction false} ReplayLast(selected: Option<string>, actions: seq<TeamAction>, last: TeamAction)
    ensures Replay(selected, actions + [last]) == ApplyTeamAction(Replay(selected, actions), last)
    decreases |actions|
  {
    if |actions| > 0 {
      assert (actions + [last])[1..] == actions[1..] + [last];
      ReplayLast(ApplyTeamAction(selected, actions[0]), actions[1..], last);
    }
  }

  /** Selecting the same team twice shows the same list as selecting it
      once: filtering by a team is idempotent. */
  lemma TeamFilterIdempotent(ds: seq<Dispatcher>, team: string)
    ensures FilteredDispatchers(FilteredDispatchers(ds, Some(team)), Some(team)) ==
            FilteredDispatchers(ds, Some(team))
  {
    FilterKeepsAll(Filter(ds, OnTeam(team)), OnTeam(team));
  }

  /** The add-dispatcher form. */
  datatype DispatcherForm = DispatcherForm(
    name: string, username: string, telegram: string, email: string, phone: string, teams: seq<string>)

  const BlankDispatcherForm := DispatcherForm("", "", "", "", "", [])

  /** The document `addDispatcherToFirestore` stores: the form's fields,
      off duty, no loads, and the name's initials as avatar. */
  function NewDispatcherDoc(f: DispatcherForm): (d: Dispatcher)
    ensures d.id.None?
    ensures d.name == Some(f.name) && d.username == Some(f.username) && d.telegram == Some(f.telegram)
    ensures d.email == Some(f.email) && d.phone == Some(f.phone) && d.teams == Some(f.teams)
    ensures !d.onDuty && d.loads == Some([])
    ensures d.avatar == Some(Text.Initials(f.name))
  {
    Dispatcher(None, Some(f.name), Some(f.username), Some(f.telegram), Some(f.email), Some(f.phone),
               Some(f.teams), false, Some([]), Some(Text.Initials(f.name)))
  }

  /** The form and dialog after `addDispatcherToFirestore`. */
  datatype AddOutcome = AddOutcome(stored: Option<Dispatcher>, form: DispatcherForm, dialogOpen: bool)

  /** `addDispatcherToFirestore`: on a successful `addDoc` the form is
      cleared; the dialog closes only once the re-fetch also succeeded. A
      failed `addDoc` stores nothing and keeps the form and dialog. */
  function AddDispatcher(f: DispatcherForm, addFails: bool, fetchFails: bool): (o: AddOutcome)
    ensures o.stored.Some? <==> !addFails
    ensures o.stored.Some? ==> o.stored.value == NewDispatcherDoc(f)
    ensures o.form == if addFails then f else BlankDispatcherForm
    ensures o.dialogOpen <==> addFails || fetchFails
  {
    if addFails then AddOutcome(None, f, true)
    else AddOutcome(Some(NewDispatcherDoc(f)), BlankDispatcherForm, fetchFails)
  }

  /** The "ID: DSP-…" caption: the id left-padded with '0' to four
      characters. */
  function DisplayId(id: string): (r: string)
    ensures |r| == 4 + (if |id| < 4 then 4 else |id|)
    ensures r[..4] == "DSP-"
    ensures r[|r| - |id|..] == id
    ensures forall i :: 4 <= i < |r| - |id| ==> r[i] == '0'
  {
    "DSP-" + Text.PadStart(id, 4, '0')
  }

  /** An id of four or more characters is shown unchanged. */
  lemma DisplayIdOfLongId(id: string)
    requires |id| >= 4
    ensures DisplayId(id) == "DSP-" + id
  {
  }

  /** Ids of the same length, or both at least four long, never share a
      caption. */
  lemma DisplayIdInjective(a: string, b: string)
    requires |a| == |b| || (|a| >= 4 && |b| >= 4)
    requires DisplayId(a) == DisplayId(b)
    ensures a == b
  {
    var r := DisplayId(a);
    assert |a| == |b|;
    assert a == r[|r| - |a|..] == b;
  }

  /** Short ids can collide: "1" and "01" are both shown as DSP-0001. */
  lemma DisplayIdCollision()
    ensures DisplayId("1") == DisplayId("01") == "DSP-0001"
  {
  }

  /** The "Managed Loads" cell: `(dispatcher.loads || []).length`. */
  function ManagedLoads(d: Dispatcher): (n: nat)
    ensures d.loads.None? ==> n == 0
    ensures d.loads.Some? ==> n == |d.loads.value|
  {
    if d.loads.Some? then |d.loads.value| else 0
  }

  /** The "Teams" cell: the teams joined by ", ", or "No Team" when the
      field is absent. */
  function TeamsLabel(d: Dispatcher): string
  {
    if d.teams.Some? then Text.Join(d.teams.value, ", ") else "No Team"
  }

  /** Every team of a dispatcher appears in its label. */
  lemma TeamsLabelMentionsEachTeam(d: Dispatcher, i: nat)
    requires d.teams.Some? && i < |d.teams.value|
    ensures Text.Contains(TeamsLabel(d), d.teams.value[i])
  {
    Text.JoinContainsEachPart(d.teams.value, ", ", i);
  }

  /** An empty team list is truthy, so it is labelled "", not "No Team". */
  lemma EmptyTeamsLabel(d: Dispatcher)
    requires d.teams == Some([])
    ensures TeamsLabel(d) == ""
  {
  }

  /** A new dispatcher manages no loads and its team label lists its
      teams. */
  lemma NewDispatcherCells(f: DispatcherForm)
    ensures ManagedLoads(NewDispatcherDoc(f)) == 0
    ensures TeamsLabel(NewDispatcherDoc(f)) == Text.Join(f.teams, ", ")
  {
  }
}
