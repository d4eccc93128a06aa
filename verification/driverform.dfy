/** The add-driver form: the document a new driver is stored as and the
    form's reset after a successful add. */
module DriverForm {
  import opened Records
  import opened Seqs
  import Text
  import Drivers
  import Dashboard

  /** The seven inputs of the form. */
  datatype DriverInputs = DriverInputs(
    name: string, telegramUsername: string, email: string, phoneNumber: string,
    address: string, licenseNumber: string, licenseExpirationDate: string)

  const BlankInputs := DriverInputs("", "", "", "", "", "", "")

  /** The document `addDriver` stores: the seven inputs verbatim, status
      'READY', no history, no loads, and the name's initials as avatar. */
  function NewDriverDoc(f: DriverInputs): (d: Driver)
    ensures d.id.None?
    ensures d.name == Some(f.name) && d.telegramUsername == Some(f.telegramUsername)
    ensures d.email == Some(f.email) && d.phoneNumber == Some(f.phoneNumber)
    ensures d.address == Some(f.address) && d.licenseNumber == Some(f.licenseNumber)
    ensures d.licenseExpirationDate == Some(f.licenseExpirationDate)
    ensures d.status == Some("READY") && d.history == Entries([]) && d.loads == Some([])
    ensures d.avatar == Some(Text.Initials(f.name))
    ensures d.truckNumber.None? && d.totalGross.None?
  {
    Driver(None, Some(f.name), Some("READY"), Entries([]), Some([]), Some(Text.Initials(f.name)),
           Some(f.email), None, None, Some(f.telegramUsername), Some(f.phoneNumber), Some(f.address),
           Some(f.licenseNumber), Some(f.licenseExpirationDate))
  }

  /** A new driver is ready, and shows no completed and no active loads. */
  lemma NewDriverIsReadyAndIdle(f: DriverInputs)
    ensures Drivers.CompletedLoads(NewDriverDoc(f)) == 0
    ensures Drivers.ActiveLoads(NewDriverDoc(f)) == 0
    ensures Dashboard.ReadyCount([NewDriverDoc(f)]) == 1
  {
  }

  /** Adding a driver raises the dashboard's "Ready" count by one. */
  lemma AddingDriverRaisesReadyCount(ds: seq<Driver>, f: DriverInputs)
    ensures Dashboard.ReadyCount(ds + [NewDriverDoc(f)]) == Dashboard.ReadyCount(ds) + 1
  {
    CountAppend(ds, [NewDriverDoc(f)], Dashboard.IsReady());
  }

  /** The form after `addDriver`, with the number of times the parent was
      told to refresh. */
  datatype Submitted = Submitted(stored: Option<Driver>, inputs: DriverInputs, notified: nat)

  /** `addDriver`: after a successful `addDoc` all seven inputs are cleared
      and `onDriverAdded` is called once; after a failed one nothing
      changes and the parent is not called. */
  function SubmitDriverForm(f: DriverInputs, addFails: bool): (s: Submitted)
    ensures s.stored.Some? <==> !addFails
    ensures s.stored.Some? ==> s.stored.value == NewDriverDoc(f)
    ensures !addFails ==> s.inputs == BlankInputs && s.notified == 1
    ensures addFails ==> s.inputs == f && s.notified == 0
  {
    if addFails then Submitted(None, f, 0)
    else Submitted(Some(NewDriverDoc(f)), BlankInputs, 1)
  }
}
