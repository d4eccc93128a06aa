/** The documents of the three collections (Drivers, Dispatchers, Loads)
    and the notification records of the app bar. The remote store imposes
    no schema, so every field a document may lack is an `Option`; a
    boolean flag the source only tests for truthiness is a `bool` whose
    `false` also stands for "absent". */
module Records {

  datatype Option<T> = None | Some(value: T)

  /** JavaScript truthiness of an optional text field: present and non-empty. */
  predicate Truthy(o: Option<string>)
  {
    o.Some? && o.value != ""
  }

  /** `String(field || fallback)` for a text field. */
  function TextOr(o: Option<string>, fallback: string): (r: string)
    ensures Truthy(o) ==> r == o.value
    ensures !Truthy(o) ==> r == fallback
  {
    if Truthy(o) then o.value else fallback
  }

  /** The `assigned_to` field of a load: normally a list of driver names,
      but the store may hold it absent or as some other (text) value. */
  datatype Assignment = NoAssignment | Names(names: seq<string>) | OtherValue(text: string)

  /** `!load.assigned_to || load.assigned_to.length === 0`: absent, an empty
      list, or a value whose length is zero. */
  predicate EmptyAssignment(a: Assignment)
  {
    match a
    case NoAssignment => true
    case Names(ns) => |ns| == 0
    case OtherValue(t) => |t| == 0
  }

  datatype Load = Load(
    id: Option<string>,
    loadId: Option<string>,        // `load_id`, the human-readable label
    city: Option<string>,
    destination: Option<string>,
    totalMiles: Option<string>,
    rate: Option<string>,
    rpm: Option<string>,
    assignedTo: Assignment,         // driver names, not ids
    dispatcher: Option<string>,     // a dispatcher name, not an id
    date: Option<string>,
    status: Option<string>,
    deleted: bool)                  // the transient `deleted` marker of a delete request

  /** A load document with no field set. */
  const EmptyLoad := Load(None, None, None, None, None, None, None, NoAssignment, None, None, None, false)

  /** The `history` field of a driver: a list of free-text events, absent,
      or some non-list value (whose truthiness matters to one reader). */
  datatype History = NoHistory | Entries(entries: seq<string>) | NotAList(truthy: bool)

  datatype Driver = Driver(
    id: Option<string>,
    name: Option<string>,
    status: Option<string>,
    history: History,
    loads: Option<seq<string>>,
    avatar: Option<string>,
    email: Option<string>,
    truckNumber: Option<string>,
    totalGross: Option<int>,
    telegramUsername: Option<string>,
    phoneNumber: Option<string>,
    address: Option<string>,
    licenseNumber: Option<string>,
    licenseExpirationDate: Option<string>)

  datatype Dispatcher = Dispatcher(
    id: Option<string>,
    name: Option<string>,
    username: Option<string>,
    telegram: Option<string>,
    email: Option<string>,
    phone: Option<string>,
    teams: Option<seq<string>>,
    onDuty: bool,
    loads: Option<seq<string>>,
    avatar: Option<string>)

  datatype Notification = Notification(id: int, message: string, read: bool)
}
