/** The top bar: the page title for the current path and the unread
    notification badge. */
module AppBar {
  import opened Records
  import opened Seqs
  import App
  import Text

  /** `getPageTitle()` */
  function PageTitle(path: string): (t: string)
    ensures t == "Dashboard" <==> path == "/" || path == "/dashboard"
    ensures t == "Drivers" <==> path == "/drivers"
    ensures t == "Dispatchers" <==> path == "/dispatchers"
    ensures t == "Loads" <==> path == "/loads"
    ensures t == Fallback <==>
              path !in {"/", "/dashboard", "/drivers", "/dispatchers", "/loads"}
  {
    if path == "/" || path == "/dashboard" then "Dashboard"
    else if path == "/drivers" then "Drivers"
    else if path == "/dispatchers" then "Dispatchers"
    else if path == "/loads" then "Loads"
    else "Transport Management System"
  }

  /** The screens the root component routes to. */
  datatype Screen = DashboardScreen | DriversScreen | DispatchersScreen | LoadsScreen

  /** The title shown on every path `getPageTitle` does not know. */
  const Fallback := "Transport Management System"

  /** A path without its trailing slashes. */
  function TrimSlashes(p: string): (t: string)
    ensures |t| <= |p| && t == p[..|t|]
    ensures |t| == 0 || t[|t| - 1] != '/'
    ensures forall i :: |t| <= i < |p| ==> p[i] == '/'
    decreases |p|
  {
    if |p| > 0 && p[|p| - 1] == '/' then TrimSlashes(p[..|p| - 1]) else p
  }

  /** How a `<Route path=…>` with a static lower-case pattern matches the
      location in react-router v6: not case-sensitive (the pattern's
      letters match either ASCII case, and no other character), and any
      number of trailing slashes is accepted. */
  predicate RouteMatches(pattern: string, path: string)
  {
    |path| > 0 && path[0] == '/' && TrimSlashes(Text.Lower(path)) == TrimSlashes(pattern)
  }

  /** The root component's `<Routes>`: "/" and "/dashboard" both show the
      dashboard; a path no route matches shows no screen. */
  function Route(path: string): (r: Option<Screen>)
    ensures r == Some(DashboardScreen) <==> RouteMatches("/", path) || RouteMatches("/dashboard", path)
    ensures r == Some(DriversScreen) <==> RouteMatches("/drivers", path)
    ensures r == Some(DispatchersScreen) <==> RouteMatches("/dispatchers", path)
    ensures r == Some(LoadsScreen) <==> RouteMatches("/loads", path)
  {
    if RouteMatches("/", path) || RouteMatches("/dashboard", path) then Some(DashboardScreen)
    else if RouteMatches("/drivers", path) then Some(DriversScreen)
    else if RouteMatches("/dispatchers", path) then Some(DispatchersScreen)
    else if RouteMatches("/loads", path) then Some(LoadsScreen)
    else None
  }

  function ScreenName(s: Screen): string
  {
    match s
    case DashboardScreen => "Dashboard"
    case DriversScreen => "Drivers"
    case DispatchersScreen => "Dispatchers"
    case LoadsScreen => "Loads"
  }

  /** A path the title knows is routed to the screen the title names, and
      a path no route matches gets the fallback title. */
  lemma TitleMatchesRoute(path: string)
    ensures PageTitle(path) != Fallback ==>
              Route(path).Some? && PageTitle(path) == ScreenName(Route(path).value)
    ensures Route(path).None? ==> PageTitle(path) == Fallback
  {
    if PageTitle(path) != Fallback {
      assert Text.Lower(path) == path;
    }
  }

  /** The converse fails: the router also shows the Drivers screen for
      "/drivers/" and "/Drivers", where the title falls back. */
  lemma TitleDisagreesWithRoute()
    ensures Route("/drivers/") == Some(DriversScreen) && PageTitle("/drivers/") == Fallback
    ensures Route("/Drivers") == Some(DriversScreen) && PageTitle("/Drivers") == Fallback
  {
    assert Text.Lower("/drivers/") == "/drivers/";
    assert Text.Lower("/Drivers") == "/drivers";
  }

  /** `n => !n.read` */
  function Unread(): Notification -> bool
  {
    (n: Notification) => !n.read
  }

  /** `unreadCount`, the badge number. */
  function UnreadCount(ns: seq<Notification>): (n: nat)
    ensures n <= |ns|
    ensures n == 0 <==> forall i :: 0 <= i < |ns| ==> ns[i].read
    ensures n == |ns| <==> forall i :: 0 <= i < |ns| ==> !ns[i].read
  {
    CountExtremes(ns, Unread());
    Count(ns, Unread())
  }

  /** The badge starts at 2. */
  lemma InitialUnreadCount()
    ensures UnreadCount(App.InitialNotifications) == 2
  {
    assert App.InitialNotifications[1..][1..][1..] == [];
  }
}
