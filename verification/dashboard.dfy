/** The dashboard: the summary counts and rounded percentages of its four
    cards, the revenue pre-step on rates, the recent-loads prefix and the
    status chip colours. */
module Dashboard {
  import opened Records
  import opened Seqs
  import Text
  import App

  /** `d.status === "READY"` */
  function IsReady(): Driver -> bool
  {
    (d: Driver) => d.status == Some("READY")
  }

  /** The "Ready" chip: drivers whose status is exactly "READY". */
  function ReadyCount(ds: seq<Driver>): (n: nat)
    ensures n <= |ds|
    ensures n == 0 <==> forall i :: 0 <= i < |ds| ==> ds[i].status != Some("READY")
    ensures n == |ds| <==> forall i :: 0 <= i < |ds| ==> ds[i].status == Some("READY")
  {
    CountExtremes(ds, IsReady());
    Count(ds, IsReady())
  }

  /** `d.onDuty` */
  function IsOnDuty(): Dispatcher -> bool
  {
    (d: Dispatcher) => d.onDuty
  }

  /** The "On Duty" chip: dispatchers with a truthy `onDuty`. */
  function OnDutyCount(ds: seq<Dispatcher>): (n: nat)
    ensures n <= |ds|
    ensures n == 0 <==> forall i :: 0 <= i < |ds| ==> !ds[i].onDuty
    ensures n == |ds| <==> forall i :: 0 <= i < |ds| ==> ds[i].onDuty
  {
    CountExtremes(ds, IsOnDuty());
    Count(ds, IsOnDuty())
  }

  /** The "In Transit" chip. */
  function InTransitCount(loads: seq<Load>): (n: nat)
    ensures n <= |loads|
  {
    Count(loads, App.HasStatus("In Transit"))
  }

  /** The dashboard's "In Transit" chip and the status chart's first slice
      count the same loads. */
  lemma InTransitAgreesWithChart(loads: seq<Load>)
    ensures InTransitCount(loads) == App.StatusData(loads)[0].value
  {
  }

  /** `Math.round(part / total * 100)` in exact arithmetic: the percentage
      rounded half up. The source divides without guarding a zero total. */
  function RoundPercent(part: nat, total: nat): (r: nat)
    requires total > 0
    ensures 2 * total * r <= 200 * part + total < 2 * total * (r + 1)
    ensures part <= total ==> r <= 100
    ensures part == total ==> r == 100
    ensures part == 0 ==> r == 0
  {
    HalfUpBounds(part, total);
    (200 * part + total) / (2 * total)
  }

  lemma HalfUpBounds(part: nat, total: nat)
    requires total > 0
    ensures var r := (200 * part + total) / (2 * total);
            && 2 * total * r <= 200 * part + total < 2 * total * (r + 1)
            && (part <= total ==> r <= 100)
            && (part == total ==> r == 100)
  {
    var r := (200 * part + total) / (2 * total);
    assert 200 * part + total < 2 * total * (r + 1);
    if part == total {
      assert 200 * part + total == 2 * total * 100 + total;
    }
  }

  /** "% Available": ready drivers over all drivers. */
  function AvailablePercent(ds: seq<Driver>): (r: nat)
    requires |ds| > 0
    ensures 2 * |ds| * r <= 200 * ReadyCount(ds) + |ds| < 2 * |ds| * (r + 1)
    ensures r <= 100
    ensures r == 100 <== forall i :: 0 <= i < |ds| ==> ds[i].status == Some("READY")
    ensures r == 0 <== forall i :: 0 <= i < |ds| ==> ds[i].status != Some("READY")
  {
    RoundPercent(ReadyCount(ds), |ds|)
  }

  /** "% Active": on-duty dispatchers over all dispatchers. */
  function ActivePercent(ds: seq<Dispatcher>): (r: nat)
    requires |ds| > 0
    ensures 2 * |ds| * r <= 200 * OnDutyCount(ds) + |ds| < 2 * |ds| * (r + 1)
    ensures r <= 100
    ensures r == 100 <== forall i :: 0 <= i < |ds| ==> ds[i].onDuty
    ensures r == 0 <== forall i :: 0 <= i < |ds| ==> !ds[i].onDuty
  {
    RoundPercent(OnDutyCount(ds), |ds|)
  }

  /** "% Completed": delivered loads over all loads. */
  function CompletedPercent(loads: seq<Load>): (r: nat)
    requires |loads| > 0
    ensures 2 * |loads| * r <= 200 * Count(loads, App.HasStatus("Delivered")) + |loads| < 2 * |loads| * (r + 1)
    ensures r <= 100
    ensures r == 100 <== forall i :: 0 <= i < |loads| ==> loads[i].status == Some("Delivered")
    ensures r == 0 <== forall i :: 0 <= i < |loads| ==> loads[i].status != Some("Delivered")
  {
    CountExtremes(loads, App.HasStatus("Delivered"));
    RoundPercent(Count(loads, App.HasStatus("Delivered")), |loads|)
  }

  /** The rate texts the revenue card sums: each load's rate with its first
      '$' removed. `load.rate.replace` throws on a load without a rate,
      which aborts the render: that outcome is `None`. */
  function RateTexts(loads: seq<Load>): (r: Option<seq<string>>)
    ensures r.None? <==> exists i :: 0 <= i < |loads| && loads[i].rate.None?
    ensures r.Some? ==> |r.value| == |loads|
    ensures r.Some? ==> forall i :: 0 <= i < |loads| && '$' !in loads[i].rate.value ==>
              r.value[i] == loads[i].rate.value
    ensures r.Some? ==> forall i :: 0 <= i < |loads| && '$' in loads[i].rate.value ==>
              multiset(r.value[i]) == multiset(loads[i].rate.value) - multiset{'$'}
    ensures r.Some? ==> forall i :: 0 <= i < |loads| && '$' in loads[i].rate.value ==>
              var k := Text.IndexOf(loads[i].rate.value, '$');
              r.value[i] == loads[i].rate.value[..k] + loads[i].rate.value[k + 1..]
  {
    if exists i :: 0 <= i < |loads| && loads[i].rate.None? then None
    else Some(seq(|loads|, i requires 0 <= i < |loads| => Text.RemoveFirst(loads[i].rate.value, '$')))
  }

  /** Only the first '$' goes: a rate written "$1$" keeps its second one. */
  lemma OnlyFirstDollarRemoved()
    ensures Text.RemoveFirst("$1$", '$') == "1$"
  {
    assert Text.IndexOf("$1$", '$') == 0;
    assert "$1$"[1..] == "1$";
  }

  /** The "Recent Loads" table: `loads.slice(0, 3)`. */
  function RecentLoads(loads: seq<Load>): (r: seq<Load>)
    ensures |r| == if |loads| < 3 then |loads| else 3
    ensures r == loads[..|r|]
  {
    if |loads| < 3 then loads else loads[..3]
  }

  /** The status chip colour of a recent load. */
  function StatusColor(status: Option<string>): (c: string)
    ensures c == "success" <==> status == Some("Delivered")
    ensures c == "warning" <==> status == Some("In Transit")
    ensures c == "primary" <==> status == Some("Pending")
    ensures c == "default" <==> status !in {Some("Delivered"), Some("In Transit"), Some("Pending")}
  {
    if status == Some("Delivered") then "success"
    else if status == Some("In Transit") then "warning"
    else if status == Some("Pending") then "primary"
    else "default"
  }

  /** Of the four chart statuses, only "Unassigned" gets the neutral chip. */
  lemma ChartStatusColors()
    ensures forall i :: 0 <= i < 4 ==>
              (StatusColor(Some(App.StatusNames[i])) == "default" <==> i == 3)
  {
  }
}
