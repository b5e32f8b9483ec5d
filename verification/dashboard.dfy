/**
 * One dashboard render: every KPI recomputed from the two tables. Order
 * counts are taken over all order rows, delivery metrics over the rows with a
 * delivery date, revenue over the payment rows.
 */
module Dashboard {
  import opened Wrappers
  import opened Calendar
  import opened Orders
  import opened Payments

  datatype Snapshot = Snapshot(
    totalOrders: nat,
    totalRevenue: real,
    averageDeliveryDays: Option<real>,
    latePercentage: Option<real>,
    trend: seq<MonthCount>,
    revenueByKind: seq<KindRevenue>,
    sla: seq<StatusCount>)

  /** The delivered view is empty exactly when no order row has a delivery date. */
  lemma NoDeliveries(orders: seq<OrderRow>)
    ensures Deliveries(orders) == Ok([]) <==> forall o :: o in orders ==> o.delivered.None?
  {
    KeptRows(orders);
    var kept := DropUndelivered(orders);
    if kept != [] {
      assert kept[0] in kept;
    }
  }

  /** The purchase months in the trend are those of the delivered rows. */
  lemma TrendMonthsArePurchaseMonths(orders: seq<OrderRow>)
    ensures Deliveries(orders).Ok? ==>
      (TrendMonths(MonthlyTrend(Deliveries(orders).value)) == set o | o in DropUndelivered(orders) :: MonthKey(o.purchased))
  {
    if Deliveries(orders).Ok? {
      ViewMonths(orders, Deliveries(orders).value);
    }
  }

  lemma ViewMonths(orders: seq<OrderRow>, ds: seq<Delivery>)
    requires Deliveries(orders) == Ok(ds)
    ensures DeliveryMonths(ds) == set o | o in DropUndelivered(orders) :: MonthKey(o.purchased)
  {
    var kept := DropUndelivered(orders);
    forall i | 0 <= i < |kept| ensures ds[i].month == MonthKey(kept[i].purchased) {
      assert Derive(kept[i]) == Ok(ds[i]);
    }
    SameMonths(kept, ds);
  }

  lemma SameMonths(kept: seq<OrderRow>, ds: seq<Delivery>)
    requires |ds| == |kept|
    requires forall i :: 0 <= i < |kept| ==> ds[i].month == MonthKey(kept[i].purchased)
    ensures DeliveryMonths(ds) == set o | o in kept :: MonthKey(o.purchased)
  {
    forall d | d in ds ensures d.month in set o | o in kept :: MonthKey(o.purchased) {
      var i :| 0 <= i < |ds| && ds[i] == d;
      assert kept[i] in kept;
    }
    forall o | o in kept ensures MonthKey(o.purchased) in DeliveryMonths(ds) {
      var i :| 0 <= i < |kept| && kept[i] == o;
      assert ds[i] in ds;
    }
  }

  /** Every delivered row carries the month key of its own purchase timestamp. */
  lemma DeliveriesCarryMonthKey(orders: seq<OrderRow>)
    ensures Deliveries(orders).Ok? ==>
      forall d :: d in Deliveries(orders).value ==> d.month == MonthKey(d.purchased)
  {
    if Deliveries(orders).Ok? {
      var ds, kept := Deliveries(orders).value, DropUndelivered(orders);
      forall d | d in ds ensures d.month == MonthKey(d.purchased) {
        var i :| 0 <= i < |ds| && ds[i] == d;
        assert Derive(kept[i]) == Ok(d);
      }
    }
  }

  /**
   * The KPI snapshot the dashboard renders, with the SLA bars labelled by
   * flag (the corrected breakdown); an overflowing delivery time aborts the
   * render before any KPI is shown.
   */
  function ComputeSnapshot(orders: seq<OrderRow>, payments: seq<PaymentRow>): (r: Result<Snapshot, Overflow>)
    ensures r.Err? <==> exists o :: o in orders && Overflows(o)
    ensures r.Ok? ==> r.value.totalOrders == |set o | o in orders :: o.id|
    ensures r.Ok? ==> r.value.totalRevenue == TotalRevenue(payments)
    ensures r.Ok? ==> SumRevenues(r.value.revenueByKind) == r.value.totalRevenue
    ensures r.Ok? ==> (r.value.averageDeliveryDays.None? <==> forall o :: o in orders ==> o.delivered.None?)
    ensures r.Ok? ==> (r.value.latePercentage.None? <==> r.value.averageDeliveryDays.None?)
    ensures r.Ok? ==> |r.value.sla| == 2 && r.value.sla[0].count + r.value.sla[1].count == |DropUndelivered(orders)|
    ensures r.Ok? ==> TrendMonths(r.value.trend) == set o | o in DropUndelivered(orders) :: MonthKey(o.purchased)
  {
    match Deliveries(orders)
    case Err(e) => Err(e)
    case Ok(ds) =>
      NoDeliveries(orders);
      GroupTotalsMatchRevenue(payments);
      TrendMonthsArePurchaseMonths(orders);
      Ok(Snapshot(
        TotalOrders(orders),
        TotalRevenue(payments),
        AverageDeliveryDays(ds),
        LatePercentage(ds),
        MonthlyTrend(ds),
        RevenueByKind(payments),
        SlaBreakdown(ds)))
  }

  /** What stops the script: the overflow of the timestamp subtraction or the length mismatch of the SLA relabelling. */
  datatype RenderError = TimeOverflow(overflow: Overflow) | SlaMismatch(mismatch: LengthMismatch)

  /**
   * The render as the script performs it, SLA bars labelled by position: it
   * also stops when the delivered view lacks on-time or late rows.
   */
  function RenderAsWritten(orders: seq<OrderRow>, payments: seq<PaymentRow>): (r: Result<Snapshot, RenderError>)
    ensures r.Err? <==>
      ((exists o :: o in orders && Overflows(o))
       || (Deliveries(orders).Ok? && (CountFlag(Deliveries(orders).value, false) == 0 || CountFlag(Deliveries(orders).value, true) == 0)))
    ensures r.Err? && r.error.SlaMismatch? ==>
      (r.error.mismatch == LengthMismatch(if DropUndelivered(orders) == [] then 0 else 1, 2))
  {
    match Deliveries(orders)
    case Err(e) => Err(TimeOverflow(e))
    case Ok(ds) =>
      SlaAsWrittenFails(ds);
      match SlaAsWritten(ds)
      case Err(m) => Err(SlaMismatch(m))
      case Ok(bars) =>
        Ok(Snapshot(
          TotalOrders(orders),
          TotalRevenue(payments),
          AverageDeliveryDays(ds),
          LatePercentage(ds),
          MonthlyTrend(ds),
          RevenueByKind(payments),
          bars))
  }

  /**
   * Where the script renders, its snapshot differs from the corrected one in
   * the SLA bars alone, and not even there when late deliveries do not
   * outnumber on-time ones.
   */
  lemma RenderAsWrittenAgrees(orders: seq<OrderRow>, payments: seq<PaymentRow>)
    ensures RenderAsWritten(orders, payments).Ok? ==>
      (ComputeSnapshot(orders, payments).Ok?
       && RenderAsWritten(orders, payments).value.(sla := []) == ComputeSnapshot(orders, payments).value.(sla := []))
    ensures (RenderAsWritten(orders, payments).Ok? && Deliveries(orders).Ok?
             && CountFlag(Deliveries(orders).value, true) <= CountFlag(Deliveries(orders).value, false)) ==>
      (ComputeSnapshot(orders, payments).Ok? && RenderAsWritten(orders, payments).value == ComputeSnapshot(orders, payments).value)
  {
    if RenderAsWritten(orders, payments).Ok? {
      var ds := Deliveries(orders).value;
      var bars := SlaAsWritten(ds).value;
      var common := Snapshot(
        TotalOrders(orders),
        TotalRevenue(payments),
        AverageDeliveryDays(ds),
        LatePercentage(ds),
        MonthlyTrend(ds),
        RevenueByKind(payments),
        []);
      assert RenderAsWritten(orders, payments) == Ok(common.(sla := bars));
      assert ComputeSnapshot(orders, payments) == Ok(common.(sla := SlaBreakdown(ds)));
      if CountFlag(ds, true) <= CountFlag(ds, false) {
        SlaAsWrittenFails(ds);
        SlaAgreesWhenOnTimeDominates(ds);
      }
    }
  }

  /** One on-time delivery and no late one: the corrected snapshot renders, the script stops at the SLA chart. */
  lemma RenderAsWrittenFailsOnTimeOnly()
    ensures var orders := [OrderRow("a", 0, Some(NanosPerDay))];
      ComputeSnapshot(orders, []).Ok? && RenderAsWritten(orders, []) == Err(SlaMismatch(LengthMismatch(1, 2)))
  {
    var orders := [OrderRow("a", 0, Some(NanosPerDay))];
    assert DropUndelivered(orders) == orders;
    var ds := Deliveries(orders).value;
    assert ds[0].days == 1 && !ds[0].late;
    assert CountFlag(ds, true) == 0;
  }
}
