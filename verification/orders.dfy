/**
 * The order-side KPIs of the dashboard: distinct order count, the
 * delivered-orders view with its derived columns, mean delivery time, late
 * percentage, the monthly trend and the delivery SLA breakdown.
 */
module Orders {
  import opened Wrappers
  import opened Ordering
  import opened Calendar

  /** One row of the orders table, after `pd.to_datetime`; a blank delivery date is NaT. */
  datatype OrderRow = OrderRow(id: string, purchased: Timestamp, delivered: Option<Timestamp>)

  /** A row that kept its delivery date, with the columns the dashboard adds to it. */
  datatype Delivery = Delivery(
    id: string,
    purchased: Timestamp,
    delivered: Timestamp,
    days: int,
    late: bool,
    month: string)

  /** Deliveries taking more than this many whole days are late. */
  const LateAfterDays: int := 7

  function Ids(rows: seq<OrderRow>): (ids: seq<string>)
    ensures |ids| == |rows|
    ensures forall i :: 0 <= i < |rows| ==> ids[i] == rows[i].id
  {
    seq(|rows|, i requires 0 <= i < |rows| => rows[i].id)
  }

  /** `Series.nunique()`: the number of distinct values. */
  function NUnique(xs: seq<string>): (r: nat)
    ensures r == |set x | x in xs|
    ensures r <= |xs|
    ensures |xs| > 0 ==> r > 0
  {
    if xs == [] then 0
    else
      var rest := NUnique(xs[1..]);
      assert (set x | x in xs) == (set x | x in xs[1..]) + {xs[0]} by {
        assert xs == [xs[0]] + xs[1..];
      }
      if xs[0] in xs[1..] then rest else 1 + rest
  }

  /** Total orders: distinct ids over every row, delivered or not. */
  function TotalOrders(orders: seq<OrderRow>): (r: nat)
    ensures r == |set o | o in orders :: o.id|
    ensures r <= |orders|
  {
    assert (set o | o in orders :: o.id) == (set x | x in Ids(orders)) by {
      forall x | x in Ids(orders) ensures x in (set o | o in orders :: o.id) {
        var i :| 0 <= i < |orders| && Ids(orders)[i] == x;
        assert orders[i] in orders;
      }
    }
    NUnique(Ids(orders))
  }

  /** `dropna(subset=[delivered])`: the rows with a delivery date, each as often as it occurs. */
  function DropUndelivered(orders: seq<OrderRow>): (r: seq<OrderRow>)
    ensures forall o :: multiset(r)[o] == if o.delivered.Some? then multiset(orders)[o] else 0
    ensures forall o :: o in r ==> o.delivered.Some?
  {
    if orders == [] then []
    else
      assert orders == [orders[0]] + orders[1..];
      var rest := DropUndelivered(orders[1..]);
      if orders[0].delivered.Some? then [orders[0]] + rest else rest
  }

  /** `OverflowError("Overflow in int64 addition")`, raised by the timestamp subtraction. */
  datatype Overflow = OverflowInInt64Addition

  /** A delivered row whose purchase-to-delivery time does not fit a datetime64[ns] difference. */
  predicate Overflows(o: OrderRow)
  {
    o.delivered.Some? && !DifferenceFits(o.delivered.value, o.purchased)
  }

  /**
   * The columns the dashboard derives for a delivered order, or the overflow
   * its timestamp subtraction raises.
   */
  function Derive(o: OrderRow): (r: Result<Delivery, Overflow>)
    requires o.delivered.Some?
    ensures r.Err? <==> Overflows(o)
    ensures r.Ok? ==> r.value.id == o.id && r.value.purchased == o.purchased && r.value.delivered == o.delivered.value
    ensures r.Ok? ==> r.value.days * NanosPerDay <= r.value.delivered - r.value.purchased < (r.value.days + 1) * NanosPerDay
    ensures r.Ok? ==> (r.value.late <==> r.value.days >= LateAfterDays + 1)
    ensures r.Ok? ==> r.value.month == MonthKey(r.value.purchased)
  {
    if !DifferenceFits(o.delivered.value, o.purchased) then Err(OverflowInInt64Addition)
    else
      var days := WholeDays(o.delivered.value - o.purchased);
      Ok(Delivery(o.id, o.purchased, o.delivered.value, days, days > LateAfterDays, MonthKey(o.purchased)))
  }

  /** The rows `dropna` keeps are exactly the order rows with a delivery date. */
  lemma KeptRows(orders: seq<OrderRow>)
    ensures forall o :: o in DropUndelivered(orders) <==> o in orders && o.delivered.Some?
  {
    var kept := DropUndelivered(orders);
    forall o ensures o in kept <==> o in orders && o.delivered.Some? {
      assert o in kept <==> multiset(kept)[o] > 0;
      assert o in orders <==> multiset(orders)[o] > 0;
    }
  }

  /**
   * The delivered rows with their derived columns: the table every delivery
   * KPI reads. The subtraction runs over the whole column, so one overflowing
   * row aborts the render.
   */
  function Deliveries(orders: seq<OrderRow>): (r: Result<seq<Delivery>, Overflow>)
    ensures r.Err? <==> exists o :: o in orders && Overflows(o)
    ensures r.Ok? ==> var kept := DropUndelivered(orders);
      |r.value| == |kept| && forall i :: 0 <= i < |kept| ==> Derive(kept[i]) == Ok(r.value[i])
  {
    var kept := DropUndelivered(orders);
    KeptRows(orders);
    if exists o :: o in kept && Overflows(o) then Err(OverflowInInt64Addition)
    else Ok(seq(|kept|, i requires 0 <= i < |kept| => Derive(kept[i]).value))
  }

  function SumDays(ds: seq<Delivery>): int
  {
    if ds == [] then 0 else ds[0].days + SumDays(ds[1..])
  }

  /** The number of rows whose lateness flag is `flag`. */
  function CountFlag(ds: seq<Delivery>, flag: bool): (r: nat)
    ensures r <= |ds|
  {
    if ds == [] then 0 else (if ds[0].late == flag then 1 else 0) + CountFlag(ds[1..], flag)
  }

  /** No row has the flag exactly when the count is zero; every row has it exactly when the count is the row count. */
  lemma {:induction false} CountFlagExtremes(ds: seq<Delivery>, flag: bool)
    ensures CountFlag(ds, flag) == 0 <==> forall d :: d in ds ==> d.late != flag
    ensures CountFlag(ds, flag) == |ds| <==> forall d :: d in ds ==> d.late == flag
  {
    if ds != [] {
      assert forall d :: d in ds <==> d == ds[0] || d in ds[1..];
      CountFlagExtremes(ds[1..], flag);
    }
  }

  lemma {:induction false} FlagsPartition(ds: seq<Delivery>)
    ensures CountFlag(ds, false) + CountFlag(ds, true) == |ds|
  {
    if ds != [] {
      FlagsPartition(ds[1..]);
    }
  }

  /** Mean delivery time in days; None (NaN) when no order has a delivery date. */
  function AverageDeliveryDays(ds: seq<Delivery>): (r: Option<real>)
    ensures r.None? <==> ds == []
    ensures r.Some? ==> r.value * |ds| as real == SumDays(ds) as real
  {
    if ds == [] then None else Some(SumDays(ds) as real / |ds| as real)
  }

  /** The mean lies between the shortest and the longest delivery. */
  lemma AverageWithinBounds(ds: seq<Delivery>, lo: int, hi: int)
    requires ds != []
    requires forall d :: d in ds ==> lo <= d.days <= hi
    ensures lo as real <= AverageDeliveryDays(ds).value <= hi as real
  {
    SumDaysBounds(ds, lo, hi);
    var n := |ds|;
    var total := SumDays(ds);
    CastProduct(lo, n);
    CastProduct(hi, n);
    QuotientBounds(total as real, n as real, lo as real, hi as real);
  }

  /** Casting a product to real multiplies the casts; kept apart so the solver meets this nonlinear fact alone. */
  lemma CastProduct(a: int, b: int)
    ensures (a * b) as real == a as real * b as real
  {
  }

  lemma {:induction false} SumDaysBounds(ds: seq<Delivery>, lo: int, hi: int)
    requires forall d :: d in ds ==> lo <= d.days <= hi
    ensures lo * |ds| <= SumDays(ds) <= hi * |ds|
  {
    if ds != [] {
      assert ds[0] in ds;
      var tail := ds[1..];
      assert forall d :: d in tail ==> d in ds;
      SumDaysBounds(tail, lo, hi);
      Distribute(lo, |tail|);
      Distribute(hi, |tail|);
    }
  }

  /** One more row adds one more bound to a sum bound. */
  lemma Distribute(c: int, n: nat)
    ensures c * (n + 1) == c * n + c
  {
  }

  /** `is_late.mean() * 100`; None (NaN) when no order has a delivery date. */
  function LatePercentage(ds: seq<Delivery>): (r: Option<real>)
    ensures r.None? <==> ds == []
    ensures r.Some? ==> 0.0 <= r.value <= 100.0
    ensures r.Some? ==> r.value * |ds| as real == 100.0 * CountFlag(ds, true) as real
  {
    if ds == [] then None else Some(Percent(CountFlag(ds, true), |ds|))
  }

  /** The late percentage is 0 exactly when no delivery is late and 100 exactly when all are. */
  lemma LatePercentageExtremes(ds: seq<Delivery>)
    requires ds != []
    ensures LatePercentage(ds).value == 0.0 <==> forall d :: d in ds ==> !d.late
    ensures LatePercentage(ds).value == 100.0 <==> forall d :: d in ds ==> d.late
  {
    CountFlagExtremes(ds, true);
  }

  /** Bounds on a sum bound its quotient by a positive count. */
  lemma QuotientBounds(s: real, w: real, lo: real, hi: real)
    requires w > 0.0 && lo * w <= s <= hi * w
    ensures lo <= s / w <= hi
  {
  }

  /** A quotient by a positive count is characterised by multiplying back. */
  lemma QuotientExact(s: real, w: real, v: real)
    requires w > 0.0
    ensures s / w == v <==> s == v * w
  {
  }

  /** `part` as a percentage of `whole`. */
  function Percent(part: nat, whole: nat): (p: real)
    requires 0 < whole && part <= whole
    ensures 0.0 <= p <= 100.0
    ensures p * whole as real == 100.0 * part as real
    ensures p == 0.0 <==> part == 0
    ensures p == 100.0 <==> part == whole
  {
    var w, k := whole as real, part as real;
    QuotientBounds(100.0 * k, w, 0.0, 100.0);
    QuotientExact(100.0 * k, w, 0.0);
    QuotientExact(100.0 * k, w, 100.0);
    QuotientExact(100.0 * k, w, 100.0 * k / w);
    100.0 * k / w
  }

  /**
   * Durations are cut down to whole days: 6 days 23:59 counts as 6, and a
   * delivery just short of 8 days counts as 7 and is on time, while one of
   * exactly 8 days is late.
   */
  lemma DeliveryDaysExamples(id: string, t: Timestamp)
    requires t <= MaxNanos - 8 * NanosPerDay
    ensures var r := Derive(OrderRow(id, t, Some(t + 6 * NanosPerDay + (23 * 3600 + 59 * 60) * NanosPerSecond)));
      r.Ok? && r.value.days == 6
    ensures var r := Derive(OrderRow(id, t, Some(t + 8 * NanosPerDay - 1))); r.Ok? && r.value.days == 7 && !r.value.late
    ensures var r := Derive(OrderRow(id, t, Some(t + 8 * NanosPerDay))); r.Ok? && r.value.days == 8 && r.value.late
  {
  }

  /**
   * The longest representable delivery time, MaxNanos nanoseconds, is 106751
   * whole days; one nanosecond more, or a purchase at the earliest timestamp
   * delivered at the latest, raises the overflow.
   */
  lemma OverflowBoundary(id: string)
    ensures var r := Derive(OrderRow(id, 0, Some(MaxNanos))); r.Ok? && r.value.days == 106751 && r.value.late
    ensures Derive(OrderRow(id, -1, Some(MaxNanos))) == Err(OverflowInInt64Addition)
    ensures Derive(OrderRow(id, -MaxNanos, Some(MaxNanos))) == Err(OverflowInInt64Addition)
  {
  }

  /** One point of the monthly trend. */
  datatype MonthCount = MonthCount(month: string, orders: nat)

  /** The deliveries whose purchase falls in month `key`. */
  function InMonth(ds: seq<Delivery>, key: string): (r: seq<Delivery>)
    ensures forall d :: d in r <==> d in ds && d.month == key
  {
    if ds == [] then []
    else
      assert forall d :: d in ds <==> d == ds[0] || d in ds[1..];
      (if ds[0].month == key then [ds[0]] else []) + InMonth(ds[1..], key)
  }

  function DeliveryIds(ds: seq<Delivery>): (ids: seq<string>)
    ensures |ids| == |ds|
    ensures forall x :: x in ids <==> exists d :: d in ds && d.id == x
  {
    if ds == [] then []
    else
      assert forall d :: d in ds <==> d == ds[0] || d in ds[1..];
      [ds[0].id] + DeliveryIds(ds[1..])
  }

  function Months(ds: seq<Delivery>): (ms: seq<string>)
    ensures forall x :: x in ms <==> exists d :: d in ds && d.month == x
  {
    if ds == [] then []
    else
      assert forall d :: d in ds <==> d == ds[0] || d in ds[1..];
      [ds[0].month] + Months(ds[1..])
  }

  /** The purchase months that occur among the deliveries. */
  function DeliveryMonths(ds: seq<Delivery>): set<string>
  {
    set d | d in ds :: d.month
  }

  /** The months that have a point in the trend. */
  function TrendMonths(r: seq<MonthCount>): set<string>
  {
    set i | 0 <= i < |r| :: r[i].month
  }

  /** The distinct ids of the orders purchased in month `key`. */
  function OrderIdsInMonth(ds: seq<Delivery>, key: string): set<string>
  {
    set d | d in ds && d.month == key :: d.id
  }

  /** `groupby(order_month)[order_id].nunique()`, in ascending month order. */
  function MonthlyTrend(ds: seq<Delivery>): (r: seq<MonthCount>)
    ensures forall i, j :: 0 <= i < j < |r| ==> Less(r[i].month, r[j].month)
    ensures TrendMonths(r) == DeliveryMonths(ds)
    ensures forall i :: 0 <= i < |r| ==> r[i].orders == |OrderIdsInMonth(ds, r[i].month)|
    ensures forall i :: 0 <= i < |r| ==> 1 <= r[i].orders
  {
    var keys := SortedKeys(Months(ds));
    var r := seq(|keys|, i requires 0 <= i < |keys| => MonthCount(keys[i], NUnique(DeliveryIds(InMonth(ds, keys[i])))));
    forall i | 0 <= i < |r|
      ensures r[i].orders == |OrderIdsInMonth(ds, r[i].month)|
      ensures 1 <= r[i].orders
      ensures r[i].month in DeliveryMonths(ds)
    {
      MonthPoint(ds, keys[i]);
    }
    forall d | d in ds
      ensures d.month in TrendMonths(r)
    {
      assert d.month in Months(ds);
      var i :| 0 <= i < |keys| && keys[i] == d.month;
      assert r[i].month == d.month;
    }
    r
  }

  /** A month that occurs among the deliveries has at least one distinct order id. */
  lemma MonthPoint(ds: seq<Delivery>, key: string)
    requires key in Months(ds)
    ensures NUnique(DeliveryIds(InMonth(ds, key))) == |OrderIdsInMonth(ds, key)|
    ensures 1 <= NUnique(DeliveryIds(InMonth(ds, key)))
    ensures key in DeliveryMonths(ds)
  {
    var sub := InMonth(ds, key);
    var ids := DeliveryIds(sub);
    assert (set x | x in ids) == OrderIdsInMonth(ds, key);
    var d :| d in ds && d.month == key;
    assert d.id in ids;
  }

  /** Buckets later in the trend hold only orders purchased strictly later. */
  lemma TrendIsChronological(ds: seq<Delivery>, i: int, j: int, d1: Delivery, d2: Delivery)
    requires forall d :: d in ds ==> d.month == MonthKey(d.purchased)
    requires 0 <= i < j < |MonthlyTrend(ds)|
    requires d1 in ds && d1.month == MonthlyTrend(ds)[i].month
    requires d2 in ds && d2.month == MonthlyTrend(ds)[j].month
    ensures d1.purchased < d2.purchased
  {
    EarlierKeyEarlierTime(d1.purchased, d2.purchased);
  }

  /** One (flag, count) entry of `value_counts()`. */
  datatype FlagCount = FlagCount(flag: bool, count: nat)

  /**
   * `is_late.value_counts()`: one entry per flag value present, largest count
   * first; on a tie the value seen first comes first.
   */
  function ValueCounts(ds: seq<Delivery>): (r: seq<FlagCount>)
    ensures forall i :: 0 <= i < |r| ==> r[i].count == CountFlag(ds, r[i].flag) && r[i].count > 0
    ensures forall d :: d in ds ==> FlagCount(d.late, CountFlag(ds, d.late)) in r
    ensures forall i, j :: 0 <= i < j < |r| ==> r[i].flag != r[j].flag && r[i].count >= r[j].count
    ensures |r| == 2 <==> CountFlag(ds, false) > 0 && CountFlag(ds, true) > 0
    ensures |r| == 0 <==> ds == []
  {
    if ds == [] then []
    else
      var first := ds[0].late;
      var a, b := CountFlag(ds, first), CountFlag(ds, !first);
      assert ds[0] in ds;
      CountFlagExtremes(ds, !first);
      if b == 0 then
        assert forall d :: d in ds ==> d.late == first;
        [FlagCount(first, a)]
      else if b > a then [FlagCount(!first, b), FlagCount(first, a)]
      else [FlagCount(first, a), FlagCount(!first, b)]
  }

  /** The error that assigning an index of the wrong length raises: the series' length, then the new index's. */
  datatype LengthMismatch = LengthMismatch(axisLength: nat, newLength: nat)

  /** One bar of the SLA chart. */
  datatype StatusCount = StatusCount(status: string, count: nat)

  /** `late_counts.index = ["On Time", "Late"]`: the labels go on by position. */
  function RelabelAsWritten(vc: seq<FlagCount>): Result<seq<StatusCount>, LengthMismatch>
  {
    if |vc| == 2 then Ok([StatusCount("On Time", vc[0].count), StatusCount("Late", vc[1].count)])
    else Err(LengthMismatch(|vc|, 2))
  }

  /** The SLA breakdown as the dashboard computes it. */
  function SlaAsWritten(ds: seq<Delivery>): Result<seq<StatusCount>, LengthMismatch>
  {
    RelabelAsWritten(ValueCounts(ds))
  }

  /**
   * The breakdown raises unless both on-time and late deliveries occur, and
   * then reports the one or zero counts it had against the two labels.
   */
  lemma SlaAsWrittenFails(ds: seq<Delivery>)
    ensures SlaAsWritten(ds).Err? <==> CountFlag(ds, false) == 0 || CountFlag(ds, true) == 0
    ensures SlaAsWritten(ds).Err? ==> SlaAsWritten(ds).error == LengthMismatch(if ds == [] then 0 else 1, 2)
  {
  }

  /**
   * When it succeeds, the bar labelled "On Time" carries the on-time count
   * exactly when on-time deliveries are at least as many as late ones.
   */
  lemma SlaAsWrittenLabels(ds: seq<Delivery>)
    requires SlaAsWritten(ds).Ok?
    ensures SlaAsWritten(ds).value[0].count == CountFlag(ds, false)
      <==> CountFlag(ds, false) >= CountFlag(ds, true)
  {
    var vc := ValueCounts(ds);
    assert vc[0].flag != vc[1].flag;
  }

  /** Two late deliveries and one on-time one: the "On Time" bar shows 2 and the "Late" bar 1. */
  lemma SlaAsWrittenMislabels()
    ensures var ds := [
        Delivery("a", 0, 10 * NanosPerDay, 10, true, "1970-01"),
        Delivery("b", 0, 10 * NanosPerDay, 10, true, "1970-01"),
        Delivery("c", 0, NanosPerDay, 1, false, "1970-01")];
      SlaAsWritten(ds) == Ok([StatusCount("On Time", 2), StatusCount("Late", 1)])
      && CountFlag(ds, false) == 1 && CountFlag(ds, true) == 2
  {
    var ds := [
        Delivery("a", 0, 10 * NanosPerDay, 10, true, "1970-01"),
        Delivery("b", 0, 10 * NanosPerDay, 10, true, "1970-01"),
        Delivery("c", 0, NanosPerDay, 1, false, "1970-01")];
    assert ds[1..] == [ds[1], ds[2]] && ds[1..][1..] == [ds[2]] && [ds[2]][1..] == [];
    assert CountFlag([ds[2]], true) == 0 && CountFlag([ds[2]], false) == 1;
    assert CountFlag(ds, true) == 2;
    assert CountFlag(ds, false) == 1;
  }

  /** Only on-time deliveries: the breakdown raises instead of showing zero late orders. */
  lemma SlaAsWrittenAllOnTimeFails()
    ensures SlaAsWritten([Delivery("a", 0, NanosPerDay, 1, false, "1970-01")]) == Err(LengthMismatch(1, 2))
  {
    var ds := [Delivery("a", 0, NanosPerDay, 1, false, "1970-01")];
    assert CountFlag(ds, true) == 0;
  }

  /** The SLA breakdown labelled by flag value, both bars always present. */
  function SlaBreakdown(ds: seq<Delivery>): (r: seq<StatusCount>)
    ensures |r| == 2 && r[0].status == "On Time" && r[1].status == "Late"
    ensures r[0].count == CountFlag(ds, false) && r[1].count == CountFlag(ds, true)
    ensures r[0].count + r[1].count == |ds|
  {
    FlagsPartition(ds);
    [StatusCount("On Time", CountFlag(ds, false)), StatusCount("Late", CountFlag(ds, true))]
  }

  /** Where the positional labelling does succeed and on-time orders are not outnumbered, it agrees. */
  lemma SlaAgreesWhenOnTimeDominates(ds: seq<Delivery>)
    requires CountFlag(ds, true) > 0
    requires CountFlag(ds, false) >= CountFlag(ds, true)
    ensures SlaAsWritten(ds) == Ok(SlaBreakdown(ds))
  {
    SlaAsWrittenFails(ds);
    SlaAsWrittenLabels(ds);
    FlagsPartition(ds);
    var vc := ValueCounts(ds);
    assert vc[0].flag != vc[1].flag;
  }

  /** Undelivered rows change the distinct order count but no delivery metric. */
  lemma UndeliveredRowIgnored(orders: seq<OrderRow>, o: OrderRow)
    requires o.delivered.None?
    ensures Deliveries(orders + [o]) == Deliveries(orders)
    ensures TotalOrders(orders + [o]) == TotalOrders(orders) + (if o.id in Ids(orders) then 0 else 1)
  {
    DropAppend(orders, o);
    AppendIds(orders, o);
  }

  lemma AppendIds(orders: seq<OrderRow>, o: OrderRow)
    ensures TotalOrders(orders + [o]) == TotalOrders(orders) + (if o.id in Ids(orders) then 0 else 1)
  {
    var s := set p | p in orders :: p.id;
    var all := orders + [o];
    var t := set p | p in all :: p.id;
    forall x | x in t ensures x in s + {o.id} {
      var p :| p in all && p.id == x;
      if p != o {
        assert p in orders;
      }
    }
    forall x | x in s + {o.id} ensures x in t {
      if x == o.id {
        assert o in all;
      } else {
        var p :| p in orders && p.id == x;
        assert p in all;
      }
    }
    assert t == s + {o.id};
    assert o.id in Ids(orders) <==> o.id in s by {
      if o.id in Ids(orders) {
        var i :| 0 <= i < |orders| && Ids(orders)[i] == o.id;
        assert orders[i] in orders;
      }
      if o.id in s {
        var p :| p in orders && p.id == o.id;
        var i :| 0 <= i < |orders| && orders[i] == p;
        assert Ids(orders)[i] == o.id;
      }
    }
  }

  lemma {:induction false} DropAppend(orders: seq<OrderRow>, o: OrderRow)
    requires o.delivered.None?
    ensures DropUndelivered(orders + [o]) == DropUndelivered(orders)
  {
    if orders == [] {
      assert orders + [o] == [o];
      assert [o][1..] == [];
    } else {
      assert (orders + [o])[0] == orders[0];
      assert (orders + [o])[1..] == orders[1..] + [o];
      DropAppend(orders[1..], o);
    }
  }

  /** Orders used for delivery KPIs are a subset of all orders: their distinct count is no larger. */
  lemma DeliveredOrdersAtMostTotal(orders: seq<OrderRow>)
    ensures Deliveries(orders).Ok? ==> |set d | d in Deliveries(orders).value :: d.id| <= TotalOrders(orders)
  {
    if Deliveries(orders).Ok? {
      var ds := Deliveries(orders).value;
      var kept := DropUndelivered(orders);
      KeptRows(orders);
      forall d | d in ds ensures d.id in (set o | o in orders :: o.id) {
        var i :| 0 <= i < |ds| && ds[i] == d;
        assert Derive(kept[i]) == Ok(d);
        assert kept[i] in kept;
      }
      assert (set d | d in ds :: d.id) <= (set o | o in orders :: o.id);
      SubsetCard(set d | d in ds :: d.id, set o | o in orders :: o.id);
    }
  }

  lemma SubsetCard(a: set<string>, b: set<string>)
    requires a <= b
    ensures |a| <= |b|
  {
    assert b == a + (b - a);
  }
}
