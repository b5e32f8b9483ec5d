/**
 * The payment-side KPIs: total revenue over every payment row and revenue
 * grouped by payment type.
 */
module Payments {
  import opened Ordering

  /** One row of the payments table; several rows may share an order. */
  datatype PaymentRow = PaymentRow(orderId: string, kind: string, value: real)

  /** `payment_value.sum()`: every row counts, however many share an order. */
  function TotalRevenue(ps: seq<PaymentRow>): real
  {
    if ps == [] then 0.0 else ps[0].value + TotalRevenue(ps[1..])
  }

  /** Revenue adds up over any split of the rows, so a repeated order is counted once per row. */
  lemma {:induction false} RevenueAdditive(a: seq<PaymentRow>, b: seq<PaymentRow>)
    ensures TotalRevenue(a + b) == TotalRevenue(a) + TotalRevenue(b)
  {
    if a == [] {
      assert a + b == b;
    } else {
      assert (a + b)[1..] == a[1..] + b;
      RevenueAdditive(a[1..], b);
    }
  }

  lemma {:induction false} RevenueNonNegative(ps: seq<PaymentRow>)
    requires forall p :: p in ps ==> p.value >= 0.0
    ensures TotalRevenue(ps) >= 0.0
  {
    if ps != [] {
      assert ps[0] in ps;
      assert forall p :: p in ps[1..] ==> p in ps;
      RevenueNonNegative(ps[1..]);
    }
  }

  /** Payments (A, 50), (A, 30), (B, 20) total 100. */
  lemma RevenueExample()
    ensures TotalRevenue([PaymentRow("A", "credit_card", 50.0), PaymentRow("A", "voucher", 30.0),
                          PaymentRow("B", "credit_card", 20.0)]) == 100.0
  {
    var ps := [PaymentRow("A", "credit_card", 50.0), PaymentRow("A", "voucher", 30.0),
               PaymentRow("B", "credit_card", 20.0)];
    assert ps[1..] == [ps[1], ps[2]] && ps[1..][1..] == [ps[2]] && [ps[2]][1..] == [];
  }

  /** The revenue of the rows of payment type `kind`. */
  function RevenueOfKind(ps: seq<PaymentRow>, kind: string): real
  {
    if ps == [] then 0.0
    else (if ps[0].kind == kind then ps[0].value else 0.0) + RevenueOfKind(ps[1..], kind)
  }

  function Kinds(ps: seq<PaymentRow>): (ks: seq<string>)
    ensures forall k :: k in ks <==> exists p :: p in ps && p.kind == k
  {
    if ps == [] then []
    else
      assert forall p :: p in ps <==> p == ps[0] || p in ps[1..];
      [ps[0].kind] + Kinds(ps[1..])
  }

  /** One bar of the revenue-by-payment-type chart. */
  datatype KindRevenue = KindRevenue(kind: string, revenue: real)

  /** The payment types that occur in the rows. */
  function PaymentKinds(ps: seq<PaymentRow>): set<string>
  {
    set p | p in ps :: p.kind
  }

  /** The payment types that have a group. */
  function GroupKinds(r: seq<KindRevenue>): set<string>
  {
    set i | 0 <= i < |r| :: r[i].kind
  }

  /** `groupby(payment_type)[payment_value].sum()`, one entry per type, types ascending. */
  function RevenueByKind(ps: seq<PaymentRow>): (r: seq<KindRevenue>)
    ensures forall i, j :: 0 <= i < j < |r| ==> Less(r[i].kind, r[j].kind)
    ensures GroupKinds(r) == PaymentKinds(ps)
    ensures forall i :: 0 <= i < |r| ==> r[i].revenue == RevenueOfKind(ps, r[i].kind)
  {
    var keys := SortedKeys(Kinds(ps));
    var r := seq(|keys|, i requires 0 <= i < |keys| => KindRevenue(keys[i], RevenueOfKind(ps, keys[i])));
    GroupsCoverRows(ps, keys, r);
    r
  }

  lemma GroupsCoverRows(ps: seq<PaymentRow>, keys: seq<string>, r: seq<KindRevenue>)
    requires StrictlyAscending(keys)
    requires forall x :: x in keys <==> exists p :: p in ps && p.kind == x
    requires |r| == |keys|
    requires forall i :: 0 <= i < |r| ==> r[i] == KindRevenue(keys[i], RevenueOfKind(ps, keys[i]))
    ensures forall i, j :: 0 <= i < j < |r| ==> Less(r[i].kind, r[j].kind)
    ensures GroupKinds(r) == PaymentKinds(ps)
    ensures forall i :: 0 <= i < |r| ==> r[i].revenue == RevenueOfKind(ps, r[i].kind)
  {
    forall i | 0 <= i < |r| ensures r[i].kind in PaymentKinds(ps) {
      assert keys[i] in keys;
      var p :| p in ps && p.kind == keys[i];
    }
    forall p | p in ps ensures p.kind in GroupKinds(r) {
      assert p.kind in keys;
      var i :| 0 <= i < |keys| && keys[i] == p.kind;
      assert r[i].kind == p.kind;
    }
  }

  function SumRevenues(r: seq<KindRevenue>): real
  {
    if r == [] then 0.0 else r[0].revenue + SumRevenues(r[1..])
  }

  /** The per-type totals add up to the total revenue: no row is dropped and none counted twice. */
  lemma GroupTotalsMatchRevenue(ps: seq<PaymentRow>)
    ensures SumRevenues(RevenueByKind(ps)) == TotalRevenue(ps)
  {
    var r := RevenueByKind(ps);
    var keys := seq(|r|, i requires 0 <= i < |r| => r[i].kind);
    assert Distinct(keys) by {
      assert StrictlyAscending(keys);
      forall i, j | 0 <= i < |keys| && 0 <= j < |keys| && i != j ensures keys[i] != keys[j] {
        AscendingDistinct(keys, i, j);
      }
    }
    assert forall p :: p in ps ==> p.kind in keys by {
      forall p | p in ps ensures p.kind in keys {
        assert p.kind in PaymentKinds(ps);
        assert p.kind in GroupKinds(r);
        var i :| 0 <= i < |r| && r[i].kind == p.kind;
        assert keys[i] == p.kind;
      }
    }
    SumOverKeys(ps, keys);
    SumRevenuesIs(ps, r, keys);
  }

  function SumOfKinds(ps: seq<PaymentRow>, ks: seq<string>): real
  {
    if ks == [] then 0.0 else RevenueOfKind(ps, ks[0]) + SumOfKinds(ps, ks[1..])
  }

  lemma {:induction false} SumRevenuesIs(ps: seq<PaymentRow>, r: seq<KindRevenue>, ks: seq<string>)
    requires |ks| == |r|
    requires forall i :: 0 <= i < |r| ==> ks[i] == r[i].kind && r[i].revenue == RevenueOfKind(ps, r[i].kind)
    ensures SumRevenues(r) == SumOfKinds(ps, ks)
  {
    if r != [] {
      SumRevenuesIs(ps, r[1..], ks[1..]);
    }
  }

  /** Summing the per-type revenues over distinct types that cover every row gives the total revenue. */
  lemma {:induction false} SumOverKeys(ps: seq<PaymentRow>, ks: seq<string>)
    requires Distinct(ks)
    requires forall p :: p in ps ==> p.kind in ks
    ensures SumOfKinds(ps, ks) == TotalRevenue(ps)
  {
    if ps != [] {
      var tail := ps[1..];
      assert forall p :: p in tail ==> p in ps;
      SumOverKeys(tail, ks);
      assert ps[0] in ps;
      SplitHead(ps, ks);
      OneMatchingKey(ps[0], ks);
    } else {
      NoRows(ks);
    }
  }

  lemma {:induction false} NoRows(ks: seq<string>)
    ensures SumOfKinds([], ks) == 0.0
  {
    if ks != [] {
      NoRows(ks[1..]);
    }
  }

  /** Summing over the keys splits into the first row's contribution and the rest. */
  lemma {:induction false} SplitHead(ps: seq<PaymentRow>, ks: seq<string>)
    requires ps != []
    ensures SumOfKinds(ps, ks) == Indicator(ps[0], ks) + SumOfKinds(ps[1..], ks)
  {
    if ks != [] {
      SplitHead(ps, ks[1..]);
    }
  }

  /** The first row's value, counted once for every key equal to its type. */
  function Indicator(p: PaymentRow, ks: seq<string>): real
  {
    if ks == [] then 0.0 else (if ks[0] == p.kind then p.value else 0.0) + Indicator(p, ks[1..])
  }

  lemma {:induction false} OneMatchingKey(p: PaymentRow, ks: seq<string>)
    requires Distinct(ks)
    requires p.kind in ks
    ensures Indicator(p, ks) == p.value
  {
    if ks[0] == p.kind {
      NoMatchingKey(p, ks[1..]);
    } else {
      assert Distinct(ks[1..]) by {
        forall i, j | 0 <= i < |ks[1..]| && 0 <= j < |ks[1..]| && i != j ensures ks[1..][i] != ks[1..][j] {
          assert ks[1..][i] == ks[i + 1] && ks[1..][j] == ks[j + 1];
        }
      }
      OneMatchingKey(p, ks[1..]);
    }
  }

  lemma {:induction false} NoMatchingKey(p: PaymentRow, ks: seq<string>)
    requires p.kind !in ks
    ensures Indicator(p, ks) == 0.0
  {
    if ks != [] {
      NoMatchingKey(p, ks[1..]);
    }
  }
}
