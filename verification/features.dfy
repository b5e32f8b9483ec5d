/**
 * The delay-risk predictor's input alignment: selecting the classifier's
 * expected feature columns, in order, from the sidebar's input row, and the
 * risk label drawn from the classifier's answer.
 */
module Features {
  import opened Wrappers
  import opened Ordering

  /** One column of a single-row data frame. */
  datatype Column = Column(name: string, value: real)

  /**
   * The `KeyError` raised by `frame[keys]`: when no key is a column pandas
   * reports all the keys, otherwise the missing ones, each once, in order.
   */
  datatype KeyError = NoneOfKeysPresent(keys: seq<string>) | KeysNotInIndex(missing: seq<string>)

  /** The feature list the classifier was trained on. */
  function ExpectedFeatures(): (fs: seq<string>)
    ensures |fs| == 5 && Distinct(fs)
  {
    [
      "order_item_count",
      "order_purchase_hour",
      "payment_type_credit_card",
      "payment_type_debit_card",
      "payment_type_voucher"
    ]
  }

  function Names(record: seq<Column>): (ns: seq<string>)
    ensures |ns| == |record|
    ensures forall i :: 0 <= i < |record| ==> ns[i] == record[i].name
  {
    seq(|record|, i requires 0 <= i < |record| => record[i].name)
  }

  /** The value of the first column called `name`, if there is one. */
  function Lookup(record: seq<Column>, name: string): (r: Option<real>)
    ensures r.Some? <==> name in Names(record)
    ensures r.Some? ==> Column(name, r.value) in record
  {
    if record == [] then None
    else if record[0].name == name then Some(record[0].value)
    else
      assert Names(record) == [record[0].name] + Names(record[1..]);
      Lookup(record[1..], name)
  }

  /** The keys that are not columns of `record`, in key order, repeats kept. */
  function Missing(record: seq<Column>, keys: seq<string>): (r: seq<string>)
    ensures forall x :: x in r <==> x in keys && x !in Names(record)
    ensures |r| <= |keys|
    ensures r == [] <==> forall k :: k in keys ==> k in Names(record)
  {
    if keys == [] then []
    else
      assert forall x :: x in keys <==> x == keys[0] || x in keys[1..];
      (if keys[0] in Names(record) then [] else [keys[0]]) + Missing(record, keys[1..])
  }

  /** Every key is missing exactly when the missing list is as long as the key list. */
  lemma {:induction false} AllMissing(record: seq<Column>, keys: seq<string>)
    ensures |Missing(record, keys)| == |keys| <==> forall k :: k in keys ==> k !in Names(record)
  {
    if keys != [] {
      assert forall x :: x in keys <==> x == keys[0] || x in keys[1..];
      AllMissing(record, keys[1..]);
    }
  }

  /** The position of the first occurrence of `x` in `xs`. */
  function FirstIndex(xs: seq<string>, x: string): (i: nat)
    requires x in xs
    ensures i < |xs| && xs[i] == x && x !in xs[..i]
  {
    if xs[0] == x then 0 else 1 + FirstIndex(xs[1..], x)
  }

  /** Appending a value leaves the first occurrences of the earlier values where they were. */
  lemma {:induction false} FirstIndexAppend(xs: seq<string>, y: string, x: string)
    requires x in xs
    ensures FirstIndex(xs + [y], x) == FirstIndex(xs, x)
  {
    if xs[0] != x {
      assert (xs + [y])[1..] == xs[1..] + [y];
      FirstIndexAppend(xs[1..], y, x);
    }
  }

  /** `Index.unique()`: each value once, in order of first occurrence. */
  function Unique(xs: seq<string>): (r: seq<string>)
    ensures Distinct(r)
    ensures forall x :: x in r <==> x in xs
    ensures forall i, j :: 0 <= i < j < |r| ==> FirstIndex(xs, r[i]) < FirstIndex(xs, r[j])
  {
    if xs == [] then []
    else
      var init := xs[..|xs| - 1];
      assert xs == init + [xs[|xs| - 1]];
      var last := xs[|xs| - 1];
      var u := Unique(init);
      UniqueStep(init, last, u);
      if last in u then u else u + [last]
  }

  /** Appending a value new to `init` after the values of `init` keeps first-occurrence order. */
  lemma UniqueStep(init: seq<string>, last: string, u: seq<string>)
    requires forall x :: x in u <==> x in init
    requires forall i, j :: 0 <= i < j < |u| ==> FirstIndex(init, u[i]) < FirstIndex(init, u[j])
    ensures forall i, j :: 0 <= i < j < |u| ==> FirstIndex(init + [last], u[i]) < FirstIndex(init + [last], u[j])
    ensures last !in init ==> forall i, j :: 0 <= i < j < |u| + 1 ==>
      FirstIndex(init + [last], (u + [last])[i]) < FirstIndex(init + [last], (u + [last])[j])
  {
    var xs := init + [last];
    forall x | x in init ensures FirstIndex(xs, x) == FirstIndex(init, x) {
      FirstIndexAppend(init, last, x);
    }
    if last !in init {
      assert xs[..|init|] == init;
      assert FirstIndex(xs, last) == |init|;
      forall i, j | 0 <= i < j < |u| + 1
        ensures FirstIndex(xs, (u + [last])[i]) < FirstIndex(xs, (u + [last])[j])
      {
        assert (u + [last])[i] == u[i];
        if j == |u| {
          assert FirstIndex(xs, u[i]) == FirstIndex(init, u[i]) < |init|;
        }
      }
    }
  }

  /** `frame[keys]`: the values of the named columns in key order, or the `KeyError`. */
  function SelectColumns(record: seq<Column>, keys: seq<string>): (r: Result<seq<real>, KeyError>)
    ensures r.Ok? <==> forall k :: k in keys ==> k in Names(record)
    ensures r.Ok? ==> |r.value| == |keys|
    ensures r.Ok? ==> forall i :: 0 <= i < |keys| ==> Column(keys[i], r.value[i]) in record
    ensures r.Err? && r.error.NoneOfKeysPresent? ==>
      r.error.keys == keys && keys != [] && forall k :: k in keys ==> k !in Names(record)
    ensures r.Err? && r.error.KeysNotInIndex? ==>
      Distinct(r.error.missing)
      && (forall x :: x in r.error.missing <==> x in keys && x !in Names(record))
      && (exists k :: k in keys && k in Names(record))
      && forall i, j :: 0 <= i < j < |r.error.missing| ==>
        FirstIndex(keys, r.error.missing[i]) < FirstIndex(keys, r.error.missing[j])
  {
    var missing := Missing(record, keys);
    AllMissing(record, keys);
    if missing == [] then
      var vs := seq(|keys|, i requires 0 <= i < |keys| => Lookup(record, keys[i]).value);
      assert forall i :: 0 <= i < |keys| ==> keys[i] in keys;
      Ok(vs)
    else if |missing| == |keys| then Err(NoneOfKeysPresent(keys))
    else
      var u := Unique(missing);
      forall i, j | 0 <= i < j < |u| ensures FirstIndex(keys, u[i]) < FirstIndex(keys, u[j]) {
        MissingOrder(record, keys, u[i], u[j]);
      }
      Err(KeysNotInIndex(u))
  }

  lemma FirstIndexCons(h: string, t: seq<string>, x: string)
    requires x in [h] + t
    ensures FirstIndex([h] + t, x) == if h == x then 0 else 1 + FirstIndex(t, x)
  {
    assert ([h] + t)[0] == h && ([h] + t)[1..] == t;
  }

  /** The missing keys keep the order of their first occurrence among the keys. */
  lemma {:induction false} MissingOrder(record: seq<Column>, keys: seq<string>, x: string, y: string)
    requires x in Missing(record, keys) && y in Missing(record, keys)
    requires FirstIndex(Missing(record, keys), x) < FirstIndex(Missing(record, keys), y)
    ensures FirstIndex(keys, x) < FirstIndex(keys, y)
  {
    assert keys != [];
    var h, t := keys[0], keys[1..];
    assert keys == [h] + t;
    if h in Names(record) {
      assert FirstIndex(keys, x) < FirstIndex(keys, y) by {
        assert Missing(record, keys) == Missing(record, t);
        FirstIndexCons(h, t, x);
        FirstIndexCons(h, t, y);
        MissingOrder(record, t, x, y);
      }
    } else if x == h {
      assert FirstIndex(keys, x) < FirstIndex(keys, y) by {
        assert Missing(record, keys) == [h] + Missing(record, t);
        FirstIndexCons(h, Missing(record, t), y);
        FirstIndexCons(h, t, x);
        FirstIndexCons(h, t, y);
      }
    } else {
      assert FirstIndex(keys, x) < FirstIndex(keys, y) by {
        var rest := Missing(record, t);
        assert Missing(record, keys) == [h] + rest;
        FirstIndexCons(h, rest, x);
        FirstIndexCons(h, rest, y);
        FirstIndexCons(h, t, x);
        FirstIndexCons(h, t, y);
        MissingOrder(record, t, x, y);
      }
    }
  }

  /** When no key names a column, the error lists every key. */
  lemma NoKeyPresent(record: seq<Column>, keys: seq<string>)
    requires keys != []
    requires forall k :: k in keys ==> k !in Names(record)
    ensures SelectColumns(record, keys) == Err(NoneOfKeysPresent(keys))
  {
    AllMissing(record, keys);
  }

  /** The row built from the sidebar: order value and expected delivery days. */
  function SidebarRecord(orderValue: real, deliveryDays: int): (r: seq<Column>)
    ensures forall k :: k in ExpectedFeatures() ==> k !in Names(r)
  {
    [Column("payment_value", orderValue), Column("delivery_time_days", deliveryDays as real)]
  }

  /** The classifier's verdict as the page shows it: only a prediction of 1 means delayed. */
  datatype Risk = HighRisk | LowRisk

  function RiskOf(prediction: int): (r: Risk)
    ensures r == HighRisk <==> prediction == 1
  {
    if prediction == 1 then HighRisk else LowRisk
  }

  /**
   * The prediction panel: the features are selected whether or not the button
   * is pressed; only a press runs the classifier on the selected row.
   */
  function Predict(record: seq<Column>, features: seq<string>, pressed: bool,
                   classify: seq<real> -> int): (r: Result<Option<Risk>, KeyError>)
    ensures r.Err? <==> SelectColumns(record, features).Err?
    ensures r.Err? ==> r.error == SelectColumns(record, features).error
    ensures r.Ok? ==> (r.value.Some? <==> pressed)
    ensures r.Ok? && pressed ==>
      (r.value.value == HighRisk <==> classify(SelectColumns(record, features).value) == 1)
  {
    var row := SelectColumns(record, features);
    if row.Err? then Err(row.error)
    else if pressed then Ok(Some(RiskOf(classify(row.value))))
    else Ok(None)
  }

  /**
   * The sidebar row has none of the five trained features, so the panel
   * always raises, whatever the inputs, the button and the classifier.
   */
  lemma SidebarPredictionFails(orderValue: real, deliveryDays: int, pressed: bool, classify: seq<real> -> int)
    ensures Predict(SidebarRecord(orderValue, deliveryDays), ExpectedFeatures(), pressed, classify)
      == Err(NoneOfKeysPresent(ExpectedFeatures()))
  {
    var record := SidebarRecord(orderValue, deliveryDays);
    assert Names(record) == ["payment_value", "delivery_time_days"];
    NoKeyPresent(record, ExpectedFeatures());
  }

  /** With all five features present, a press always yields a label and the row reaches the classifier in feature order. */
  lemma FullRowPredicts(record: seq<Column>, classify: seq<real> -> int)
    requires forall k :: k in ExpectedFeatures() ==> k in Names(record)
    ensures var row := SelectColumns(record, ExpectedFeatures());
      row.Ok? && |row.value| == 5
      && (forall i :: 0 <= i < 5 ==> Column(ExpectedFeatures()[i], row.value[i]) in record)
      && Predict(record, ExpectedFeatures(), true, classify) == Ok(Some(RiskOf(classify(row.value))))
  {
  }
}
