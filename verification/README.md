# Enterprise BI dashboard: KPI aggregation and feature alignment

This project models the computational core of the Streamlit dashboard in
`streamlit_app/app.py`. The script loads an orders table and a payments table,
then computes the business KPIs it displays:

- total distinct orders and total revenue;
- the delivered-orders view, with its derived delivery-time, lateness and
  purchase-month columns;
- mean delivery time and late-delivery percentage;
- the monthly distinct-order trend;
- revenue per payment type;
- the on-time/late SLA breakdown.

Last, it aligns the sidebar's input row with the delay classifier's five
expected feature columns.

The script's vectorised pandas expressions (`nunique`, `sum`, `mean`,
`groupby`, `value_counts`, column selection) become pure Dafny functions over
sequences of rows. The columns the script adds in place become a function
from an order row to an extended `Delivery` row.

Modules, one per component:

- `Wrappers`: `Option` (pandas' NaN/NaT) and `Result` (a raised exception).
- `Ordering`: Python's `str` order. `groupby` sorts its keys by it.
- `Calendar`: `datetime64[ns]` timestamps as integer nanoseconds,
  `Timedelta.days`, and the proleptic Gregorian calendar, proved as a
  bijection with day numbers. It also gives the `YYYY-MM` month key and proves
  that key order is chronological.
- `Orders`: the order-side KPIs.
- `Payments`: the payment-side KPIs.
- `Features`: feature-column selection and the risk label.
- `Dashboard`: the whole KPI snapshot of one render.

Behaviour the model keeps from the code:

- Delivery time is `Timedelta.days`: the difference rounded down to whole
  days. For non-negative durations this is truncation, so 6 days 23:59 gives 6.
  A delivery stamped before its purchase gets a negative count, rounded
  toward minus infinity.
- An order is late when its whole-day count exceeds 7.
- The subtraction is done in signed 64-bit nanoseconds over the whole column.
  If any delivered row's purchase-to-delivery time does not fit, which needs
  the two dates to be more than about 292 years apart, pandas raises
  `OverflowError` and the render stops before any KPI is shown. The model
  returns that error from `Orders.Deliveries`, `Dashboard.ComputeSnapshot` and
  `Dashboard.RenderAsWritten`.
- The script's render also stops at line 91 when the delivered view lacks
  on-time rows or late rows, including when it is empty.
  `Dashboard.RenderAsWritten` is the render as written and has both failures.
  `Dashboard.ComputeSnapshot` is the corrected render, with flag-labelled SLA
  bars, and fails only on the overflow.
- Mean and percentage are `None` (NaN) over an empty delivered view, not zero.
- `value_counts` lists the flag values largest count first. On a tie, the
  value seen first comes first. This tie rule is an assumption about pandas'
  stable descending sort; none of the lemmas depend on it.
- Selecting `input_data[expected_features]` raises pandas' `KeyError`. When no
  key is a column, the error reports all the keys. Otherwise it reports the
  missing keys, each once, in the order of their first occurrence.
- The sidebar row has only `payment_value` and `delivery_time_days`. None of
  the five trained features is among them, so line 142 always raises, before
  the button is read. `Features.SidebarPredictionFails` proves this for every
  input, button state and classifier. The intended mapping from the two form
  values to the five features is nowhere defined, so the model keeps this
  failure as written and proposes no correction.

## Model

| member | source | states |
|---|---|---|
| `Calendar.WholeDays` | streamlit_app/app.py:37-40 | the day count `r` is the unique integer with `r` days ≤ delta < `r`+1 days, i.e. `Timedelta.days` rounds down |
| `Calendar.DifferenceFits` | streamlit_app/app.py:37-40 | whether a datetime difference fits a signed 64-bit nanosecond count, NaT's value excluded (definition; the overflow case of `Orders.Derive`) |
| `Calendar.DayNumber` | streamlit_app/app.py:30-33 | a `datetime64[ns]` timestamp lies in the calendar day `n`; every representable timestamp has `n` in [-106752, 106751] |
| `Calendar.CivilFromDays` | streamlit_app/app.py:63 | the date returned is a valid calendar date, and converting it back gives the same day number |
| `Calendar.CivilRoundTrip` | streamlit_app/app.py:63 | the other direction: converting a valid date to a day number and back gives the same date |
| `Calendar.YearOf` | streamlit_app/app.py:63 | the year found holds the day: its offset lies within that year, and the year start plus the offset is the input day |
| `Calendar.MonthFrom` | streamlit_app/app.py:63 | the month found holds the day offset within its year |
| `Calendar.DaysOfEarlierMonth` | streamlit_app/app.py:63 | a day in an earlier month has a smaller day number than any day in a later month |
| `Calendar.YearsOrdered` | streamlit_app/app.py:63 | every day of an earlier year precedes every day of a later year |
| `Calendar.YearRange` | streamlit_app/app.py:30-33 | every timestamp pandas can hold falls in a year between 1677 and 2262, so its year has four digits |
| `Calendar.MonthKey` | streamlit_app/app.py:63 | the month key is a 7-character `YYYY-MM` string |
| `Calendar.MonthKeyOrder` | streamlit_app/app.py:63-64 | for 4-digit years, string order of `YYYY-MM` keys is chronological month order, and equal keys mean the same month |
| `Calendar.MonthKeyChronological` | streamlit_app/app.py:63-64 | two timestamps' keys compare exactly as their calendar months do, and are equal exactly when the months are |
| `Calendar.EarlierKeyEarlierTime` | streamlit_app/app.py:63-64 | a timestamp with a smaller month key is strictly earlier |
| `Calendar.DigitsOrder` | streamlit_app/app.py:63 | zero-padded digit strings compare, and are equal, exactly as the numbers they write |
| `Ordering.Less` | streamlit_app/app.py:64 | Python `str` `<`: lexicographic by code point, a proper prefix before its extensions (definition; its order laws are the next three rows) |
| `Ordering.LessTransitive` | streamlit_app/app.py:64 | Python string order is transitive |
| `Ordering.LessTotal` | streamlit_app/app.py:64 | any two distinct strings are ordered one way or the other |
| `Ordering.LessConcat` | streamlit_app/app.py:63-64 | strings with equal-length prefixes compare by prefix first, then by the rest |
| `Ordering.SortedKeys` | streamlit_app/app.py:64 | the group keys are strictly ascending and are exactly the distinct values of the column |
| `Orders.NUnique` | streamlit_app/app.py:27 | `nunique` is the size of the set of values: at most the row count, and positive on a non-empty column |
| `Orders.TotalOrders` | streamlit_app/app.py:27 | total orders is the number of distinct ids over all rows, delivered or not, and at most the row count |
| `Orders.DropUndelivered` | streamlit_app/app.py:35 | exactly the rows with a delivery date remain, each as often as it occurred |
| `Orders.Derive` | streamlit_app/app.py:37-42 | an overflow error iff the purchase-to-delivery time does not fit in int64 nanoseconds; otherwise the days are the whole days from purchase to delivery, rounded down, late holds iff days ≥ 8, and the month is the purchase's `YYYY-MM` |
| `Orders.OverflowBoundary` | streamlit_app/app.py:37-40 | a delivery time of exactly 2^63−1 ns is 106751 whole days; one nanosecond more, or earliest-to-latest timestamp, raises the overflow |
| `Orders.KeptRows` | streamlit_app/app.py:35 | a row is kept iff it is an order row with a delivery date |
| `Orders.Deliveries` | streamlit_app/app.py:35-42 | the whole column fails with the overflow iff some order row overflows; otherwise the delivered view has one derived row per kept row, in order |
| `Orders.DeliveryDaysExamples` | streamlit_app/app.py:37-42 | no overflow on these short durations; 6 days 23:59 gives 6; one nanosecond short of 8 days gives 7, not late; exactly 8 days is late |
| `Orders.SumDays` | streamlit_app/app.py:44 | the sum of the day counts, the numerator of `mean()` (definition; bounded by `Orders.SumDaysBounds`) |
| `Orders.CountFlag` | streamlit_app/app.py:45 | a flag count never exceeds the row count |
| `Orders.CountFlagExtremes` | streamlit_app/app.py:45 | a flag count is 0 iff no row has the flag, and equals the row count iff every row has it |
| `Orders.FlagsPartition` | streamlit_app/app.py:90 | on-time count plus late count is the delivered row count |
| `Orders.AverageDeliveryDays` | streamlit_app/app.py:44 | the mean is NaN iff no row was delivered; otherwise mean × count = sum of days |
| `Orders.AverageWithinBounds` | streamlit_app/app.py:44 | the mean lies between any lower and upper bound of the day counts |
| `Orders.SumDaysBounds` | streamlit_app/app.py:44 | bounds on each day count bound the sum by count × bound |
| `Orders.Percent` | streamlit_app/app.py:45 | a percentage lies in [0, 100], times the whole gives 100 × the part, is 0 iff the part is 0, and is 100 iff the part is the whole |
| `Orders.LatePercentage` | streamlit_app/app.py:45 | the late percentage is NaN iff no row was delivered; otherwise it lies in [0, 100], and times the count it gives 100 × the late count |
| `Orders.LatePercentageExtremes` | streamlit_app/app.py:45 | the late percentage is 0 iff no delivery is late, and 100 iff all are |
| `Orders.MonthlyTrend` | streamlit_app/app.py:63-64 | the months are strictly ascending and are exactly the delivered rows' months; each count is the number of distinct order ids in that month, at least 1 |
| `Orders.TrendIsChronological` | streamlit_app/app.py:63-64 | every order in an earlier trend bucket was purchased strictly before every order in a later one |
| `Orders.ValueCounts` | streamlit_app/app.py:90 | one entry per flag value present, with its count; largest count first; two entries iff both flags occur; none iff no rows |
| `Orders.RelabelAsWritten` | streamlit_app/app.py:91 | the label assignment as written: two entries get "On Time" and "Late" by position, any other length raises a length mismatch (definition; stated by the next rows) |
| `Orders.SlaAsWritten` | streamlit_app/app.py:90-91 | the SLA breakdown as the script computes it: `value_counts` followed by the positional relabelling (definition; stated by the next four rows) |
| `Orders.SlaAsWrittenFails` | streamlit_app/app.py:90-91 | the positional relabelling raises a length mismatch iff on-time or late deliveries are absent |
| `Orders.SlaAsWrittenLabels` | streamlit_app/app.py:90-91 | when it succeeds, the "On Time" bar carries the on-time count iff on-time deliveries are not outnumbered |
| `Orders.SlaAsWrittenMislabels` | streamlit_app/app.py:90-91 | two late deliveries and one on-time one are shown as "On Time" 2 and "Late" 1 |
| `Orders.SlaAsWrittenAllOnTimeFails` | streamlit_app/app.py:90-91 | a single on-time delivery makes the relabelling raise: 1 element against 2 labels |
| `Orders.SlaBreakdown` | streamlit_app/app.py:90-93 | corrected breakdown: always two bars, "On Time" then "Late", with the true counts, summing to the delivered row count |
| `Orders.SlaAgreesWhenOnTimeDominates` | streamlit_app/app.py:90-91 | where late deliveries occur but do not outnumber on-time ones, the as-written breakdown equals the corrected one |
| `Orders.UndeliveredRowIgnored` | streamlit_app/app.py:27-35 | adding an undelivered row leaves the delivered view, or its overflow error, unchanged, but adds 1 to total orders when its id is new |
| `Orders.DeliveredOrdersAtMostTotal` | streamlit_app/app.py:27-35 | when the delivered view is computed, its distinct ids are no more than total orders |
| `Payments.TotalRevenue` | streamlit_app/app.py:28 | the sum of `payment_value` over every payment row (definition; its laws are the next three rows) |
| `Payments.RevenueAdditive` | streamlit_app/app.py:28 | revenue of a concatenation is the sum of the revenues: every row counts, with no per-order deduplication |
| `Payments.RevenueNonNegative` | streamlit_app/app.py:28 | non-negative payment values give non-negative revenue |
| `Payments.RevenueExample` | streamlit_app/app.py:28 | payments (A, 50), (A, 30), (B, 20) total 100 |
| `Payments.RevenueByKind` | streamlit_app/app.py:74 | one group per payment type present, types strictly ascending, each with the revenue of its rows |
| `Payments.GroupTotalsMatchRevenue` | streamlit_app/app.py:74 | the per-type totals add up exactly to the total revenue of line 28 |
| `Payments.SumOverKeys` | streamlit_app/app.py:74 | summing per-type revenue over distinct types that cover every row gives the total revenue |
| `Features.ExpectedFeatures` | streamlit_app/app.py:133-139 | the five feature names the classifier expects, with no repeats |
| `Features.SidebarRecord` | streamlit_app/app.py:119-132 | the sidebar's one-row frame, holding order value and delivery days; none of the five expected features is among its columns |
| `Features.Lookup` | streamlit_app/app.py:142 | a column is found iff its name is in the frame, and the value found is that column's |
| `Features.Missing` | streamlit_app/app.py:142 | the missing keys are exactly the keys that are not columns; the list is empty iff every key is a column |
| `Features.AllMissing` | streamlit_app/app.py:142 | every key is missing iff the missing list is as long as the key list |
| `Features.Unique` | streamlit_app/app.py:142 | the reported key list has no repeats, holds exactly the keys it was given, and lists them in order of first occurrence |
| `Features.SelectColumns` | streamlit_app/app.py:142 | success iff every expected column exists, with the values in key order; otherwise the two `KeyError` forms and their contents, the missing keys each once in the order of their first occurrence among the keys |
| `Features.MissingOrder` | streamlit_app/app.py:142 | the missing keys keep the relative order of their first occurrences among the keys |
| `Features.NoKeyPresent` | streamlit_app/app.py:142 | when no key is a column, the error lists all the keys |
| `Features.Predict` | streamlit_app/app.py:142-150 | fails iff selection fails, with its error; a label only when the button is pressed; "High Risk" iff the classifier returns 1 on the selected row |
| `Features.RiskOf` | streamlit_app/app.py:147-150 | only a prediction of 1 shows the delayed warning |
| `Features.SidebarPredictionFails` | streamlit_app/app.py:129-142 | the two-field sidebar row always fails selection against the five features, whatever the inputs, button or classifier |
| `Features.FullRowPredicts` | streamlit_app/app.py:142-145 | with all five features present, a press always yields a label from the classifier applied to the five values in feature order |
| `Dashboard.NoDeliveries` | streamlit_app/app.py:35-45 | the delivered view is computed and empty exactly when no order row has a delivery date |
| `Dashboard.TrendMonthsArePurchaseMonths` | streamlit_app/app.py:63-64 | when the delivered view is computed, the trend's months are the `YYYY-MM` keys of the delivered rows' purchase timestamps |
| `Dashboard.DeliveriesCarryMonthKey` | streamlit_app/app.py:63 | when the delivered view is computed, each delivered row's month column is its purchase timestamp's key |
| `Dashboard.ComputeSnapshot` | streamlit_app/app.py:27-93 | the corrected render (SLA bars labelled by flag) fails iff some delivered row's time overflows; otherwise: total orders over all rows; group revenues sum to total revenue; mean and late % are NaN together, exactly when nothing was delivered; SLA bars sum to the delivered count; trend months are the delivered purchase months |
| `Dashboard.RenderAsWritten` | streamlit_app/app.py:27-93 | the render as written fails iff some delivered row's time overflows or, when it does not, the delivered view lacks on-time or late rows; that second failure is the length mismatch of 0 or 1 against 2 |
| `Dashboard.RenderAsWrittenAgrees` | streamlit_app/app.py:27-93 | where the script renders, the corrected render succeeds too and differs only in the SLA bars, and not at all when late deliveries do not outnumber on-time ones |
| `Dashboard.RenderAsWrittenFailsOnTimeOnly` | streamlit_app/app.py:90-91 | one order delivered after one day: the corrected snapshot renders, while the script stops with a length mismatch of 1 against 2 |

## Left out

- `Dashboard.ComputeSnapshot`: this is the corrected render, using `Orders.SlaBreakdown`, so its error leaves out the line-91 length mismatch that `Orders.SlaAsWrittenFails` describes. The render as written, with that failure, is `Dashboard.RenderAsWritten`.
- `Orders.Derive`: a difference of exactly −2^63 ns is treated as an overflow. It needs a delivery stamped more than 292 years before its purchase. In int64 that value is NaT's own bit pattern, and pandas may return NaT there instead of raising.
- Streamlit rendering is not modelled: page setup, titles, metric cards,
  columns, sidebar widgets, the button widget, messages. Only the button's
  state enters, as a boolean.
- Plotly chart construction is not modelled. It is presentation through a
  foreign library.
- `pd.read_csv` and `joblib.load` are file I/O. The tables become row
  sequences, and the classifier becomes a function parameter.
- String parsing in `pd.to_datetime` is not modelled. Timestamps arrive
  already parsed, as nanoseconds; a blank delivery date arrives as `None`.
- Missing values are not modelled in `order_id`, the purchase timestamp, or
  either payment column. The model assumes these columns are complete, so
  `groupby` never drops a row with a null payment type.
- Timezones are not modelled. Timestamps are naive, as the script reads them.
- Floating point is not modelled. Money and means are exact reals.
- Display formatting is not modelled: `:,`, `:,.0f`, `:.1f` and rounding.
- The classifier is an opaque pre-trained artifact. The model states only how
  its answer becomes a label.

## Findings

| source | as written | input that shows it | evidently intended | confidence | as-written member | corrected member |
|---|---|---|---|---|---|---|
| streamlit_app/app.py:90-91 | labels "On Time", "Late" attached by position to the counts ordered largest first | two late deliveries and one on-time delivery: shown as On Time 2, Late 1 | each label on the count of its own flag value | high, not executed | `Orders.SlaAsWrittenMislabels` | `Orders.SlaBreakdown` |
| streamlit_app/app.py:91 | assigning a two-label index to a series with one entry or none raises a length mismatch | a single on-time delivery, or no delivered order at all | both bars shown, with 0 for the absent status | high, not executed | `Orders.SlaAsWrittenAllOnTimeFails` | `Orders.SlaBreakdown` |

`Dashboard.ComputeSnapshot` uses the corrected `Orders.SlaBreakdown`. The
as-written behaviour is `Orders.SlaAsWritten`, and for the whole render it is
`Dashboard.RenderAsWritten`.
