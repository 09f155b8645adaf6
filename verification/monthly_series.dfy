/** The three monthly series of the key-numbers page (pages/kpi.tsx):
    investor count, investment count and assets under management, each twelve
    (value, month-over-month change) entries built from thirteen boundary
    rows. */
module MonthlySeries {
  import opened Options
  import opened DecimalText
  import opened Rounding
  import opened BigNumberFormat
  import opened KeyedRecord

  const MonthCount: nat := 12

  /** `gav` is a fixed-point amount with 18 decimals. */
  const AumDecimals: nat := 18

  /** One whole unit of `gav`, 10^18 raw units. */
  const Unit: nat := 1_000_000_000_000_000_000

  /** The rows a query returned: key i holds the numeric field (`active` or
      `gav`) of the first row under alias m<i>, the one queried with d<i>.
      A missing key is any way of being undefined: no data, no alias, an
      empty list, no field, or a `gav` that does not parse. */
  type Rows = map<nat, int>

  function Lookup(rows: Rows, i: nat): Option<int> {
    if i in rows then Some(rows[i]) else None
  }

  /** A cell value: undefined, a JavaScript number, or a string. */
  datatype Value = Absent | Count(n: int) | Text(s: string)

  /** `{ value, change }`; a change of None is NaN. */
  datatype MonthlyQuantity = MonthlyQuantity(value: Value, change: Option<int>)

  /** Month r of a count series: `active_r - (!isNaN(active_{r-1}) ? active_{r-1} : 0)`,
      NaN when `active_r` is undefined. */
  function CountEntry(rows: Rows, r: nat): MonthlyQuantity
    requires r >= 1
  {
    match Lookup(rows, r)
    case None => MonthlyQuantity(Absent, None)
    case Some(active) => MonthlyQuantity(Count(active), Some(active - Lookup(rows, r - 1).GetOr(0)))
  }

  /** `R.range(1, 13).map(...)` for investors or investments: entry i is
      month i + 1, its value the row at boundary i + 1 unchanged and its
      change the difference from boundary i, an absent boundary i counting
      as zero and an absent boundary i + 1 giving no change at all. */
  function CountSeries(rows: Rows): (s: seq<MonthlyQuantity>)
    ensures |s| == MonthCount
    ensures forall i :: 0 <= i < MonthCount ==> (s[i].value.Absent? <==> i + 1 !in rows)
    ensures forall i :: 0 <= i < MonthCount ==> (s[i].change.Some? <==> i + 1 in rows)
    ensures forall i :: 0 <= i < MonthCount && i + 1 in rows ==> s[i].value == Count(rows[i + 1])
    ensures forall i :: 0 <= i < MonthCount && i + 1 in rows ==>
              s[i].change.value == rows[i + 1] - (if i in rows then rows[i] else 0)
  {
    seq(MonthCount, i requires 0 <= i < MonthCount => CountEntry(rows, i + 1))
  }

  lemma CountSeriesAt(rows: Rows, i: nat)
    requires i < MonthCount
    ensures CountSeries(rows)[i] == CountEntry(rows, i + 1)
  {
  }

  /** Sum of the changes of a series, NaN counting as zero. */
  function ChangeSum(s: seq<MonthlyQuantity>): int {
    if |s| == 0 then 0 else ChangeSum(s[..|s| - 1]) + s[|s| - 1].change.GetOr(0)
  }

  /** While every month up to k has data, the changes add up to the value
      at month k less the value at the boundary before January (zero when
      absent): changes are exact deltas and lose nothing. */
  lemma {:induction false} CountChangesTelescope(rows: Rows, k: nat)
    requires 1 <= k <= MonthCount
    requires forall r :: 1 <= r <= k ==> r in rows
    ensures ChangeSum(CountSeries(rows)[..k]) == rows[k] - Lookup(rows, 0).GetOr(0)
  {
    var s := CountSeries(rows);
    var last := s[..k][k - 1];
    assert last == s[k - 1] == CountEntry(rows, k);
    assert last.change.GetOr(0) == rows[k] - Lookup(rows, k - 1).GetOr(0);
    assert ChangeSum(s[..k]) == ChangeSum(s[..k][..k - 1]) + last.change.GetOr(0);
    assert s[..k][..k - 1] == s[..k - 1];
    if k > 1 {
      CountChangesTelescope(rows, k - 1);
    }
  }

  /** `formatBigNumber(gav, 18, 0)`, which is the all-defaults call: the
      0 passed as `digits` is falsy and becomes 6. */
  function AumValue(gav: Option<int>): (v: string)
    ensures v == FormatBigNumber(gav, Omitted, None)
  {
    SameEffectiveSettings(gav, Number(AumDecimals), Some(0), Omitted, None);
    FormatBigNumber(gav, Number(AumDecimals), Some(0))
  }

  /** The AUM change of one month: the previous amount (zero when absent)
      is subtracted from `gav`, the difference is divided by 10^18 at the
      library's 20 places and then rounded to an integer.  NaN when `gav`
      is; otherwise the difference in whole units, rounded half-up once. */
  function AumChange(gav: Option<int>, previous: Option<int>): (c: Option<int>)
    ensures c.Some? <==> gav.Some?
    ensures gav.Some? ==> c.value == RoundHalfUp(gav.value - previous.GetOr(0), Unit)
  {
    match gav
    case None => None
    case Some(g) =>
      var delta := g - previous.GetOr(0);
      AumChangeIsWholeUnits(delta);
      Some(RoundHalfUp(Quotient(delta, AumDecimals), Pow10(DivisionPlaces)))
  }

  /** Month r of the AUM series. */
  function AumEntry(rows: Rows, r: nat): MonthlyQuantity
    requires r >= 1
  {
    MonthlyQuantity(Text(AumValue(Lookup(rows, r))), AumChange(Lookup(rows, r), Lookup(rows, r - 1)))
  }

  /** `dividedBy('1e18')` is exact (18 <= 20 places), so `integerValue()`
      rounds the true quotient once. */
  lemma AumChangeIsWholeUnits(delta: int)
    ensures RoundHalfUp(Quotient(delta, AumDecimals), Pow10(DivisionPlaces))
            == RoundHalfUp(delta, Unit)
  {
    Pow10Values();
    QuotientExact(delta, AumDecimals);
    Pow10Add(DivisionPlaces - AumDecimals, AumDecimals);
    MulAssoc(delta, Pow10(DivisionPlaces - AumDecimals), Unit);
    RoundHalfUpCrossMul(delta * Pow10(DivisionPlaces - AumDecimals), Pow10(DivisionPlaces),
                        delta, Unit);
  }

  /** `R.range(1, 13).map(...)` for AUM: entry i is month i + 1, its value
      the formatted amount at boundary i + 1 ("NaN" when absent) and its
      change the whole-unit difference from boundary i, an absent boundary
      i counting as zero and an absent boundary i + 1 giving no change. */
  function AumSeries(rows: Rows): (s: seq<MonthlyQuantity>)
    ensures |s| == MonthCount
    ensures forall i :: 0 <= i < MonthCount ==>
              s[i].value == Text(FormatBigNumber(Lookup(rows, i + 1), Omitted, None))
    ensures forall i :: 0 <= i < MonthCount ==> (s[i].change.Some? <==> i + 1 in rows)
    ensures forall i :: 0 <= i < MonthCount && i + 1 in rows ==>
              s[i].change.value == RoundHalfUp(rows[i + 1] - Lookup(rows, i).GetOr(0), Unit)
  {
    var s := AumEntries(rows);
    forall i | 0 <= i < MonthCount
      ensures s[i].value == Text(FormatBigNumber(Lookup(rows, i + 1), Omitted, None))
      ensures s[i].change.Some? <==> i + 1 in rows
      ensures i + 1 in rows ==> s[i].change.value == RoundHalfUp(rows[i + 1] - Lookup(rows, i).GetOr(0), Unit)
    {
      AumEntryValue(rows, i + 1);
      AumEntryChange(rows, i + 1);
    }
    s
  }

  function AumEntries(rows: Rows): (s: seq<MonthlyQuantity>)
    ensures |s| == MonthCount
  {
    seq(MonthCount, i requires 0 <= i < MonthCount => AumEntry(rows, i + 1))
  }

  lemma AumSeriesAt(rows: Rows, i: nat)
    requires i < MonthCount
    ensures AumSeries(rows)[i] == AumEntry(rows, i + 1)
  {
    assert AumSeries(rows) == AumEntries(rows);
  }

  /** Every AUM value is a text: the formatted amount, or "NaN" when the
      month has no data. */
  lemma AumEntryValue(rows: Rows, r: nat)
    requires r >= 1
    ensures AumEntry(rows, r).value == Text(FormatBigNumber(Lookup(rows, r), Omitted, None))
  {
    var v := AumValue(Lookup(rows, r));
    assert AumEntry(rows, r).value == Text(v);
  }

  /** A change is present exactly when the month has data: the nearest
      whole number of units to the difference from the boundary before, an
      absent one counting as zero. */
  lemma AumEntryChange(rows: Rows, r: nat)
    requires r >= 1
    ensures AumEntry(rows, r).change.Some? <==> r in rows
    ensures r in rows ==>
              AumEntry(rows, r).change.value == RoundHalfUp(rows[r] - Lookup(rows, r - 1).GetOr(0), Unit)
  {
    var c := AumChange(Lookup(rows, r), Lookup(rows, r - 1));
    assert AumEntry(rows, r).change == c;
  }

  /** The AUM value shows gav / 10^18 rounded half-up to six fraction
      digits: the 0 passed as `digits` falls through to the default. */
  lemma AumValueSixDigits(gav: int)
    ensures var v := AumValue(Some(gav));
            && HasFixedShape(v, 6)
            && ParseFixed(v, 6) == Some((gav < 0, Abs(RoundHalfUp(gav * Pow10(6), Unit))))
  {
    FormatIsRoundedRatio(gav, Omitted, None);
    Pow10Values();
  }

  /** The AUM change is the nearest whole number of units to the exact
      difference of the raw amounts, never a difference of rounded texts. */
  lemma AumChangeNearest(gav: int, previous: Option<int>)
    ensures var delta := gav - previous.GetOr(0);
            var c := AumChange(Some(gav), previous).value;
            2 * Abs(c * Unit - delta) <= Unit
  {
    RoundHalfUpNearest(gav - previous.GetOr(0), Unit);
  }

  /** January from boundary rows {0: 10, 1: 15}: value 15, change 5;
      February has no row, so neither value nor change. */
  lemma CountExample()
    ensures CountSeries(map[0 := 10, 1 := 15])[0] == MonthlyQuantity(Count(15), Some(5))
    ensures CountSeries(map[0 := 10, 1 := 15])[1] == MonthlyQuantity(Absent, None)
  {
  }

  /** January from a single row of 2 * 10^18 at boundary 1: the value is
      written "2.000000" and the change is the integer 2 (the missing
      December boundary counts as zero). */
  lemma AumExample(gav: int)
    requires gav == 2 * Unit
    ensures AumSeries(map[1 := gav])[0] == MonthlyQuantity(Text("2.000000"), Some(2))
  {
    var rows := map[1 := gav];
    assert Lookup(rows, 1) == Some(gav) && Lookup(rows, 0) == None;
    AumSeriesAt(rows, 0);
    AumExampleValue(gav);
    AumExampleChange(gav);
  }

  lemma AumExampleValue(gav: int)
    requires gav == 2 * Unit
    ensures AumValue(Some(gav)) == "2.000000"
  {
    Pow10Values();
    FormatWholeUnits(2, Omitted, None);
    assert EffectiveDecimals(Omitted) == AumDecimals && EffectiveDigits(None) == 6;
    TwoUnitsText();
  }

  lemma TwoUnitsText()
    ensures IntText(2) + "." + Zeros(6) == "2.000000"
  {
  }

  lemma AumExampleChange(gav: int)
    requires gav == 2 * Unit
    ensures AumChange(Some(gav), None) == Some(2)
  {
    RoundHalfUpExact(2, Unit);
  }

  /** `.reduce(...)` into `{ m1 .. m12 }`: exactly the keys m1..m12, key
      m<i + 1> holding entry i. */
  function MonthRecord(series: seq<MonthlyQuantity>): (rec: map<string, MonthlyQuantity>)
    requires |series| == MonthCount
    ensures rec.Keys == KeySet(Naming("m"), 1, 1 + MonthCount)
    ensures forall i :: 0 <= i < MonthCount ==> rec[Naming("m")(1 + i)] == series[i]
  {
    KeyedSpec(Naming("m"), 1, series);
    Keyed(Naming("m"), 1, series)
  }

  /** One row of the table: `{ quantity, m1 .. m12 }`. */
  datatype AnnualRow = AnnualRow(quantity: string, months: map<string, MonthlyQuantity>)

  /** `list`: the Investors, Investments and AUM rows in that order, each
      holding exactly the cells m1..m12, cell m<r> being month r of its own
      series. */
  function AnnualList(investors: Rows, investments: Rows, aum: Rows): (list: seq<AnnualRow>)
    ensures |list| == 3
    ensures list[0].quantity == "Investors" && list[1].quantity == "Investments" && list[2].quantity == "AUM"
    ensures forall k :: 0 <= k < 3 ==> list[k].months.Keys == KeySet(Naming("m"), 1, 1 + MonthCount)
    ensures forall r :: 1 <= r <= MonthCount ==>
              Naming("m")(r) in list[0].months && list[0].months[Naming("m")(r)] == CountEntry(investors, r)
    ensures forall r :: 1 <= r <= MonthCount ==>
              Naming("m")(r) in list[1].months && list[1].months[Naming("m")(r)] == CountEntry(investments, r)
    ensures forall r :: 1 <= r <= MonthCount ==>
              Naming("m")(r) in list[2].months && list[2].months[Naming("m")(r)] == AumEntry(aum, r)
  {
    CountRowCells(investors);
    CountRowCells(investments);
    AumRowCells(aum);
    [ AnnualRow("Investors", MonthRecord(CountSeries(investors))),
      AnnualRow("Investments", MonthRecord(CountSeries(investments))),
      AnnualRow("AUM", MonthRecord(AumSeries(aum))) ]
  }

  lemma CountRowCells(rows: Rows)
    ensures forall r :: 1 <= r <= MonthCount ==>
              Naming("m")(r) in MonthRecord(CountSeries(rows)) && MonthRecord(CountSeries(rows))[Naming("m")(r)] == CountEntry(rows, r)
  {
    var rec := MonthRecord(CountSeries(rows));
    forall r | 1 <= r <= MonthCount ensures Naming("m")(r) in rec && rec[Naming("m")(r)] == CountEntry(rows, r) {
      assert Naming("m")(r) in KeySet(Naming("m"), 1, 1 + MonthCount);
      assert rec[Naming("m")(1 + (r - 1))] == CountSeries(rows)[r - 1];
    }
  }

  lemma AumRowCells(rows: Rows)
    ensures forall r :: 1 <= r <= MonthCount ==>
              Naming("m")(r) in MonthRecord(AumSeries(rows)) && MonthRecord(AumSeries(rows))[Naming("m")(r)] == AumEntry(rows, r)
  {
    var rec := MonthRecord(AumSeries(rows));
    forall r | 1 <= r <= MonthCount ensures Naming("m")(r) in rec && rec[Naming("m")(r)] == AumEntry(rows, r) {
      assert Naming("m")(r) in KeySet(Naming("m"), 1, 1 + MonthCount);
      AumSeriesAt(rows, r - 1);
      assert rec[Naming("m")(1 + (r - 1))] == AumSeries(rows)[r - 1];
    }
  }
}
