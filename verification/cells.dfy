/** `renderCell(rowData, key)`: the text one monthly cell shows. */
module Cells {
  import opened Options
  import opened DecimalText
  import opened BigNumberFormat
  import opened Rounding
  import opened MonthlySeries

  /** `!value`: undefined, the number 0 and the empty string are falsy. */
  predicate Falsy(v: Value) {
    match v
    case Absent => true
    case Count(n) => n == 0
    case Text(s) => s == ""
  }

  /** `isNaN(value)`: undefined is NaN, a number never is, and a text is
      unless it is a numeral. */
  predicate IsNaN(v: Value) {
    match v
    case Absent => true
    case Count(_) => false
    case Text(s) => !IsNumeral(s)
  }

  /** How `{value}` renders a value that is neither falsy nor NaN. */
  function ValueText(v: Value): string {
    match v
    case Absent => ""
    case Count(n) => IntText(n)
    case Text(s) => s
  }

  /** `{value} {!isNaN(change) && `(${change})`}`, or an empty fragment when
      `!value || isNaN(value)`.  The space between the two expressions is
      always rendered; `false` renders nothing. */
  function RenderCell(q: MonthlyQuantity): (t: string)
    ensures t == "" <==> Falsy(q.value) || IsNaN(q.value)
    ensures t != "" ==> (t[|t| - 1] == ')' <==> q.change.Some?)
    ensures t != "" ==> var n := |ValueText(q.value)| + 1;
              && n <= |t|
              && t[..n] == ValueText(q.value) + " "
              && (q.change.None? ==> n == |t|)
              && (q.change.Some? ==> t[n..] == "(" + IntText(q.change.value) + ")")
  {
    if Falsy(q.value) || IsNaN(q.value) then ""
    else
      var v := ValueText(q.value) + " ";
      match q.change
      case None => v
      case Some(c) =>
        var t := v + ("(" + IntText(c) + ")");
        assert t[..|v|] == v && t[|v|..] == "(" + IntText(c) + ")";
        t
  }

  /** A count cell is empty exactly when the month has no data or the count
      is zero; a zero count hides its change too. */
  lemma CountCellBlank(rows: Rows, i: nat)
    requires i < MonthCount
    ensures RenderCell(CountSeries(rows)[i]) == "" <==> (i + 1 !in rows || rows[i + 1] == 0)
  {
  }

  /** A non-empty count cell shows the count and, in parentheses, its
      change from the month before. */
  lemma CountCellShown(rows: Rows, i: nat)
    requires i < MonthCount && i + 1 in rows && rows[i + 1] != 0
    ensures RenderCell(CountSeries(rows)[i])
            == IntText(rows[i + 1]) + " (" + IntText(rows[i + 1] - Lookup(rows, i).GetOr(0)) + ")"
  {
    var v := rows[i + 1];
    var c := v - Lookup(rows, i).GetOr(0);
    var q := MonthlyQuantity(Count(v), Some(c));
    assert CountSeries(rows)[i] == q by {
      CountSeriesAt(rows, i);
    }
    CountWithChange(v, c);
  }

  lemma CountWithChange(n: int, c: int)
    requires n != 0
    ensures RenderCell(MonthlyQuantity(Count(n), Some(c))) == IntText(n) + " (" + IntText(c) + ")"
  {
    ShownWithChange(Count(n), c);
  }

  /** A shown value with a numeric change reads "<value> (<change>)". */
  lemma ShownWithChange(value: Value, c: int)
    requires !Falsy(value) && !IsNaN(value)
    ensures RenderCell(MonthlyQuantity(value, Some(c))) == ValueText(value) + " (" + IntText(c) + ")"
  {
    var v := ValueText(value);
    var tail := "(" + IntText(c) + ")";
    assert RenderCell(MonthlyQuantity(value, Some(c))) == (v + " ") + tail;
    assert (v + " ") + tail == v + " (" + IntText(c) + ")";
  }

  /** An AUM cell is empty exactly when the month has no data: the value is
      then "NaN", and otherwise a numeral, which is truthy even when it
      spells zero. */
  lemma AumCellBlank(rows: Rows, i: nat)
    requires i < MonthCount
    ensures RenderCell(AumSeries(rows)[i]) == "" <==> i + 1 !in rows
  {
    var q := AumSeries(rows)[i];
    AumEntryValue(rows, i + 1);
    FormattedCell(Lookup(rows, i + 1), q.change);
    assert q == MonthlyQuantity(Text(FormatBigNumber(Lookup(rows, i + 1), Omitted, None)), q.change);
  }

  /** A non-empty AUM cell shows the formatted amount and, in parentheses,
      the whole-unit change from the month before. */
  lemma AumCellShown(rows: Rows, i: nat)
    requires i < MonthCount && i + 1 in rows
    ensures RenderCell(AumSeries(rows)[i])
            == FormatBigNumber(Some(rows[i + 1]), Omitted, None)
               + " (" + IntText(RoundHalfUp(rows[i + 1] - Lookup(rows, i).GetOr(0), Unit)) + ")"
  {
    var v := FormatBigNumber(Some(rows[i + 1]), Omitted, None);
    var c := RoundHalfUp(rows[i + 1] - Lookup(rows, i).GetOr(0), Unit);
    var q := AumSeries(rows)[i];
    assert q == MonthlyQuantity(Text(v), Some(c)) by {
      assert Lookup(rows, i + 1) == Some(rows[i + 1]);
    }
    assert RenderCell(q) != "" by {
      FormattedCell(Some(rows[i + 1]), Some(c));
    }
    TextWithChange(v, c);
  }

  lemma TextWithChange(v: string, c: int)
    requires RenderCell(MonthlyQuantity(Text(v), Some(c))) != ""
    ensures RenderCell(MonthlyQuantity(Text(v), Some(c))) == v + " (" + IntText(c) + ")"
  {
    ShownWithChange(Text(v), c);
  }

  /** A formatted amount renders unless it is "NaN". */
  lemma FormattedCell(n: Option<int>, change: Option<int>)
    ensures RenderCell(MonthlyQuantity(Text(FormatBigNumber(n, Omitted, None)), change)) == "" <==> n.None?
  {
    assert !IsNumeral("NaN");
  }
}
