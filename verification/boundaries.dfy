/** The thirteen query boundaries d0..d12 of the monthly key-numbers page:
    the start of each month of the selected year and of the next January. */
module Boundaries {
  import opened KeyedRecord

  const BoundaryCount: nat := 13
  const MonthsPerYear: nat := 12

  /** Months counted from year 0.  `new Date(year, month, 1)` normalises an
      overflowing month, so month 12 of a year is month 0 of the next. */
  function MonthOrdinal(year: int, month: int): int {
    year * MonthsPerYear + month
  }

  /** A clock reading for the first instant of each month ordinal (the
      host's local calendar), as `startOfMonth` computes it. */
  ghost predicate StrictlyIncreasing(clock: int -> int) {
    forall a, b :: a < b ==> clock(a) < clock(b)
  }

  /** `R.range(0, 13).map(r => startOfMonth(r, year))`. */
  function Timestamps(year: int, clock: int -> int): (ts: seq<int>)
    ensures |ts| == BoundaryCount
    ensures forall i :: 0 <= i < BoundaryCount ==> ts[i] == clock(MonthOrdinal(year, i))
  {
    seq(BoundaryCount, i => clock(MonthOrdinal(year, i)))
  }

  /** `queryVariables`: exactly the thirteen keys d0..d12, key d<i> holding
      the start of month i of the year. */
  function QueryVariables(year: int, clock: int -> int): (vars: map<string, int>)
    ensures |vars| == BoundaryCount
    ensures vars.Keys == KeySet(Naming("d"), 0, BoundaryCount)
    ensures forall i :: 0 <= i < BoundaryCount ==> vars[Naming("d")(i)] == clock(MonthOrdinal(year, i))
  {
    var ts := Timestamps(year, clock);
    KeyedSpec(Naming("d"), 0, ts);
    Keyed(Naming("d"), 0, ts)
  }

  /** The boundaries increase with the key index, and d12 is the first
      instant of the next year, which is d0 of the next year's query. */
  lemma BoundariesOrdered(year: int, clock: int -> int)
    requires StrictlyIncreasing(clock)
    ensures var vars := QueryVariables(year, clock);
            forall i, j :: 0 <= i < j < BoundaryCount ==> vars[Naming("d")(i)] < vars[Naming("d")(j)]
    ensures QueryVariables(year, clock)[Naming("d")(12)] == QueryVariables(year + 1, clock)[Naming("d")(0)]
  {
    assert MonthOrdinal(year, 12) == MonthOrdinal(year + 1, 0);
  }
}
