/** The selected year of the key-numbers page and its Previous/Next
    buttons: `useState(currentYear)`, and `setYear(year - 1)` /
    `setYear(year + 1)` guarded by `disabled`. */
module YearNavigation {

  /** The year the "Previous year" button stops at. */
  const FirstYear: int := 2019

  datatype Nav = Nav(year: int, currentYear: int)

  datatype Button = Previous | Next

  /** `useState(currentYear)`, with `currentYear` the clock's UTC year. */
  function Init(currentYear: int): (s: Nav)
    ensures s.year == s.currentYear == currentYear
  {
    Nav(currentYear, currentYear)
  }

  /** `disabled={year === 2019}` and `disabled={year === currentYear}`. */
  predicate Enabled(s: Nav, b: Button) {
    match b
    case Previous => s.year != FirstYear
    case Next => s.year != s.currentYear
  }

  /** A click: a disabled button does nothing. */
  function Click(s: Nav, b: Button): (t: Nav)
    ensures t.currentYear == s.currentYear
    ensures !Enabled(s, b) ==> t == s
    ensures Enabled(s, b) && b == Previous ==> t.year == s.year - 1
    ensures Enabled(s, b) && b == Next ==> t.year == s.year + 1
  {
    if !Enabled(s, b) then s
    else match b
      case Previous => s.(year := s.year - 1)
      case Next => s.(year := s.year + 1)
  }

  /** What can happen to the page: a click, or a render, which reads the
      clock again (`currentYear` is recomputed on every render, while
      `useState` keeps `year`). */
  datatype Event = Press(button: Button) | Render(clockYear: int)

  function Step(s: Nav, e: Event): (t: Nav)
    ensures t.year == (if e.Press? then Click(s, e.button).year else s.year)
    ensures t.currentYear == (if e.Press? then s.currentYear else e.clockYear)
  {
    match e
    case Press(b) => Click(s, b)
    case Render(y) => s.(currentYear := y)
  }

  /** The state after a sequence of events. */
  function Run(s: Nav, events: seq<Event>): Nav
    decreases |events|
  {
    if |events| == 0 then s else Run(Step(s, events[0]), events[1..])
  }

  /** The clock readings of `events`, starting from `now`, never go back. */
  predicate ClockNeverFalls(now: int, events: seq<Event>)
    decreases |events|
  {
    |events| == 0 ||
    match events[0]
    case Press(_) => ClockNeverFalls(now, events[1..])
    case Render(y) => now <= y && ClockNeverFalls(y, events[1..])
  }

  predicate InRange(s: Nav) {
    FirstYear <= s.year <= s.currentYear
  }

  /** Inside the range the equality guards are exactly the range bounds. */
  lemma GuardsAreBounds(s: Nav)
    requires InRange(s)
    ensures Enabled(s, Previous) <==> s.year > FirstYear
    ensures Enabled(s, Next) <==> s.year < s.currentYear
    ensures InRange(Click(s, Previous)) && InRange(Click(s, Next))
  {
  }

  /** Starting in [2019, currentYear], no sequence of clicks and renders
      leaves the range, and the current year never drops, provided the
      clock never goes back. */
  lemma {:induction false} RunStaysInRange(s: Nav, events: seq<Event>)
    requires InRange(s) && ClockNeverFalls(s.currentYear, events)
    ensures InRange(Run(s, events))
    ensures Run(s, events).currentYear >= s.currentYear
    decreases |events|
  {
    if |events| > 0 {
      var t := Step(s, events[0]);
      GuardsAreBounds(s);
      assert InRange(t) && t.currentYear >= s.currentYear;
      RunStaysInRange(t, events[1..]);
    }
  }

  /** Without a clock that never goes back the bound fails: a render that
      reads the year before the selected one leaves Next enabled, and a
      click moves past the current year. */
  lemma ClockFallingBackLeavesRange(year: int)
    requires FirstYear <= year
    ensures var s := Run(Nav(year, year), [Render(year - 1), Press(Next)]);
            && s.year == year + 1 && s.currentYear == year - 1 && !InRange(s)
  {
    var events := [Render(year - 1), Press(Next)];
    var s1 := Step(Nav(year, year), events[0]);
    var s2 := Step(s1, events[1]);
    assert Enabled(s1, Next) && s2 == Nav(year + 1, year - 1);
    assert events[1..][1..] == [];
    assert Run(s1, events[1..]) == Run(s2, []) == s2;
  }

  /** `n` clicks on Previous. */
  function Backward(n: nat): (events: seq<Event>)
    ensures |events| == n
    ensures forall k :: 0 <= k < n ==> events[k] == Press(Previous)
  {
    seq(n, _ => Press(Previous))
  }

  /** Every year of the range can be selected: from year y, y - target
      clicks on Previous reach any target down to 2019. */
  lemma {:induction false} BackwardReaches(s: Nav, target: int)
    requires InRange(s) && FirstYear <= target <= s.year
    ensures Run(s, Backward(s.year - target)) == s.(year := target)
    decreases s.year - target
  {
    if s.year > target {
      var clicks := Backward(s.year - target);
      assert clicks[1..] == Backward(s.year - 1 - target);
      BackwardReaches(Click(s, Previous), target);
    }
  }

  lemma EveryYearReachable(currentYear: int, target: int)
    requires FirstYear <= target <= currentYear
    ensures Run(Init(currentYear), Backward(currentYear - target)).year == target
  {
    BackwardReaches(Init(currentYear), target);
  }
}
