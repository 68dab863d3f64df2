/**
 * The GitHub-style contribution calendar: which account it asks about, when a
 * fetched year of daily counts replaces the shown one, how the days are
 * bucketed into week columns, and which colour each cell gets.
 */
module Contributions {
  import opened Wrappers
  import Text
  import Calendar
  import GithubUser

  /** One day of the calendar; a placeholder cell has the empty date. */
  datatype ContributionDay = ContributionDay(date: string, count: int, level: int)

  /** The contributions service's answer: the year's total and the days, oldest first. */
  datatype ContributionData = ContributionData(totalLastYear: int, contributions: seq<ContributionDay>)

  type Week = seq<ContributionDay>

  /** The alignment cell put before the first day: no date, count 0, level 0. */
  const Placeholder: ContributionDay := ContributionDay("", 0, 0)

  /** A cell is rendered as a placeholder when its date is empty (falsy). */
  predicate IsPlaceholder(cell: ContributionDay) {
    cell.date == ""
  }

  predicate IsSaturday(cell: ContributionDay) {
    Calendar.DayOfWeek(cell.date) == Some(6)
  }

  // ---------------------------------------------------------------------------
  // Week bucketing

  /** Number of placeholders before the first day: its weekday (0 for an unreadable date). */
  function LeadingPadding(days: seq<ContributionDay>): (k: nat)
    ensures k < 7
    ensures days == [] ==> k == 0
    ensures days != [] && Calendar.DayOfWeek(days[0].date).Some? ==> k == Calendar.DayOfWeek(days[0].date).value
    ensures days != [] && Calendar.DayOfWeek(days[0].date).None? ==> k == 0
  {
    if days == [] then 0 else Calendar.DayOfWeek(days[0].date).GetOr(0)
  }

  function Padding(k: nat): (cells: seq<ContributionDay>)
    ensures |cells| == k
    ensures forall i :: 0 <= i < k ==> cells[i] == Placeholder
  {
    seq(k, _ => Placeholder)
  }

  /**
   * Length of the first week of a run of cells: up to and including the first
   * cell that closes a week, or the whole run when none does.
   */
  function FirstWeekLength(cells: seq<ContributionDay>, closes: ContributionDay -> bool): (n: nat)
    requires cells != []
    ensures 1 <= n <= |cells|
    decreases |cells|
  {
    if closes(cells[0]) || |cells| == 1 then 1 else 1 + FirstWeekLength(cells[1..], closes)
  }

  /** The first week has no closing cell before its end, and ends on one unless it is the whole run. */
  lemma {:induction false} FirstWeekEnds(cells: seq<ContributionDay>, closes: ContributionDay -> bool)
    requires cells != []
    ensures var n := FirstWeekLength(cells, closes);
      && (forall j :: 0 <= j < n - 1 ==> !closes(cells[j]))
      && (n < |cells| ==> closes(cells[n - 1]))
    decreases |cells|
  {
    if !closes(cells[0]) && |cells| > 1 {
      var rest := cells[1..];
      FirstWeekEnds(rest, closes);
      var n := FirstWeekLength(cells, closes);
      forall j | 0 <= j < n - 1 ensures !closes(cells[j]) {
        if j > 0 {
          assert cells[j] == rest[j - 1];
        }
      }
      if n < |cells| {
        assert cells[n - 1] == rest[n - 2];
      }
    }
  }

  /** Cuts a run of cells into weeks after every closing cell and after the last cell. */
  function Cut(cells: seq<ContributionDay>, closes: ContributionDay -> bool): (weeks: seq<Week>)
    ensures |weeks| <= |cells|
    decreases |cells|
  {
    if cells == [] then []
    else
      var n := FirstWeekLength(cells, closes);
      [cells[..n]] + Cut(cells[n..], closes)
  }

  /** The week columns the graph draws for a list of days: Saturdays close weeks. */
  function Weeks(days: seq<ContributionDay>): (weeks: seq<Week>)
    ensures weeks == [] <==> days == []
  {
    Cut(Padding(LeadingPadding(days)) + days, IsSaturday)
  }

  function Flatten(weeks: seq<Week>): seq<ContributionDay>
    decreases |weeks|
  {
    if weeks == [] then [] else weeks[0] + Flatten(weeks[1..])
  }

  /** Every week is non-empty, has a closing cell only at its end, and all but the last end on one. */
  ghost predicate WellCut(weeks: seq<Week>, closes: ContributionDay -> bool) {
    && (forall i :: 0 <= i < |weeks| ==> weeks[i] != [])
    && (forall i, j :: 0 <= i < |weeks| && 0 <= j < |weeks[i]| - 1 ==> !closes(weeks[i][j]))
    && (forall i :: 0 <= i < |weeks| - 1 ==> closes(weeks[i][|weeks[i]| - 1]))
  }

  /**
   * `getWeeks`: walks the days in order, pads the first week with
   * `dayOfWeek(first)` placeholders, and closes the current week after each
   * Saturday and after the final day. No data gives no weeks.
   */
  method GetWeeks(data: Option<ContributionData>) returns (weeks: seq<Week>)
    ensures data.None? ==> weeks == []
    ensures data.Some? ==> weeks == Weeks(data.value.contributions)
  {
    if data.None? {
      return [];
    }
    var days := data.value.contributions;
    weeks := [];
    var currentWeek: Week := [];
    for index := 0 to |days|
      invariant Progress(days, index, weeks, currentWeek)
    {
      var day := days[index];
      var dayOfWeek := Calendar.DayOfWeek(day.date);
      ghost var weeksBefore, weekBefore := weeks, currentWeek;
      if index == 0 {
        for i := 0 to dayOfWeek.GetOr(0)
          invariant currentWeek == Padding(i)
        {
          currentWeek := currentWeek + [Placeholder];
        }
      }
      currentWeek := currentWeek + [day];
      var closes := dayOfWeek == Some(6) || index == |days| - 1;
      if closes {
        weeks := weeks + [currentWeek];
        currentWeek := [];
      }
      assert currentWeek == [] || currentWeek == Pushed(days, index, weekBefore);
      ProgressStep(days, index, weeksBefore, weekBefore, weeks, currentWeek);
    }
    if |days| == 0 {
      assert Padding(0) + days == [];
    }
  }

  /**
   * The loop invariant of `getWeeks` after `index` days: the weeks closed so
   * far followed by the cut of what is still open give the cut of all cells;
   * the open week has no Saturday; nothing is open at the end.
   */
  ghost predicate Progress(days: seq<ContributionDay>, index: nat, weeks: seq<Week>, currentWeek: Week) {
    && index <= |days|
    && (index == 0 ==> weeks == [] && currentWeek == [])
    && (0 < index ==>
          Cut(Padding(LeadingPadding(days)) + days, IsSaturday)
          == weeks + Cut(currentWeek + days[index..], IsSaturday))
    && NoSaturday(currentWeek)
    && (index == |days| ==> currentWeek == [])
  }

  ghost predicate NoSaturday(week: Week) {
    forall j :: 0 <= j < |week| ==> !IsSaturday(week[j])
  }

  /** The current week once day `index` is pushed (after the padding, for the first day). */
  function Pushed(days: seq<ContributionDay>, index: nat, currentWeek: Week): Week
    requires index < |days|
  {
    (if index == 0 then Padding(LeadingPadding(days)) else currentWeek) + [days[index]]
  }

  /** One iteration of `getWeeks` keeps its invariant. */
  lemma ProgressStep(days: seq<ContributionDay>, index: nat, weeksBefore: seq<Week>, weekBefore: Week,
                     weeks: seq<Week>, currentWeek: Week)
    requires index < |days| && Progress(days, index, weeksBefore, weekBefore)
    requires var closes := Calendar.DayOfWeek(days[index].date) == Some(6) || index == |days| - 1;
      && (closes ==> weeks == weeksBefore + [Pushed(days, index, weekBefore)] && currentWeek == [])
      && (!closes ==> weeks == weeksBefore && currentWeek == Pushed(days, index, weekBefore))
    ensures Progress(days, index + 1, weeks, currentWeek)
  {
    var extended := Pushed(days, index, weekBefore);
    var rest := days[index + 1..];
    PushedCut(days, index, weeksBefore, weekBefore);
    if IsSaturday(days[index]) || rest == [] {
      CutHead(extended, rest, IsSaturday);
      AppendAssociative(weeksBefore, [extended], Cut(rest, IsSaturday));
      assert currentWeek + rest == rest;
    } else {
      assert NoSaturday(currentWeek);
    }
  }

  /** Before the push decision, the cut of all cells is the closed weeks plus the cut of the pushed week and the rest. */
  lemma PushedCut(days: seq<ContributionDay>, index: nat, weeksBefore: seq<Week>, weekBefore: Week)
    requires index < |days| && Progress(days, index, weeksBefore, weekBefore)
    ensures Cut(Padding(LeadingPadding(days)) + days, IsSaturday)
            == weeksBefore + Cut(Pushed(days, index, weekBefore) + days[index + 1..], IsSaturday)
    ensures var extended := Pushed(days, index, weekBefore);
      forall j :: 0 <= j < |extended| - 1 ==> !IsSaturday(extended[j])
  {
    var start := if index == 0 then Padding(LeadingPadding(days)) else weekBefore;
    var pushed := Pushed(days, index, weekBefore);
    assert pushed == start + [days[index]];
    assert days[index..] == [days[index]] + days[index + 1..];
    assert start + days[index..] == pushed + days[index + 1..];
    if index == 0 {
      PaddingHasNoSaturday(LeadingPadding(days));
    }
  }

  lemma PaddingHasNoSaturday(k: nat)
    ensures NoSaturday(Padding(k))
  {
    assert Calendar.DayOfWeek("") == None;
  }

  /** Regrouping a concatenation; a separate step keeps `ProgressStep` small. */
  lemma AppendAssociative<T>(a: seq<T>, b: seq<T>, c: seq<T>)
    ensures a + (b + c) == (a + b) + c
  {
  }

  /** A run that ends on its first closing cell, or ends the input, is cut off as one week. */
  lemma CutHead(week: Week, rest: seq<ContributionDay>, closes: ContributionDay -> bool)
    requires week != []
    requires forall j :: 0 <= j < |week| - 1 ==> !closes(week[j])
    requires closes(week[|week| - 1]) || rest == []
    ensures Cut(week + rest, closes) == [week] + Cut(rest, closes)
  {
    var cells := week + rest;
    var n := FirstWeekLength(cells, closes);
    FirstWeekEnds(cells, closes);
    assert forall j :: 0 <= j < |week| ==> cells[j] == week[j];
    if n < |week| {
      assert false;
    }
    if n > |week| {
      assert false;
    }
    assert cells[..n] == week && cells[n..] == rest;
  }

  /** Cut weeks flatten back to the cells they came from. */
  lemma {:induction false} CutFlatten(cells: seq<ContributionDay>, closes: ContributionDay -> bool)
    ensures Flatten(Cut(cells, closes)) == cells
    decreases |cells|
  {
    if cells != [] {
      var n := FirstWeekLength(cells, closes);
      var weeks := Cut(cells, closes);
      CutFlatten(cells[n..], closes);
      assert weeks[1..] == Cut(cells[n..], closes);
      assert cells == cells[..n] + cells[n..];
    }
  }

  /** Cut weeks are well formed. */
  lemma {:induction false} CutWellCut(cells: seq<ContributionDay>, closes: ContributionDay -> bool)
    ensures WellCut(Cut(cells, closes), closes)
    decreases |cells|
  {
    if cells != [] {
      var n := FirstWeekLength(cells, closes);
      var weeks := Cut(cells, closes);
      var tail := Cut(cells[n..], closes);
      FirstWeekEnds(cells, closes);
      CutWellCut(cells[n..], closes);
      assert weeks == [cells[..n]] + tail;
      forall i | 0 <= i < |weeks| ensures weeks[i] != [] {
        if i > 0 {
          assert weeks[i] == tail[i - 1];
        }
      }
      forall i, j | 0 <= i < |weeks| && 0 <= j < |weeks[i]| - 1 ensures !closes(weeks[i][j]) {
        if i > 0 {
          assert weeks[i] == tail[i - 1];
        } else {
          assert weeks[0][j] == cells[j];
        }
      }
      forall i | 0 <= i < |weeks| - 1 ensures closes(weeks[i][|weeks[i]| - 1]) {
        if i > 0 {
          assert weeks[i] == tail[i - 1];
        } else {
          assert n < |cells|;
          assert weeks[0][n - 1] == cells[n - 1];
        }
      }
    }
  }

  /** Conversely, well-formed weeks are exactly the cut of their concatenation. */
  lemma {:induction false} CutUnique(weeks: seq<Week>, closes: ContributionDay -> bool)
    requires WellCut(weeks, closes)
    ensures Cut(Flatten(weeks), closes) == weeks
    decreases |weeks|
  {
    if weeks != [] {
      var first := weeks[0];
      assert forall j :: 0 <= j < |first| - 1 ==> !closes(first[j]);
      assert WellCut(weeks[1..], closes) by {
        forall i | 0 <= i < |weeks| - 1 ensures weeks[1..][i] == weeks[i + 1] { }
      }
      CutUnique(weeks[1..], closes);
      if |weeks| == 1 {
        assert Flatten(weeks[1..]) == [];
      }
      CutHead(first, Flatten(weeks[1..]), closes);
    }
  }

  /** Every cell of every week occurs in the concatenation of the weeks. */
  lemma {:induction false} CellInFlatten(weeks: seq<Week>, i: nat, j: nat)
    requires i < |weeks| && j < |weeks[i]|
    ensures weeks[i][j] in Flatten(weeks)
    decreases i
  {
    if i > 0 {
      CellInFlatten(weeks[1..], i - 1, j);
    }
  }

  /** The last cell of the last week is the last cell overall. */
  lemma {:induction false} FlattenLast(weeks: seq<Week>)
    requires weeks != [] && weeks[|weeks| - 1] != []
    ensures var last := weeks[|weeks| - 1];
      Flatten(weeks) != [] && Flatten(weeks)[|Flatten(weeks)| - 1] == last[|last| - 1]
    decreases |weeks|
  {
    if |weeks| > 1 {
      FlattenLast(weeks[1..]);
    }
  }

  /** No days give no weeks. */
  lemma NoDaysNoWeeks()
    ensures Weeks([]) == []
  {
    assert Padding(0) + [] == [];
  }

  /**
   * The weeks hold the placeholders and then every day, in order, once; each
   * week is non-empty, every week but the last ends on a Saturday, no week has
   * a Saturday before its end, and the last week ends with the final day.
   */
  lemma WeeksShape(days: seq<ContributionDay>)
    ensures Flatten(Weeks(days)) == Padding(LeadingPadding(days)) + days
    ensures WellCut(Weeks(days), IsSaturday)
    ensures days != [] ==>
              && Weeks(days) != []
              && var last := Weeks(days)[|Weeks(days)| - 1];
                 last != [] && last[|last| - 1] == days[|days| - 1]
  {
    var cells := Padding(LeadingPadding(days)) + days;
    CutWellCut(cells, IsSaturday);
    CutFlatten(cells, IsSaturday);
    if days != [] {
      WeeksEndWithLastDay(days);
    }
  }

  lemma WeeksEndWithLastDay(days: seq<ContributionDay>)
    requires days != []
    ensures Weeks(days) != []
    ensures var last := Weeks(days)[|Weeks(days)| - 1];
      last != [] && last[|last| - 1] == days[|days| - 1]
  {
    var cells := Padding(LeadingPadding(days)) + days;
    CutLastWeek(cells, IsSaturday);
    assert cells[|cells| - 1] == days[|days| - 1];
  }

  /** The last cut week is not empty and ends with the last cell. */
  lemma {:induction false} CutLastWeek(cells: seq<ContributionDay>, closes: ContributionDay -> bool)
    requires cells != []
    ensures Cut(cells, closes) != []
    ensures var last := Cut(cells, closes)[|Cut(cells, closes)| - 1];
      last != [] && last[|last| - 1] == cells[|cells| - 1]
    decreases |cells|
  {
    var n := FirstWeekLength(cells, closes);
    var weeks := Cut(cells, closes);
    assert weeks == [cells[..n]] + Cut(cells[n..], closes);
    if n < |cells| {
      var rest := cells[n..];
      CutLastWeek(rest, closes);
      assert weeks[|weeks| - 1] == Cut(rest, closes)[|Cut(rest, closes)| - 1];
      assert rest[|rest| - 1] == cells[|cells| - 1];
    } else {
      assert Cut(cells[n..], closes) == [];
      assert weeks == [cells[..n]];
      assert cells[..n][n - 1] == cells[|cells| - 1];
    }
  }

  /** The days that are not placeholders, in order. */
  function RealDays(cells: seq<ContributionDay>): (days: seq<ContributionDay>)
    decreases |cells|
  {
    if cells == [] then []
    else if IsPlaceholder(cells[0]) then RealDays(cells[1..])
    else [cells[0]] + RealDays(cells[1..])
  }

  lemma {:induction false} RealDaysAppend(a: seq<ContributionDay>, b: seq<ContributionDay>)
    ensures RealDays(a + b) == RealDays(a) + RealDays(b)
    decreases |a|
  {
    if a == [] {
      assert a + b == b;
    } else {
      RealDaysAppend(a[1..], b);
      var ab := a + b;
      assert ab[0] == a[0];
      assert ab[1..] == a[1..] + b;
      if IsPlaceholder(a[0]) {
        assert RealDays(ab) == RealDays(ab[1..]);
      } else {
        assert RealDays(ab) == [a[0]] + RealDays(ab[1..]);
        assert [a[0]] + (RealDays(a[1..]) + RealDays(b)) == ([a[0]] + RealDays(a[1..])) + RealDays(b);
      }
    }
  }

  lemma {:induction false} RealDaysOfDated(days: seq<ContributionDay>)
    requires forall d :: d in days ==> !IsPlaceholder(d)
    ensures RealDays(days) == days
    decreases |days|
  {
    if days != [] {
      RealDaysOfDated(days[1..]);
    }
  }

  lemma {:induction false} RealDaysOfPadding(k: nat)
    ensures RealDays(Padding(k)) == []
    decreases k
  {
    if k > 0 {
      assert Padding(k)[1..] == Padding(k - 1);
      RealDaysOfPadding(k - 1);
    }
  }

  /** Dropping the placeholder cells of all weeks gives back exactly the input days. */
  lemma WeeksKeepDays(days: seq<ContributionDay>)
    requires forall d :: d in days ==> !IsPlaceholder(d)
    ensures RealDays(Flatten(Weeks(days))) == days
  {
    var k := LeadingPadding(days);
    WeeksShape(days);
    RealDaysAppend(Padding(k), days);
    RealDaysOfPadding(k);
    RealDaysOfDated(days);
  }

  /**
   * Only the first week has placeholders: it opens with exactly
   * `LeadingPadding(days)` of them, followed by real days only.
   */
  lemma PaddingOnlyInFirstWeek(days: seq<ContributionDay>)
    requires days != []
    requires forall d :: d in days ==> !IsPlaceholder(d)
    ensures var weeks := Weeks(days);
      var k := LeadingPadding(days);
      && weeks != [] && |weeks[0]| > k
      && weeks[0][..k] == Padding(k)
      && (forall j :: k <= j < |weeks[0]| ==> !IsPlaceholder(weeks[0][j]))
      && (forall i, j :: 1 <= i < |weeks| && 0 <= j < |weeks[i]| ==> !IsPlaceholder(weeks[i][j]))
  {
    var k := LeadingPadding(days);
    var cells := Padding(k) + days;
    var n := FirstWeekLength(cells, IsSaturday);
    FirstWeekPastPadding(k, days);
    var weeks := Weeks(days);
    assert weeks == [cells[..n]] + Cut(cells[n..], IsSaturday);
    FirstWeekCells(k, days, n);
    var tail := cells[n..];
    assert forall d :: d in tail ==> d in days;
    CutKeepsCells(tail, IsSaturday);
  }

  /** The first week runs past the padding: placeholders are never Saturdays. */
  lemma FirstWeekPastPadding(k: nat, days: seq<ContributionDay>)
    requires days != []
    ensures FirstWeekLength(Padding(k) + days, IsSaturday) > k
  {
    var cells := Padding(k) + days;
    FirstWeekEnds(cells, IsSaturday);
    PaddingHasNoSaturday(k);
    assert forall j :: 0 <= j < k ==> cells[j] == Padding(k)[j];
  }

  /** The first `n` cells after `k` placeholders: the placeholders, then real days. */
  lemma FirstWeekCells(k: nat, days: seq<ContributionDay>, n: nat)
    requires k < n <= k + |days|
    requires forall d :: d in days ==> !IsPlaceholder(d)
    ensures (Padding(k) + days)[..n][..k] == Padding(k)
    ensures forall j :: k <= j < n ==> !IsPlaceholder((Padding(k) + days)[..n][j])
  {
    var week := (Padding(k) + days)[..n];
    forall j | k <= j < n ensures !IsPlaceholder(week[j]) {
      assert week[j] == days[j - k];
    }
  }

  /** Every cell of every cut week is one of the cells cut. */
  lemma CutKeepsCells(cells: seq<ContributionDay>, closes: ContributionDay -> bool)
    ensures forall i, j :: 0 <= i < |Cut(cells, closes)| && 0 <= j < |Cut(cells, closes)[i]| ==>
              Cut(cells, closes)[i][j] in cells
  {
    var weeks := Cut(cells, closes);
    CutFlatten(cells, closes);
    forall i, j | 0 <= i < |weeks| && 0 <= j < |weeks[i]| ensures weeks[i][j] in cells {
      CellInFlatten(weeks, i, j);
    }
  }

  /** Days dated with consecutive day numbers from `start`. */
  ghost predicate ConsecutiveFrom(days: seq<ContributionDay>, start: int) {
    forall j :: 0 <= j < |days| ==> Calendar.DateNumber(days[j].date) == Some(start + j)
  }

  /** When closing cells sit exactly at positions 6, 13, 20, …, weeks are full sevens. */
  lemma {:induction false} CutAligned(cells: seq<ContributionDay>, closes: ContributionDay -> bool)
    requires forall p :: 0 <= p < |cells| ==> (closes(cells[p]) <==> p % 7 == 6)
    ensures forall i :: 0 <= i < |Cut(cells, closes)| - 1 ==> |Cut(cells, closes)[i]| == 7
    ensures |Cut(cells, closes)| == (|cells| + 6) / 7
    decreases |cells|
  {
    if cells != [] {
      var n := FirstWeekLength(cells, closes);
      FirstWeekEnds(cells, closes);
      if |cells| >= 7 {
        assert closes(cells[6]);
        assert n == 7;
        var rest := cells[7..];
        forall p | 0 <= p < |rest| ensures closes(rest[p]) <==> p % 7 == 6 {
          assert rest[p] == cells[p + 7];
        }
        CutAligned(rest, closes);
      } else {
        assert n == |cells|;
      }
    }
  }

  /**
   * For consecutive calendar days, every week but the last has seven cells and
   * there are ceil((padding + days) / 7) weeks.
   */
  lemma ConsecutiveWeeks(days: seq<ContributionDay>, start: int)
    requires ConsecutiveFrom(days, start)
    ensures forall i :: 0 <= i < |Weeks(days)| - 1 ==> |Weeks(days)[i]| == 7
    ensures |Weeks(days)| == (LeadingPadding(days) + |days| + 6) / 7
  {
    var k := LeadingPadding(days);
    var cells := Padding(k) + days;
    if days != [] {
      assert Calendar.DateNumber(days[0].date) == Some(start);
      Calendar.WeekdayOfDate(days[0].date, start);
    }
    forall p | 0 <= p < |cells| ensures IsSaturday(cells[p]) <==> p % 7 == 6 {
      SaturdayAt(days, start, k, p);
    }
    CutAligned(cells, IsSaturday);
  }

  /** After `k` placeholders, the cell at position `p` is a Saturday exactly when `p % 7 == 6`. */
  lemma SaturdayAt(days: seq<ContributionDay>, start: int, k: nat, p: nat)
    requires ConsecutiveFrom(days, start) && p < k + |days|
    requires days == [] ==> k == 0
    requires days != [] ==> k == Calendar.WeekdayOf(start)
    ensures IsSaturday((Padding(k) + days)[p]) <==> p % 7 == 6
  {
    var cells := Padding(k) + days;
    if p < k {
      PaddingHasNoSaturday(k);
      assert cells[p] == Padding(k)[p];
    } else {
      var j := p - k;
      assert cells[p] == days[j];
      Calendar.WeekdayOfDate(days[j].date, start + j);
      WeekdayShift(start, j, k);
    }
  }

  lemma WeekdayShift(start: int, j: nat, k: int)
    requires k == Calendar.WeekdayOf(start)
    ensures Calendar.WeekdayOf(start + j) == (k + j) % 7
  {
    var q := (start + 4) / 7;
    assert start + 4 == 7 * q + k;
    assert start + j + 4 == 7 * q + (k + j);
  }

  // ---------------------------------------------------------------------------
  // Cell colours and titles

  datatype Theme = Light | Dark

  /** The five GitHub greens on a dark background, from no activity to most. */
  const DarkPalette: seq<string> :=
    ["bg-[#161b22]", "bg-[#0e4429]", "bg-[#006d32]", "bg-[#26a641]", "bg-[#39d353]"]

  /** The five GitHub greens on a light background, from no activity to most. */
  const LightPalette: seq<string> :=
    ["bg-[#ebedf0]", "bg-[#9be9a8]", "bg-[#40c463]", "bg-[#30a14e]", "bg-[#216e39]"]

  /** The class of a placeholder cell. */
  const TransparentClass: string := "bg-transparent"

  /** Any theme other than dark uses the light palette. */
  function Palette(theme: Theme): (p: seq<string>)
    ensures |p| == 5
    ensures forall i :: 0 <= i < 5 ==> p[i] != ""
  {
    if theme == Dark then DarkPalette else LightPalette
  }

  /**
   * `getColorClass`: `colors[level] || colors[0]`. An index outside the array
   * reads `undefined` and an empty entry is falsy; both fall back to entry 0.
   */
  function ColorClass(theme: Theme, level: int): (c: string)
    ensures 0 <= level < 5 ==> c == Palette(theme)[level]
    ensures !(0 <= level < 5) ==> c == Palette(theme)[0]
    ensures c in Palette(theme)
  {
    var colors := Palette(theme);
    if 0 <= level < |colors| && colors[level] != "" then colors[level] else colors[0]
  }

  /** Within a theme the five levels get five different colours. */
  lemma LevelsDistinct(theme: Theme, a: int, b: int)
    requires 0 <= a < 5 && 0 <= b < 5 && a != b
    ensures ColorClass(theme, a) != ColorClass(theme, b)
  {
    var p := Palette(theme);
    assert p[a][5] != p[b][5] || p[a][6] != p[b][6] || p[a][7] != p[b][7] ||
           p[a][8] != p[b][8] || p[a][9] != p[b][9] || p[a][10] != p[b][10];
  }

  /** The dark and the light palette share no colour, so a cell's class tells the theme. */
  lemma PalettesDisjoint(levelDark: int, levelLight: int)
    ensures ColorClass(Dark, levelDark) != ColorClass(Light, levelLight)
  {
    var d := ColorClass(Dark, levelDark);
    var l := ColorClass(Light, levelLight);
    assert d[5] == '1' || d[5] == '0' || d[5] == '2' || d[5] == '3';
    assert l[5] == 'e' || l[5] == '9' || l[5] == '4' || l[5] == '3' || l[5] == '2';
    assert d[5] == l[5] ==> d[6] != l[6];
  }

  /** The transparent class is in neither palette. */
  lemma TransparentNotInPalette(theme: Theme)
    ensures TransparentClass !in Palette(theme)
  {
    forall c | c in Palette(theme) ensures c != TransparentClass {
      assert c[3] == '[';
    }
  }

  /** The legend squares for levels 0 to 4, in order. */
  function Legend(theme: Theme): (squares: seq<string>)
  {
    seq(5, level => ColorClass(theme, level))
  }

  /** The legend shows the theme's whole palette, least active first. */
  lemma LegendIsPalette(theme: Theme)
    ensures Legend(theme) == Palette(theme)
  {
  }

  /** The class of a grid cell: its level's colour, or transparent for a placeholder. */
  function CellClass(theme: Theme, cell: ContributionDay): (c: string)
    ensures IsPlaceholder(cell) <==> c == TransparentClass
    ensures !IsPlaceholder(cell) ==> c == ColorClass(theme, cell.level)
  {
    TransparentNotInPalette(theme);
    if cell.date != "" then ColorClass(theme, cell.level) else TransparentClass
  }

  /** The hover title of a grid cell: `"<count> contributions on <date>"`, none for a placeholder. */
  function CellTitle(cell: ContributionDay): (title: string)
    ensures IsPlaceholder(cell) <==> title == ""
  {
    if cell.date != "" then Text.IntToString(cell.count) + " contributions on " + cell.date else ""
  }

  /** Two dated cells with non-negative counts have the same title only if they have the same count and date. */
  lemma TitleIdentifiesCell(a: ContributionDay, b: ContributionDay)
    requires !IsPlaceholder(a) && !IsPlaceholder(b) && a.count >= 0 && b.count >= 0
    requires CellTitle(a) == CellTitle(b)
    ensures a.count == b.count && a.date == b.date
  {
    var sa := Text.NatToString(a.count);
    var sb := Text.NatToString(b.count);
    var ta := " contributions on " + a.date;
    var tb := " contributions on " + b.date;
    assert CellTitle(a) == sa + ta;
    assert CellTitle(b) == sb + tb;
    DigitRunOfAppend(sa, ta);
    DigitRunOfAppend(sb, tb);
    assert sa == (sa + ta)[..|sa|];
    assert sb == (sb + tb)[..|sb|];
    Text.NatToStringInjective(a.count, b.count);
    assert ta == (sa + ta)[|sa|..];
    assert tb == (sb + tb)[|sb|..];
    assert a.date == ta[18..] && b.date == tb[18..];
  }

  /** Length of the run of decimal digits a string starts with. */
  function DigitRun(s: string): (n: nat)
    ensures n <= |s|
    decreases |s|
  {
    if s != [] && '0' <= s[0] <= '9' then 1 + DigitRun(s[1..]) else 0
  }

  lemma {:induction false} DigitRunOfAppend(digits: string, rest: string)
    requires Text.IsDigits(digits)
    requires rest != [] && !('0' <= rest[0] <= '9')
    ensures DigitRun(digits + rest) == |digits|
    decreases |digits|
  {
    if digits == [] {
      assert digits + rest == rest;
    } else {
      assert (digits + rest)[1..] == digits[1..] + rest;
      DigitRunOfAppend(digits[1..], rest);
    }
  }

  // ---------------------------------------------------------------------------
  // Fetching

  /**
   * What one attempt to fetch the year's contributions produced: a thrown
   * network error, or a response with its `ok` flag and its body, which is
   * `None` when it does not decode to data with a contributions list.
   */
  datatype FetchOutcome =
    | NetworkError
    | Response(ok: bool, body: Option<ContributionData>)

  /** The rule for replacing the shown data: an OK response with at least one day. */
  predicate Accepts(outcome: FetchOutcome): (accepted: bool)
    ensures accepted ==> outcome.Response? && outcome.ok
    ensures outcome.Response? && outcome.body == None ==> !accepted
  {
    && outcome.Response?
    && outcome.ok
    && outcome.body.Some?
    && |outcome.body.value.contributions| > 0
  }

  /** What the card shows. */
  datatype GraphView =
    | Skeleton
    | Grid(total: int, columns: seq<seq<(string, string)>>)

  /** The component's state: the shown data (none at first) and its own loading flag. */
  class ContributionGraph {
    var data: Option<ContributionData>
    var loading: bool

    /** Data, once there is any, always has at least one day. */
    ghost predicate Valid()
      reads this
    {
      data.Some? ==> |data.value.contributions| > 0
    }

    constructor ()
      ensures Valid()
      ensures data == None && loading
    {
      data := None;
      loading := true;
    }

    /**
     * The fetch effect. While the profile loads nothing happens and nothing
     * is requested. Otherwise it asks for the target user's year, replaces
     * the data only when the outcome is accepted, and stops loading
     * whatever happened.
     */
    method FetchContributions(profileLoading: bool, github: string, outcome: FetchOutcome)
      returns (requested: Option<string>)
      requires Valid()
      modifies this
      ensures Valid()
      ensures profileLoading ==> requested == None && data == old(data) && loading == old(loading)
      ensures !profileLoading ==> requested == Some(GithubUser.TargetUsername(github)) && !loading
      ensures !profileLoading && Accepts(outcome) ==> data == outcome.body
      ensures !Accepts(outcome) ==> data == old(data)
    {
      if profileLoading {
        return None;
      }
      loading := true;
      var targetUsername := GithubUser.TargetUsername(github);
      requested := Some(targetUsername);
      match outcome {
        case NetworkError =>
        case Response(ok, body) =>
          if ok && body.Some? {
            var result := body.value;
            if |result.contributions| > 0 {
              data := Some(result);
            }
          }
      }
      loading := false;
    }

    /**
     * The card: a skeleton while either this component or the profile is
     * loading, else the year's total (0 without data) and, per week column,
     * each cell's class and title.
     */
    function Render(theme: Theme, profileLoading: bool): (view: GraphView)
      reads this
      ensures view.Skeleton? <==> loading || profileLoading
      ensures view.Grid? ==> view.total == if data.Some? then data.value.totalLastYear else 0
      ensures view.Grid? && data.None? ==> view.columns == []
      ensures view.Grid? && data.Some? ==>
                var weeks := Weeks(data.value.contributions);
                && |view.columns| == |weeks|
                && (forall i :: 0 <= i < |weeks| ==> |view.columns[i]| == |weeks[i]|)
                && (forall i, j :: 0 <= i < |weeks| && 0 <= j < |weeks[i]| ==>
                      view.columns[i][j] == (CellClass(theme, weeks[i][j]), CellTitle(weeks[i][j])))
    {
      if loading || profileLoading then Skeleton
      else
        var total := if data.Some? then data.value.totalLastYear else 0;
        var weeks := if data.Some? then Weeks(data.value.contributions) else [];
        Grid(total, seq(|weeks|, i requires 0 <= i < |weeks| =>
          seq(|weeks[i]|, j requires 0 <= j < |weeks[i]| =>
            (CellClass(theme, weeks[i][j]), CellTitle(weeks[i][j])))))
    }
  }
}
