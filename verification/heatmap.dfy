/** The submission heatmap: per-day grouping of submissions, the week-by-week grid,
    intensity levels and colours, the tooltip list and the summary figures. Days are day
    numbers (whole days since 1970-01-01 UTC); the local-timezone calendar is not modelled. */
module Heatmap {
  import opened Wrappers
  import opened Codeforces
  import Seqs
  import Reconcile

  const DayMillis := Reconcile.DayMillis

  /** `getIntensity`. */
  function Intensity(count: int): (n: int)
    ensures 0 <= n <= 4
    ensures n == 0 <==> count <= 0
  {
    if count <= 0 then 0
    else if count <= 2 then 1
    else if count <= 5 then 2
    else if count <= 10 then 3
    else 4
  }

  /** The cut points of the levels: a count above a cut point is at least one level higher. */
  const CutPoints: seq<int> := [0, 2, 5, 10]

  /** Independent reference: the level is the number of cut points the count exceeds. */
  function Exceeded(cuts: seq<int>, count: int): nat {
    if |cuts| == 0 then 0 else (if count > cuts[0] then 1 else 0) + Exceeded(cuts[1..], count)
  }

  lemma IntensityIsCutsExceeded(count: int)
    ensures Intensity(count) == Exceeded(CutPoints, count)
  {
    var c := CutPoints;
    assert c[3..][1..] == [];
    assert c[2..][1..] == c[3..];
    assert c[1..][1..] == c[2..];
    assert Exceeded(c[3..], count) == (if count > 10 then 1 else 0);
    assert Exceeded(c[2..], count) == (if count > 5 then 1 else 0) + Exceeded(c[3..], count);
    assert Exceeded(c[1..], count) == (if count > 2 then 1 else 0) + Exceeded(c[2..], count);
    assert Exceeded(c, count) == (if count > 0 then 1 else 0) + Exceeded(c[1..], count);
  }

  /** More submissions never give a lighter cell. */
  lemma IntensityMonotone(a: int, b: int)
    requires a <= b
    ensures Intensity(a) <= Intensity(b)
  {
  }

  const IntensityColors: seq<string> := [
    "bg-muted/30 hover:bg-muted/50",
    "bg-green-200 dark:bg-green-900/40 hover:bg-green-300 dark:hover:bg-green-900/60",
    "bg-green-300 dark:bg-green-800/60 hover:bg-green-400 dark:hover:bg-green-800/80",
    "bg-green-400 dark:bg-green-700/80 hover:bg-green-500 dark:hover:bg-green-700",
    "bg-green-500 dark:bg-green-600 hover:bg-green-600 dark:hover:bg-green-500"]

  const TransparentColor := "bg-transparent"

  /** `getIntensityColor`: out-of-range cells are transparent; an intensity with no colour
      (`colors[intensity]` undefined) falls back to the level-0 colour. */
  function IntensityColor(intensity: int, outOfRange: bool): (c: string)
    ensures outOfRange ==> c == TransparentColor
    ensures !outOfRange ==> c in IntensityColors
    ensures !outOfRange && 0 <= intensity < |IntensityColors| ==> c == IntensityColors[intensity]
    ensures !outOfRange && !(0 <= intensity < |IntensityColors|) ==> c == IntensityColors[0]
  {
    if outOfRange then TransparentColor
    else if 0 <= intensity < |IntensityColors| then IntensityColors[intensity]
    else IntensityColors[0]
  }

  /** The five level colours are pairwise different. */
  lemma IntensityColorsDistinct()
    ensures forall i, j :: 0 <= i < j < |IntensityColors| ==> IntensityColors[i] != IntensityColors[j]
  {
  }

  /** Two in-range days get the same colour exactly when they are at the same level. */
  lemma SameColorSameLevel(a: int, b: int)
    ensures IntensityColor(Intensity(a), false) == IntensityColor(Intensity(b), false) <==> Intensity(a) == Intensity(b)
  {
    IntensityColorsDistinct();
  }

  /** The day number of a creation time in seconds. */
  function DayOf(seconds: int): int {
    (seconds * 1000) / DayMillis
  }

  /** Day 0 was a Thursday; Sunday is 0. */
  function Weekday(day: int): (w: int)
    ensures 0 <= w < 7
  {
    (day + 4) % 7
  }

  /** One grid cell. Out-of-range cells carry the placeholder count -1. */
  datatype Cell = Cell(day: int, count: int, accepted: int, submissions: seq<Submission>)

  function OnDay(d: int): Submission -> bool {
    (s: Submission) => DayOf(s.creationTimeSeconds) == d
  }

  /** The cell of day `d`: that day's submissions, how many, and how many accepted. */
  function DayCell(subs: seq<Submission>, d: int): (c: Cell)
    ensures c.day == d && c.submissions == Seqs.Filter(OnDay(d), subs)
    ensures c.count == Seqs.Count(OnDay(d), subs)
    ensures c.accepted == Seqs.Count(Accepted, c.submissions)
    ensures 0 <= c.accepted <= c.count
  {
    var ds := Seqs.Filter(OnDay(d), subs);
    Cell(d, |ds|, |Seqs.Filter(Accepted, ds)|, ds)
  }

  /** A day's cell lists exactly the submissions made that day. */
  lemma DayCellMembers(subs: seq<Submission>, d: int, s: Submission)
    ensures s in DayCell(subs, d).submissions <==> s in subs && DayOf(s.creationTimeSeconds) == d
  {
    Seqs.FilterMembership(OnDay(d), subs, s);
  }

  function Placeholder(d: int): Cell {
    Cell(d, -1, 0, [])
  }

  /** The days shown: `filterDays` days ending today. */
  datatype Window = Window(startDay: int, endDay: int)

  function WindowOf(nowMs: int, filterDays: int): (w: Window)
    requires filterDays >= 1
    ensures w.endDay == nowMs / DayMillis
    ensures w.endDay - w.startDay + 1 == filterDays
  {
    var today := nowMs / DayMillis;
    Window(today - (filterDays - 1), today)
  }

  predicate InRange(d: int, w: Window) {
    w.startDay <= d <= w.endDay
  }

  /** The range test as the grid loop writes it: the cell's midnight against the start
      instant, which carries the current time of day. */
  predicate InRangeAsWritten(d: int, nowMs: int, filterDays: int) {
    var startMs := nowMs - (filterDays - 1) * DayMillis;
    startMs <= d * DayMillis <= nowMs
  }

  /** Unless the page is built exactly at midnight, the as-written test drops the first day
      of the window and agrees with the intended test on every other day. */
  lemma StartDayDroppedAsWritten(nowMs: int, filterDays: int, d: int)
    requires filterDays >= 1 && nowMs % DayMillis != 0
    ensures var w := WindowOf(nowMs, filterDays);
      && !InRangeAsWritten(w.startDay, nowMs, filterDays)
      && (InRangeAsWritten(d, nowMs, filterDays) <==> InRange(d, w) && d != w.startDay)
  {
    var today := nowMs / DayMillis;
    assert nowMs == today * DayMillis + nowMs % DayMillis;
    var w := WindowOf(nowMs, filterDays);
    assert w.startDay * DayMillis == nowMs - (filterDays - 1) * DayMillis - nowMs % DayMillis;
  }

  /** A concrete case: a 7-day heatmap built one millisecond after midnight of day 10
      shows day 4 as out of range, so only 6 days are in range. */
  lemma StartDayDroppedExample()
    ensures WindowOf(10 * DayMillis + 1, 7) == Window(4, 10)
    ensures !InRangeAsWritten(4, 10 * DayMillis + 1, 7)
    ensures InRangeAsWritten(5, 10 * DayMillis + 1, 7) && InRangeAsWritten(10, 10 * DayMillis + 1, 7)
  {
  }

  /** The Sunday that starts the week of `d`. */
  function WeekStart(d: int): (s: int)
    ensures s <= d < s + 7 && Weekday(s) == 0
  {
    var s := d - Weekday(d);
    assert d + 4 == 7 * ((d + 4) / 7) + Weekday(d);
    assert s + 4 == 7 * ((d + 4) / 7);
    s
  }

  /** The Saturday that ends the week of `d`. */
  function WeekEnd(d: int): (e: int)
    ensures d <= e < d + 7 && Weekday(e) == 6
  {
    WeekStart(d) + 6
  }

  /** The number of grid weeks needed to cover the window. */
  function Weeks(w: Window): (n: nat)
    requires w.startDay <= w.endDay
    ensures 7 * n == WeekEnd(w.endDay) - WeekStart(w.startDay) + 1
  {
    var first, last := WeekStart(w.startDay), WeekEnd(w.endDay);
    assert (first + 4) % 7 == 0 && (last - 6 + 4) % 7 == 0;
    var a, b := (first + 4) / 7, (last - 2) / 7;
    assert first + 4 == 7 * a && last - 2 == 7 * b;
    b - a + 1
  }

  /** `Math.ceil(a / b)` for a positive divisor. */
  function CeilDiv(a: int, b: int): int
    requires b > 0
  {
    (a + b - 1) / b
  }

  /** The week count as the source computes it: whole days between the first Sunday's
      midnight and the last Saturday's final millisecond, rounded up, plus one, in weeks
      rounded up. */
  function WeeksAsWritten(w: Window): int
    requires w.startDay <= w.endDay
  {
    var firstMs := WeekStart(w.startDay) * DayMillis;
    var lastMs := (WeekEnd(w.endDay) + 1) * DayMillis - 1;
    var totalDays := CeilDiv(lastMs - firstMs, DayMillis) + 1;
    CeilDiv(totalDays, 7)
  }

  /** The source's count is always one week too many. */
  lemma WeeksAsWrittenOneExtra(w: Window)
    requires w.startDay <= w.endDay
    ensures WeeksAsWritten(w) == Weeks(w) + 1
  {
    var n := Weeks(w);
    var first := WeekStart(w.startDay);
    var lastMs := (WeekEnd(w.endDay) + 1) * DayMillis - 1;
    assert lastMs - first * DayMillis == 7 * n * DayMillis - 1;
    assert CeilDiv(7 * n * DayMillis - 1, DayMillis) == 7 * n;
    assert CeilDiv(7 * n + 1, 7) == n + 1;
  }

  function CellAt(subs: seq<Submission>, w: Window, d: int): Cell {
    if InRange(d, w) then DayCell(subs, d) else Placeholder(d)
  }

  /** `n` consecutive cells starting at day `from`. */
  function Cells(subs: seq<Submission>, w: Window, from: int, n: nat): (cs: seq<Cell>)
    ensures |cs| == n
    ensures forall j :: 0 <= j < n ==> cs[j] == CellAt(subs, w, from + j)
  {
    seq(n, j requires 0 <= j < n => CellAt(subs, w, from + j))
  }

  /** `weeks` columns of seven cells, the first starting at day `first`. */
  function GridFrom(subs: seq<Submission>, w: Window, first: int, weeks: nat): (g: seq<seq<Cell>>)
    ensures |g| == weeks
    ensures forall i :: 0 <= i < weeks ==> g[i] == Cells(subs, w, first + 7 * i, 7)
  {
    seq(weeks, i requires 0 <= i < weeks => Cells(subs, w, first + 7 * i, 7))
  }

  /** The grid of `generateHeatmapData` with the intended week count: columns start on the
      Sunday on or before the first day. */
  function Grid(subs: seq<Submission>, w: Window): seq<seq<Cell>>
    requires w.startDay <= w.endDay
  {
    GridFrom(subs, w, WeekStart(w.startDay), Weeks(w))
  }

  /** One column: seven cells from a Sunday; a cell carries -1 exactly when its day is
      outside the window, and an in-range cell counts that day's submissions. */
  lemma ColumnShape(subs: seq<Submission>, w: Window, from: int)
    requires Weekday(from) == 0
    ensures var col := Cells(subs, w, from, 7);
      && |col| == 7
      && Weekday(col[0].day) == 0
      && forall k :: 0 <= k < 7 ==>
           (col[k].count == -1 <==> !InRange(col[k].day, w))
           && (InRange(col[k].day, w) ==> col[k].count == Seqs.Count(OnDay(col[k].day), subs))
  {
    var col := Cells(subs, w, from, 7);
    forall k | 0 <= k < 7
      ensures (col[k].count == -1 <==> !InRange(col[k].day, w))
           && (InRange(col[k].day, w) ==> col[k].count == Seqs.Count(OnDay(col[k].day), subs))
    {
      assert col[k] == CellAt(subs, w, from + k);
    }
  }

  /** Every column has exactly seven cells starting on a Sunday; out-of-range cells carry -1
      and no submissions; in-range cells count that day's submissions. */
  lemma GridShape(subs: seq<Submission>, w: Window)
    requires w.startDay <= w.endDay
    ensures var g := Grid(subs, w);
      forall i :: 0 <= i < |g| ==>
        && |g[i]| == 7
        && Weekday(g[i][0].day) == 0
        && forall k :: 0 <= k < 7 ==>
             (g[i][k].count == -1 <==> !InRange(g[i][k].day, w))
             && (InRange(g[i][k].day, w) ==> g[i][k].count == Seqs.Count(OnDay(g[i][k].day), subs))
  {
    var g: seq<seq<Cell>> := Grid(subs, w);
    var first := WeekStart(w.startDay);
    forall i | 0 <= i < |g|
      ensures && |g[i]| == 7
        && Weekday(g[i][0].day) == 0
        && forall k :: 0 <= k < 7 ==>
             (g[i][k].count == -1 <==> !InRange(g[i][k].day, w))
             && (InRange(g[i][k].day, w) ==> g[i][k].count == Seqs.Count(OnDay(g[i][k].day), subs))
    {
      assert g[i] == Cells(subs, w, first + 7 * i, 7);
      assert (first + 7 * i + 4) % 7 == (first + 4) % 7;
      ColumnShape(subs, w, first + 7 * i);
    }
  }

  /** A cell as the grid loop builds it, with the as-written range test. */
  function CellAsWritten(subs: seq<Submission>, nowMs: int, filterDays: int, d: int): Cell {
    if InRangeAsWritten(d, nowMs, filterDays) then DayCell(subs, d) else Placeholder(d)
  }

  /** The days that pass the as-written range test: the whole window when the page is built
      exactly at midnight, and the window without its first day otherwise. */
  function ShownWindow(nowMs: int, filterDays: int): Window
    requires filterDays >= 1
  {
    var w := WindowOf(nowMs, filterDays);
    if nowMs % DayMillis == 0 then w else Window(w.startDay + 1, w.endDay)
  }

  lemma ShownWindowIsAsWritten(nowMs: int, filterDays: int, d: int)
    requires filterDays >= 1
    ensures InRangeAsWritten(d, nowMs, filterDays) <==> InRange(d, ShownWindow(nowMs, filterDays))
  {
    if nowMs % DayMillis != 0 {
      StartDayDroppedAsWritten(nowMs, filterDays, d);
    } else {
      var today := nowMs / DayMillis;
      assert nowMs == today * DayMillis;
      assert nowMs - (filterDays - 1) * DayMillis == (today - (filterDays - 1)) * DayMillis;
    }
  }

  /** `n` consecutive cells from day `from`, as the grid loop builds them. */
  function CellsAsWritten(subs: seq<Submission>, nowMs: int, filterDays: int, from: int, n: nat): (cs: seq<Cell>)
    ensures |cs| == n
    ensures forall j :: 0 <= j < n ==> cs[j] == CellAsWritten(subs, nowMs, filterDays, from + j)
  {
    seq(n, j requires 0 <= j < n => CellAsWritten(subs, nowMs, filterDays, from + j))
  }

  /** The grid as the source builds it: the source's week count, and every cell classified by
      the as-written range test. */
  function GridAsWritten(subs: seq<Submission>, nowMs: int, filterDays: int): (g: seq<seq<Cell>>)
    requires filterDays >= 1
    ensures |g| == Weeks(WindowOf(nowMs, filterDays)) + 1
    ensures forall i :: 0 <= i < |g| ==> |g[i]| == 7
    // column i is the week starting i weeks after the Sunday on or before the first day
    ensures forall i :: 0 <= i < |g| ==>
      g[i] == CellsAsWritten(subs, nowMs, filterDays, WeekStart(WindowOf(nowMs, filterDays).startDay) + 7 * i, 7)
  {
    var w := WindowOf(nowMs, filterDays);
    var first := WeekStart(w.startDay);
    WeeksAsWrittenOneExtra(w);
    var n := WeeksAsWritten(w);
    var g := seq(n, i requires 0 <= i < n => CellsAsWritten(subs, nowMs, filterDays, first + 7 * i, 7));
    assert forall i :: 0 <= i < n ==> g[i] == CellsAsWritten(subs, nowMs, filterDays, first + 7 * i, 7);
    g
  }

  /** A run of as-written cells is the run of cells of the shown days. */
  lemma CellsAsWrittenAreShown(subs: seq<Submission>, nowMs: int, filterDays: int, from: int, n: nat)
    requires filterDays >= 1
    ensures CellsAsWritten(subs, nowMs, filterDays, from, n) == Cells(subs, ShownWindow(nowMs, filterDays), from, n)
  {
    var v := ShownWindow(nowMs, filterDays);
    var a, b := CellsAsWritten(subs, nowMs, filterDays, from, n), Cells(subs, v, from, n);
    forall j | 0 <= j < n ensures a[j] == b[j] {
      ShownWindowIsAsWritten(nowMs, filterDays, from + j);
    }
  }

  /** The source's grid is the grid of the shown days, one week longer than needed. */
  lemma GridAsWrittenIsShownGrid(subs: seq<Submission>, nowMs: int, filterDays: int)
    requires filterDays >= 1
    ensures var w := WindowOf(nowMs, filterDays);
      GridAsWritten(subs, nowMs, filterDays)
        == GridFrom(subs, ShownWindow(nowMs, filterDays), WeekStart(w.startDay), Weeks(w) + 1)
  {
    var w := WindowOf(nowMs, filterDays);
    var v := ShownWindow(nowMs, filterDays);
    var first := WeekStart(w.startDay);
    var g := GridAsWritten(subs, nowMs, filterDays);
    var h := GridFrom(subs, v, first, Weeks(w) + 1);
    assert |g| == |h|;
    forall i | 0 <= i < |g| ensures g[i] == h[i] {
      CellsAsWrittenAreShown(subs, nowMs, filterDays, first + 7 * i, 7);
    }
  }

  /** The source's last column lies wholly after the window; built at midnight, the columns
      before it are the intended grid. */
  lemma ExtraWeekIsBlank(subs: seq<Submission>, nowMs: int, filterDays: int)
    requires filterDays >= 1
    ensures var g := GridAsWritten(subs, nowMs, filterDays);
      var w := WindowOf(nowMs, filterDays);
      && (forall c :: c in g[|g| - 1] ==> c.count == -1 && !InRange(c.day, w))
      && (nowMs % DayMillis == 0 ==> g[..|g| - 1] == Grid(subs, w))
  {
    var w := WindowOf(nowMs, filterDays);
    var v := ShownWindow(nowMs, filterDays);
    GridAsWrittenIsShownGrid(subs, nowMs, filterDays);
    var g := GridAsWritten(subs, nowMs, filterDays);
    var last: seq<Cell> := g[|g| - 1];
    forall c: Cell | c in last ensures c.count == -1 && !InRange(c.day, w) {
      var k :| 0 <= k < 7 && last[k] == c;
      assert c.day == WeekStart(w.startDay) + 7 * Weeks(w) + k;
    }
  }

  function Flatten(g: seq<seq<Cell>>): seq<Cell> {
    if |g| == 0 then [] else g[0] + Flatten(g[1..])
  }

  /** Reading the grid column by column visits consecutive days. */
  lemma {:induction false} FlattenGridFrom(subs: seq<Submission>, w: Window, first: int, weeks: nat)
    ensures Flatten(GridFrom(subs, w, first, weeks)) == Cells(subs, w, first, 7 * weeks)
    decreases weeks
  {
    if weeks > 0 {
      var g := GridFrom(subs, w, first, weeks);
      assert g[1..] == GridFrom(subs, w, first + 7, weeks - 1);
      FlattenGridFrom(subs, w, first + 7, weeks - 1);
      CellsSplit(subs, w, first, 7, 7 * (weeks - 1));
    }
  }

  function IsInRangeCell(): Cell -> bool {
    (c: Cell) => c.count >= 0
  }

  /** The in-range cells, in day order (`flatDayData`). */
  function Flat(g: seq<seq<Cell>>): seq<Cell> {
    Seqs.Filter(IsInRangeCell(), Flatten(g))
  }

  /** The cells of the window's days, in order. */
  function WindowCells(subs: seq<Submission>, w: Window): (cs: seq<Cell>)
    requires w.startDay <= w.endDay
    ensures |cs| == w.endDay - w.startDay + 1
    ensures forall j :: 0 <= j < |cs| ==> cs[j] == DayCell(subs, w.startDay + j)
  {
    seq(w.endDay - w.startDay + 1, j requires 0 <= j <= w.endDay - w.startDay => DayCell(subs, w.startDay + j))
  }

  /** Consecutive runs of cells concatenate. */
  lemma CellsSplit(subs: seq<Submission>, w: Window, from: int, a: nat, b: nat)
    ensures Cells(subs, w, from, a + b) == Cells(subs, w, from, a) + Cells(subs, w, from + a, b)
  {
  }

  /** Cells outside the window are all dropped by the in-range filter. */
  lemma FilterOutside(subs: seq<Submission>, w: Window, from: int, n: nat)
    requires from + n <= w.startDay || w.endDay < from
    ensures Seqs.Filter(IsInRangeCell(), Cells(subs, w, from, n)) == []
  {
    Seqs.FilterDropsAll(IsInRangeCell(), Cells(subs, w, from, n));
  }

  /** The cells of the window's days are all kept and are the window cells. */
  lemma FilterInside(subs: seq<Submission>, w: Window)
    requires w.startDay <= w.endDay
    ensures Seqs.Filter(IsInRangeCell(), Cells(subs, w, w.startDay, w.endDay - w.startDay + 1)) == WindowCells(subs, w)
  {
    var cs := Cells(subs, w, w.startDay, w.endDay - w.startDay + 1);
    assert cs == WindowCells(subs, w);
    Seqs.FilterKeepsAll(IsInRangeCell(), cs);
  }

  /** The grid's columns start no later than the window and end no earlier. */
  lemma GridCovers(w: Window)
    requires w.startDay <= w.endDay
    ensures WeekStart(w.startDay) <= w.startDay
    ensures w.endDay + 1 <= WeekStart(w.startDay) + 7 * Weeks(w)
  {
  }

  /** Dropping out-of-range cells from a run that covers the window leaves the window. */
  lemma FilterCovering(subs: seq<Submission>, w: Window, first: int, total: nat)
    requires w.startDay <= w.endDay
    requires first <= w.startDay && w.endDay + 1 <= first + total
    ensures Seqs.Filter(IsInRangeCell(), Cells(subs, w, first, total))
         == Seqs.Filter(IsInRangeCell(), Cells(subs, w, w.startDay, w.endDay - w.startDay + 1))
  {
    var lead, len := w.startDay - first, w.endDay - w.startDay + 1;
    var trail := total - lead - len;
    var before := Cells(subs, w, first, lead);
    var inside := Cells(subs, w, w.startDay, len);
    var after := Cells(subs, w, w.endDay + 1, trail);
    var rest := Cells(subs, w, w.startDay, len + trail);
    CellsSplit(subs, w, first, lead, len + trail);
    assert first + lead == w.startDay && lead + (len + trail) == total;
    assert Cells(subs, w, first, total) == before + rest;
    CellsSplit(subs, w, w.startDay, len, trail);
    assert w.startDay + len == w.endDay + 1;
    assert rest == inside + after;
    FilterOutside(subs, w, first, lead);
    FilterOutside(subs, w, w.endDay + 1, trail);
    Seqs.FilterMiddle(IsInRangeCell(), before, inside, after);
  }

  /** The in-range cells of the grid are exactly the window's days, once each, in order. */
  lemma FlatIsWindow(subs: seq<Submission>, w: Window)
    requires w.startDay <= w.endDay
    ensures Flat(Grid(subs, w)) == WindowCells(subs, w)
  {
    var first := WeekStart(w.startDay);
    var n := Weeks(w);
    GridCovers(w);
    FlattenGridFrom(subs, w, first, n);
    FilterCovering(subs, w, first, 7 * n);
    FilterInside(subs, w);
  }

  /** The figures under the heatmap. */
  datatype Summary = Summary(total: int, accepted: int, activeDays: nat, maxPerDay: int)

  function SumCount(cs: seq<Cell>): int {
    if |cs| == 0 then 0 else cs[0].count + SumCount(cs[1..])
  }

  function SumAccepted(cs: seq<Cell>): int {
    if |cs| == 0 then 0 else cs[0].accepted + SumAccepted(cs[1..])
  }

  function Counts(cs: seq<Cell>): (ns: seq<int>)
    ensures |ns| == |cs|
    ensures forall i :: 0 <= i < |cs| ==> ns[i] == cs[i].count
  {
    seq(|cs|, i requires 0 <= i < |cs| => cs[i].count)
  }

  function IsActiveDay(): Cell -> bool {
    (c: Cell) => c.count > 0
  }

  /** Totals, active days and `Math.max(...counts, 1)` over the in-range cells. */
  function Summarize(flat: seq<Cell>): (s: Summary)
    ensures s.total == SumCount(flat) && s.accepted == SumAccepted(flat)
    ensures s.maxPerDay >= 1
    ensures forall i :: 0 <= i < |flat| ==> flat[i].count <= s.maxPerDay
    ensures s.activeDays == Seqs.Count(IsActiveDay(), flat)
    // the maximum is attained: it is 1 or some day's count
    ensures s.maxPerDay == 1 || exists i :: 0 <= i < |flat| && flat[i].count == s.maxPerDay
  {
    var ns := Counts(flat) + [1];
    assert ns[|ns| - 1] == 1;
    assert forall i :: 0 <= i < |flat| ==> ns[i] == flat[i].count;
    var m := Seqs.Max(ns);
    var j :| 0 <= j < |ns| && ns[j] == m;
    assert j < |flat| ==> flat[j].count == m;
    Summary(SumCount(flat), SumAccepted(flat), Seqs.Count(IsActiveDay(), flat), Seqs.Max(ns))
  }

  function DayIn(lo: int, hi: int): Submission -> bool {
    (s: Submission) => lo <= DayOf(s.creationTimeSeconds) <= hi
  }

  /** Summing the day counts over consecutive days counts the submissions on those days. */
  lemma {:induction false} SumCountDays(subs: seq<Submission>, w: Window, from: int, n: nat)
    requires n >= 1 && w.startDay <= from && from + n - 1 <= w.endDay
    ensures SumCount(Cells(subs, w, from, n)) == Seqs.Count(DayIn(from, from + n - 1), subs)
    decreases n
  {
    var cs := Cells(subs, w, from, n);
    assert cs[0] == DayCell(subs, from);
    if n == 1 {
      Seqs.FilterCongruent(DayIn(from, from), OnDay(from), subs);
    } else {
      assert cs[1..] == Cells(subs, w, from + 1, n - 1);
      SumCountDays(subs, w, from + 1, n - 1);
      Seqs.CountDisjointUnion(OnDay(from), DayIn(from + 1, from + n - 1), DayIn(from, from + n - 1), subs);
    }
  }

  /** Accepted submissions made on day `d`. */
  function AcceptedOn(d: int): Submission -> bool {
    (s: Submission) => Accepted(s) && DayOf(s.creationTimeSeconds) == d
  }

  /** Accepted submissions made on the days `lo..hi`. */
  function AcceptedIn(lo: int, hi: int): Submission -> bool {
    (s: Submission) => Accepted(s) && lo <= DayOf(s.creationTimeSeconds) <= hi
  }

  /** A day cell's accepted figure counts that day's accepted submissions. */
  lemma DayCellAccepted(subs: seq<Submission>, d: int)
    ensures DayCell(subs, d).accepted == Seqs.Count(AcceptedOn(d), subs)
  {
    Seqs.FilterOfFilter(Accepted, OnDay(d), AcceptedOn(d), subs);
  }

  /** Summing the accepted figures over consecutive days counts the accepted submissions on
      those days. */
  lemma {:induction false} SumAcceptedDays(subs: seq<Submission>, w: Window, from: int, n: nat)
    requires n >= 1 && w.startDay <= from && from + n - 1 <= w.endDay
    ensures SumAccepted(Cells(subs, w, from, n)) == Seqs.Count(AcceptedIn(from, from + n - 1), subs)
    decreases n
  {
    var cs := Cells(subs, w, from, n);
    assert cs[0] == DayCell(subs, from);
    DayCellAccepted(subs, from);
    if n == 1 {
      Seqs.FilterCongruent(AcceptedIn(from, from), AcceptedOn(from), subs);
    } else {
      assert cs[1..] == Cells(subs, w, from + 1, n - 1);
      SumAcceptedDays(subs, w, from + 1, n - 1);
      Seqs.CountDisjointUnion(AcceptedOn(from), AcceptedIn(from + 1, from + n - 1), AcceptedIn(from, from + n - 1), subs);
    }
  }

  /** The summary's accepted figure counts the accepted submissions made on the window's days. */
  lemma WindowAccepted(subs: seq<Submission>, w: Window)
    requires w.startDay <= w.endDay
    ensures SumAccepted(WindowCells(subs, w)) == Seqs.Count(AcceptedIn(w.startDay, w.endDay), subs)
  {
    var len := w.endDay - w.startDay + 1;
    assert Cells(subs, w, w.startDay, len) == WindowCells(subs, w);
    SumAcceptedDays(subs, w, w.startDay, len);
  }

  /** Accepted never exceeds the total. */
  lemma {:induction false} AcceptedBounded(cs: seq<Cell>)
    requires forall i :: 0 <= i < |cs| ==> cs[i].accepted <= cs[i].count
    ensures SumAccepted(cs) <= SumCount(cs)
  {
    if |cs| > 0 {
      AcceptedBounded(cs[1..]);
    }
  }

  /** The summary's total counts the submissions made on the window's days. */
  lemma WindowTotal(subs: seq<Submission>, w: Window)
    requires w.startDay <= w.endDay
    ensures SumCount(WindowCells(subs, w)) == Seqs.Count(DayIn(w.startDay, w.endDay), subs)
  {
    var len := w.endDay - w.startDay + 1;
    assert Cells(subs, w, w.startDay, len) == WindowCells(subs, w);
    SumCountDays(subs, w, w.startDay, len);
  }

  /** Every window day's count is within the summary's maximum. */
  lemma WindowMax(subs: seq<Submission>, w: Window, d: int)
    requires w.startDay <= w.endDay && InRange(d, w)
    ensures Seqs.Count(OnDay(d), subs) <= Summarize(WindowCells(subs, w)).maxPerDay
  {
    var cs := WindowCells(subs, w);
    assert cs[d - w.startDay] == DayCell(subs, d);
  }

  /** The summary of the window's cells counts what happened on the window's days. */
  lemma WindowSummary(subs: seq<Submission>, w: Window)
    requires w.startDay <= w.endDay
    ensures var s := Summarize(WindowCells(subs, w));
      && s.total == Seqs.Count(DayIn(w.startDay, w.endDay), subs)
      && s.accepted == Seqs.Count(AcceptedIn(w.startDay, w.endDay), subs)
      && s.accepted <= s.total
      && forall d :: InRange(d, w) ==> Seqs.Count(OnDay(d), subs) <= s.maxPerDay
  {
    WindowTotal(subs, w);
    WindowAccepted(subs, w);
    AcceptedBounded(WindowCells(subs, w));
    forall d | InRange(d, w) ensures Seqs.Count(OnDay(d), subs) <= Summarize(WindowCells(subs, w)).maxPerDay {
      WindowMax(subs, w, d);
    }
  }

  /** The heatmap for `filterDays` days ending at `nowMs`: the grid and its summary. */
  function HeatmapView(subs: seq<Submission>, nowMs: int, filterDays: int): (r: (seq<seq<Cell>>, Summary))
    requires filterDays >= 1
    // the total counts only the submissions made on the window's days
    ensures var w := WindowOf(nowMs, filterDays);
      r.1.total == Seqs.Count(DayIn(w.startDay, w.endDay), subs)
    ensures var w := WindowOf(nowMs, filterDays);
      r.1.accepted == Seqs.Count(AcceptedIn(w.startDay, w.endDay), subs)
    ensures r.1.accepted <= r.1.total
    ensures r.1.maxPerDay >= 1
    ensures var w := WindowOf(nowMs, filterDays);
      forall d :: InRange(d, w) ==> Seqs.Count(OnDay(d), subs) <= r.1.maxPerDay
    ensures var w := WindowOf(nowMs, filterDays);
      r.1.activeDays == Seqs.Count(IsActiveDay(), WindowCells(subs, w))
  {
    var w := WindowOf(nowMs, filterDays);
    FlatIsWindow(subs, w);
    WindowSummary(subs, w);
    var g := Grid(subs, w);
    (g, Summarize(Flat(g)))
  }

  /** The in-range cells of the source's grid are the cells of the shown days: none when
      the shown days are empty (one day, not built at midnight). */
  lemma FlatAsWritten(subs: seq<Submission>, nowMs: int, filterDays: int)
    requires filterDays >= 1
    ensures var v := ShownWindow(nowMs, filterDays);
      && (v.startDay <= v.endDay ==> Flat(GridAsWritten(subs, nowMs, filterDays)) == WindowCells(subs, v))
      && (v.startDay > v.endDay ==> Flat(GridAsWritten(subs, nowMs, filterDays)) == [])
  {
    var w := WindowOf(nowMs, filterDays);
    var v := ShownWindow(nowMs, filterDays);
    var first, n := WeekStart(w.startDay), Weeks(w) + 1;
    GridAsWrittenIsShownGrid(subs, nowMs, filterDays);
    FlattenGridFrom(subs, v, first, n);
    GridCovers(w);
    var cs := Cells(subs, v, first, 7 * n);
    if v.startDay <= v.endDay {
      FilterCovering(subs, v, first, 7 * n);
      FilterInside(subs, v);
    } else {
      Seqs.FilterDropsAll(IsInRangeCell(), cs);
    }
  }

  /** The submissions on the shown days, as the as-written view's total counts them. */
  lemma AsWrittenTotal(subs: seq<Submission>, nowMs: int, filterDays: int)
    requires filterDays >= 1
    ensures var v := ShownWindow(nowMs, filterDays);
      SumCount(Flat(GridAsWritten(subs, nowMs, filterDays))) == Seqs.Count(DayIn(v.startDay, v.endDay), subs)
  {
    var v := ShownWindow(nowMs, filterDays);
    FlatAsWritten(subs, nowMs, filterDays);
    if v.startDay <= v.endDay {
      WindowTotal(subs, v);
    } else {
      Seqs.FilterDropsAll(DayIn(v.startDay, v.endDay), subs);
    }
  }

  /** The heatmap as the source builds it: its total leaves out the window's first day unless
      the page is built exactly at midnight. */
  function HeatmapViewAsWritten(subs: seq<Submission>, nowMs: int, filterDays: int): (r: (seq<seq<Cell>>, Summary))
    requires filterDays >= 1
    ensures |r.0| == Weeks(WindowOf(nowMs, filterDays)) + 1
    ensures var w := WindowOf(nowMs, filterDays);
      nowMs % DayMillis != 0 ==> r.1.total == Seqs.Count(DayIn(w.startDay + 1, w.endDay), subs)
    ensures var w := WindowOf(nowMs, filterDays);
      nowMs % DayMillis == 0 ==> r.1.total == Seqs.Count(DayIn(w.startDay, w.endDay), subs)
    ensures var v := ShownWindow(nowMs, filterDays);
      r.1.accepted == Seqs.Count(AcceptedIn(v.startDay, v.endDay), subs)
    ensures r.1.accepted <= r.1.total
    ensures r.1.maxPerDay >= 1
    ensures var v := ShownWindow(nowMs, filterDays);
      forall d :: InRange(d, v) ==> Seqs.Count(OnDay(d), subs) <= r.1.maxPerDay
  {
    AsWrittenTotal(subs, nowMs, filterDays);
    AsWrittenSummary(subs, nowMs, filterDays);
    var g := GridAsWritten(subs, nowMs, filterDays);
    (g, Summarize(Flat(g)))
  }

  /** The source grid's summary keeps the accepted count within the total and bounds every
      shown day's count by its maximum. */
  lemma AsWrittenSummary(subs: seq<Submission>, nowMs: int, filterDays: int)
    requires filterDays >= 1
    ensures var s := Summarize(Flat(GridAsWritten(subs, nowMs, filterDays)));
      var v := ShownWindow(nowMs, filterDays);
      && s.accepted == Seqs.Count(AcceptedIn(v.startDay, v.endDay), subs)
      && s.accepted <= s.total
      && forall d :: InRange(d, v) ==> Seqs.Count(OnDay(d), subs) <= s.maxPerDay
  {
    FlatAsWritten(subs, nowMs, filterDays);
    var v := ShownWindow(nowMs, filterDays);
    if v.startDay <= v.endDay {
      WindowSummary(subs, v);
    } else {
      Seqs.FilterDropsAll(AcceptedIn(v.startDay, v.endDay), subs);
    }
  }

  /** Off midnight, the source's total falls short of the intended one by exactly the
      submissions of the window's first day. */
  lemma AsWrittenMissesStartDay(subs: seq<Submission>, nowMs: int, filterDays: int)
    requires filterDays >= 1 && nowMs % DayMillis != 0
    ensures var w := WindowOf(nowMs, filterDays);
      HeatmapView(subs, nowMs, filterDays).1.total
        == HeatmapViewAsWritten(subs, nowMs, filterDays).1.total + Seqs.Count(OnDay(w.startDay), subs)
  {
    var w := WindowOf(nowMs, filterDays);
    var intended := HeatmapView(subs, nowMs, filterDays).1.total;
    var asWritten := HeatmapViewAsWritten(subs, nowMs, filterDays).1.total;
    assert intended == Seqs.Count(DayIn(w.startDay, w.endDay), subs);
    assert asWritten == Seqs.Count(DayIn(w.startDay + 1, w.endDay), subs);
    forall i | 0 <= i < |subs|
      ensures DayIn(w.startDay, w.endDay)(subs[i])
        <==> OnDay(w.startDay)(subs[i]) || DayIn(w.startDay + 1, w.endDay)(subs[i])
      ensures !(OnDay(w.startDay)(subs[i]) && DayIn(w.startDay + 1, w.endDay)(subs[i]))
    {
    }
    Seqs.CountDisjointUnion(OnDay(w.startDay), DayIn(w.startDay + 1, w.endDay), DayIn(w.startDay, w.endDay), subs);
  }

  /** A concrete case: one submission at noon of day 4, a 7-day heatmap built one
      millisecond after midnight of day 10. The intended total is 1; the source shows 0. */
  lemma StartDaySubmissionLostExample()
    ensures var s := Submission(1, 1, 4 * 86400 + 43200, Problem(1, "A", "A", None), "OK");
      && HeatmapView([s], 10 * DayMillis + 1, 7).1.total == 1
      && HeatmapViewAsWritten([s], 10 * DayMillis + 1, 7).1.total == 0
  {
    var s := Submission(1, 1, 4 * 86400 + 43200, Problem(1, "A", "A", None), "OK");
    var nowMs := 10 * DayMillis + 1;
    assert WindowOf(nowMs, 7) == Window(4, 10);
    assert nowMs % DayMillis != 0;
    assert DayOf(s.creationTimeSeconds) == 4;
    assert Seqs.Filter(DayIn(4, 10), [s]) == [s] by {
      assert [s][1..] == [];
    }
    assert Seqs.Filter(DayIn(5, 10), [s]) == [] by {
      assert [s][1..] == [];
    }
    var intended := HeatmapView([s], nowMs, 7);
    assert intended.1.total == Seqs.Count(DayIn(4, 10), [s]);
    var written := HeatmapViewAsWritten([s], nowMs, 7);
    assert written.1.total == Seqs.Count(DayIn(5, 10), [s]);
  }

  /** The hover list: at most three submissions, and a "+n more" line for the rest. */
  datatype Tooltip = Tooltip(shown: seq<Submission>, more: Option<nat>)

  function TooltipOf(c: Cell): (t: Tooltip)
    ensures |t.shown| <= 3 && |t.shown| <= |c.submissions| && t.shown == c.submissions[..|t.shown|]
    ensures t.more.Some? <==> |c.submissions| > 3
    ensures |t.shown| + t.more.GetOr(0) == |c.submissions|
  {
    var n := |c.submissions|;
    Tooltip(c.submissions[..if n < 3 then n else 3], if n > 3 then Some(n - 3) else None)
  }
}
