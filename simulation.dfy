/**
 * The simulation behind the growth table and chart. Every column starts from the same
 * amount. On each weekday each column's running total is multiplied by that column's
 * daily multiplier. A Saturday or a Sunday leaves the totals alone: its table row shows
 * `--` in every column and it adds no chart point.
 */
module Simulation {
  import opened JsNumber
  import opened Growths

  /**
   * What the simulation takes from outside the model:
   * - the weekday of the first simulated day, numbered as `Date.prototype.getDay` does
   *   (0 is Sunday, 6 is Saturday);
   * - `formatDate` of day `i`;
   * - `formatUSD`;
   * - `toFixed(0)`;
   * - the value returned by the `k`-th call of `Math.random()`, counting from 0.
   */
  datatype Env = Env(
    startWeekday: nat,
    date: nat -> string,
    usd: Num -> string,
    fixed0: Num -> string,
    random: nat -> real)

  /** `Math.random()` returns values in [0, 1). */
  ghost predicate RandomInUnitInterval(env: Env)
  {
    forall k: nat :: 0.0 <= env.random(k) < 1.0
  }

  /** Weekday number `day`, as `getDay` numbers them, is a Sunday or a Saturday. */
  predicate WeekendNumber(day: nat)
  {
    day == 0 || day == 6
  }

  /** Day `i` (day 0 is the first) falls on a Sunday or a Saturday. */
  predicate IsWeekend(env: Env, i: nat)
  {
    WeekendNumber((env.startWeekday + i) % 7)
  }

  /** The number of days `0, 1, 2, ...` that are less than `duration`: how often the loop runs. */
  function Days(duration: real): nat
  {
    if duration <= 0.0 then 0
    else if duration.Floor as real == duration then duration.Floor
    else duration.Floor + 1
  }

  /** The multiplier of one spec for one day, given the random draw `r`. */
  function Factor(g: Growth, r: real): Num
  {
    match g
    case Fixed(rate) => rate
    case Range(min, max) => Finite(min + r * (max - min))
  }

  /** The running totals, one per spec, and how many random draws have been made so far. */
  datatype State = State(totals: seq<Num>, draws: nat)

  /**
   * The first `t` totals after one day's update, which `forEach` makes left to right.
   * Only a range draws a random number, so the draw count grows by one per range.
   */
  function StepPrefix(random: nat -> real, growths: seq<Growth>, totals: seq<Num>, draws: nat, t: nat): (s: State)
    requires t <= |growths| == |totals|
    ensures |s.totals| == t
  {
    if t == 0 then State([], draws)
    else
      var p := StepPrefix(random, growths, totals, draws, t - 1);
      var g := growths[t - 1];
      State(p.totals + [Mul(totals[t - 1], Factor(g, random(p.draws)))],
            if g.Range? then p.draws + 1 else p.draws)
  }

  /** One weekday's update of all totals. */
  function Step(random: nat -> real, growths: seq<Growth>, totals: seq<Num>, draws: nat): (s: State)
    requires |growths| == |totals|
    ensures |s.totals| == |totals|
  {
    StepPrefix(random, growths, totals, draws, |growths|)
  }

  /** The state after the first `k` days; every total starts at `start`. */
  function Run(env: Env, start: real, growths: seq<Growth>, k: nat): (s: State)
    ensures |s.totals| == |growths|
  {
    if k == 0 then State(seq(|growths|, _ => Finite(start)), 0)
    else
      var s := Run(env, start, growths, k - 1);
      if IsWeekend(env, k - 1) then s else Step(env.random, growths, s.totals, s.draws)
  }

  /** The column labels: `formatGrowth` of each spec. */
  function Labels(env: Env, growths: seq<Growth>): seq<string>
  {
    Map((g: Growth) => FormatGrowth(env.fixed0, g), growths)
  }

  /** The header row of the table. */
  function Header(env: Env, growths: seq<Growth>): seq<string>
  {
    ["Date"] + Labels(env, growths)
  }

  /** The table row of day `i`: its date, then `--` on a weekend or each total in dollars. */
  function Row(env: Env, start: real, growths: seq<Growth>, i: nat): seq<string>
  {
    if IsWeekend(env, i) then [env.date(i)] + seq(|growths|, _ => "--")
    else [env.date(i)] + Map(env.usd, Run(env, start, growths, i + 1).totals)
  }

  /** The table after `k` days: the header, then one row per day. */
  function Table(env: Env, start: real, growths: seq<Growth>, k: nat): seq<seq<string>>
  {
    if k == 0 then [Header(env, growths)]
    else Table(env, start, growths, k - 1) + [Row(env, start, growths, k - 1)]
  }

  /**
   * The chart point the `reduce` builds from the first `j` totals. Each step sets `date`
   * and then the column's label to the total rounded by `toFixed(0)`, so a later spec with
   * the same label overwrites an earlier one.
   */
  function Point(fixed0: Num -> string, growths: seq<Growth>, date: string, totals: seq<Num>, j: nat): map<string, string>
    requires j <= |totals| == |growths|
  {
    if j == 0 then map[]
    else
      Point(fixed0, growths, date, totals, j - 1)["date" := date]
        [FormatGrowth(fixed0, growths[j - 1]) := fixed0(totals[j - 1])]
  }

  /** The chart after `k` days: one point per weekday. */
  function Chart(env: Env, start: real, growths: seq<Growth>, k: nat): seq<map<string, string>>
  {
    if k == 0 then []
    else
      var c := Chart(env, start, growths, k - 1);
      if IsWeekend(env, k - 1) then c
      else c + [Point(env.fixed0, growths, env.date(k - 1), Run(env, start, growths, k).totals, |growths|)]
  }

  /** The number of weekdays among the first `k` days. */
  function Weekdays(env: Env, k: nat): nat
  {
    if k == 0 then 0
    else Weekdays(env, k - 1) + (if IsWeekend(env, k - 1) then 0 else 1)
  }

  /** The number of range specs: the random draws made per weekday. */
  function Ranges(growths: seq<Growth>): nat
  {
    if growths == [] then 0
    else Ranges(growths[..|growths| - 1]) + (if growths[|growths| - 1].Range? then 1 else 0)
  }

  /** `x` to the power `n`. */
  function Pow(x: real, n: nat): real
  {
    if n == 0 then 1.0 else Pow(x, n - 1) * x
  }

  /**
   * `generateData`: the table and the chart after `duration` days, starting from `start`
   * in every column. The totals live in an array that each weekday updates in place.
   */
  method GenerateData(env: Env, start: real, growths: seq<Growth>, duration: real)
    returns (tableData: seq<seq<string>>, chartData: seq<map<string, string>>)
    ensures tableData == Table(env, start, growths, Days(duration))
    ensures chartData == Chart(env, start, growths, Days(duration))
  {
    var n := |growths|;
    var totals := new Num[n](_ => Finite(start));
    assert totals[..] == Run(env, start, growths, 0).totals;
    var draws := 0;
    tableData := [Header(env, growths)];
    chartData := [];
    var i := 0;
    while (i as real) < duration
      invariant i <= Days(duration)
      invariant totals[..] == Run(env, start, growths, i).totals
      invariant draws == Run(env, start, growths, i).draws
      invariant tableData == Table(env, start, growths, i)
      invariant chartData == Chart(env, start, growths, i)
      decreases Days(duration) - i
    {
      DaysCount(duration, i);
      if IsWeekend(env, i) {
        tableData := tableData + [[env.date(i)] + seq(n, _ => "--")];
        i := i + 1;
        continue;
      }
      draws := MultiplyTotals(env.random, growths, totals, draws);
      tableData := tableData + [[env.date(i)] + Map(env.usd, totals[..])];
      chartData := chartData + [Point(env.fixed0, growths, env.date(i), totals[..], n)];
      i := i + 1;
    }
    DaysCount(duration, i);
  }

  /** The `forEach` that multiplies each total by its spec's multiplier for the day. */
  method MultiplyTotals(random: nat -> real, growths: seq<Growth>, totals: array<Num>, draws: nat)
    returns (drawsAfter: nat)
    requires totals.Length == |growths|
    modifies totals
    ensures totals[..] == Step(random, growths, old(totals[..]), draws).totals
    ensures drawsAfter == Step(random, growths, old(totals[..]), draws).draws
  {
    ghost var before := totals[..];
    drawsAfter := draws;
    var t := 0;
    while t < totals.Length
      invariant t <= totals.Length
      invariant totals[..t] == StepPrefix(random, growths, before, draws, t).totals
      invariant totals[t..] == before[t..]
      invariant drawsAfter == StepPrefix(random, growths, before, draws, t).draws
    {
      assert totals[t] == before[t] by {
        assert totals[t..][0] == before[t..][0];
      }
      ghost var p := StepPrefix(random, growths, before, draws, t);
      var factor: Num;
      match growths[t] {
        case Range(min, max) =>
          factor := Finite(min + random(drawsAfter) * (max - min));
          assert factor == Factor(growths[t], random(p.draws));
          drawsAfter := drawsAfter + 1;
        case Fixed(rate) =>
          factor := rate;
      }
      totals[t] := Mul(totals[t], factor);
      assert totals[..t + 1] == totals[..t] + [totals[t]];
      t := t + 1;
    }
    assert totals[..] == totals[..t];
  }

  /** The loop `for (i = 0; i < duration; i++)` runs exactly for `i < Days(duration)`. */
  lemma DaysCount(duration: real, i: nat)
    ensures i < Days(duration) <==> (i as real) < duration
  {
  }

  // The shape of the table.

  /** The table has a header and one row per day, and every row has a cell per spec plus the date. */
  lemma {:induction false} TableShape(env: Env, start: real, growths: seq<Growth>, k: nat)
    ensures |Table(env, start, growths, k)| == k + 1
    ensures forall r :: 0 <= r < |Table(env, start, growths, k)| ==>
      |Table(env, start, growths, k)[r]| == |growths| + 1
  {
    if k > 0 {
      TableShape(env, start, growths, k - 1);
    }
  }

  /** Rows are only ever appended: after `k` days, row `i + 1` is still day `i`'s row. */
  lemma {:induction false} TableRows(env: Env, start: real, growths: seq<Growth>, k: nat, i: nat)
    requires i < k
    ensures |Table(env, start, growths, k)| == k + 1
    ensures Table(env, start, growths, k)[0] == Header(env, growths)
    ensures Table(env, start, growths, k)[i + 1] == Row(env, start, growths, i)
  {
    TableShape(env, start, growths, k);
    if i < k - 1 {
      TableRows(env, start, growths, k - 1, i);
    } else if k > 1 {
      TableRows(env, start, growths, k - 1, 0);
    }
  }

  /** The header is `Date` followed by the label of each spec. */
  lemma HeaderCells(env: Env, growths: seq<Growth>, c: nat)
    requires c < |growths|
    ensures |Header(env, growths)| == |growths| + 1 && Header(env, growths)[0] == "Date"
    ensures Header(env, growths)[c + 1] == FormatGrowth(env.fixed0, growths[c])
  {
    MapIndex((g: Growth) => FormatGrowth(env.fixed0, g), growths, c);
  }

  /**
   * On a weekend day every cell after the date is `--`, the totals are left as they were
   * and no chart point is added.
   */
  lemma {:induction false} WeekendDay(env: Env, start: real, growths: seq<Growth>, k: nat, i: nat, c: nat)
    requires i < k && IsWeekend(env, i) && c < |growths|
    ensures |Table(env, start, growths, k)| == k + 1
    ensures |Table(env, start, growths, k)[i + 1]| == |growths| + 1
    ensures Table(env, start, growths, k)[i + 1][0] == env.date(i)
    ensures Table(env, start, growths, k)[i + 1][c + 1] == "--"
    ensures Run(env, start, growths, i + 1) == Run(env, start, growths, i)
    ensures Chart(env, start, growths, i + 1) == Chart(env, start, growths, i)
  {
    TableRows(env, start, growths, k, i);
  }

  /**
   * On a weekday the cells after the date are the new totals in dollars, and the chart
   * gains the point of that day's date and those totals.
   */
  lemma {:induction false} WeekdayRow(env: Env, start: real, growths: seq<Growth>, k: nat, i: nat, c: nat)
    requires i < k && !IsWeekend(env, i) && c < |growths|
    ensures |Table(env, start, growths, k)| == k + 1
    ensures |Table(env, start, growths, k)[i + 1]| == |growths| + 1
    ensures Table(env, start, growths, k)[i + 1][0] == env.date(i)
    ensures Table(env, start, growths, k)[i + 1][c + 1] == env.usd(Run(env, start, growths, i + 1).totals[c])
    ensures Chart(env, start, growths, i + 1) == Chart(env, start, growths, i)
      + [Point(env.fixed0, growths, env.date(i), Run(env, start, growths, i + 1).totals, |growths|)]
  {
    TableRows(env, start, growths, k, i);
    MapIndex(env.usd, Run(env, start, growths, i + 1).totals, c);
  }

  // Weekdays and the chart.

  /** The chart has one point per weekday, so never more points than days. */
  lemma {:induction false} ChartLength(env: Env, start: real, growths: seq<Growth>, k: nat)
    ensures |Chart(env, start, growths, k)| == Weekdays(env, k)
    ensures Weekdays(env, k) <= k
  {
    if k > 0 {
      ChartLength(env, start, growths, k - 1);
    }
  }

  /** Every run of seven days holds exactly five weekdays. */
  lemma {:induction false} WeekdaysWeek(env: Env, k: nat)
    ensures Weekdays(env, k + 7) == Weekdays(env, k) + 5
  {
    var w := (env.startWeekday + k) % 7;
    WeekdayStep(env, k, 0);
    WeekdayStep(env, k, 1);
    WeekdayStep(env, k, 2);
    WeekdayStep(env, k, 3);
    WeekdayStep(env, k, 4);
    WeekdayStep(env, k, 5);
    WeekdayStep(env, k, 6);
    WeekSum(w);
  }

  /** 1 when weekday number `(w + j) % 7` is a weekday, 0 when it is a Sunday or a Saturday. */
  function IsWorkday(w: nat, j: nat): nat
  {
    if WeekendNumber((w + j) % 7) then 0 else 1
  }

  /** Seven consecutive weekday numbers, from any start, hold five workdays. */
  lemma WeekSum(w: nat)
    requires w < 7
    ensures IsWorkday(w, 0) + IsWorkday(w, 1) + IsWorkday(w, 2) + IsWorkday(w, 3)
      + IsWorkday(w, 4) + IsWorkday(w, 5) + IsWorkday(w, 6) == 5
  {
  }

  /** Day `k + j` is a weekday unless its weekday number, counted on from day `k`'s, is 0 or 6. */
  lemma WeekdayStep(env: Env, k: nat, j: nat)
    ensures Weekdays(env, k + j + 1) == Weekdays(env, k + j) + IsWorkday((env.startWeekday + k) % 7, j)
  {
    var a := env.startWeekday + k;
    ModShift(a, j);
    assert (env.startWeekday + (k + j)) % 7 == ((a % 7) + j) % 7;
  }

  /** Counting on `j` days from weekday number `a % 7` reaches the weekday number of `a + j`. */
  lemma ModShift(a: nat, j: nat)
    ensures (a % 7 + j) % 7 == (a + j) % 7
  {
    assert a + j == 7 * (a / 7) + (a % 7 + j);
  }

  // One day's update.

  /** Totals already updated stay as they are while the `forEach` goes on to later ones. */
  lemma {:induction false} StepPrefixIndex(random: nat -> real, growths: seq<Growth>, totals: seq<Num>, draws: nat, j: nat, t: nat)
    requires t < j <= |growths| == |totals|
    ensures StepPrefix(random, growths, totals, draws, j).totals[t]
      == Mul(totals[t], Factor(growths[t], random(StepPrefix(random, growths, totals, draws, t).draws)))
  {
    if j > t + 1 {
      StepPrefixIndex(random, growths, totals, draws, j - 1, t);
    }
  }

  /** The `forEach` draws once per range it has passed. */
  lemma {:induction false} StepPrefixDraws(random: nat -> real, growths: seq<Growth>, totals: seq<Num>, draws: nat, t: nat)
    requires t <= |growths| == |totals|
    ensures StepPrefix(random, growths, totals, draws, t).draws == draws + Ranges(growths[..t])
  {
    if t > 0 {
      StepPrefixDraws(random, growths, totals, draws, t - 1);
      assert growths[..t][..t - 1] == growths[..t - 1];
    }
  }

  /**
   * On a weekday total `t` is multiplied by its spec's multiplier: the fixed rate itself,
   * or `min + r * (max - min)` for the draw made after one per range to its left.
   */
  lemma StepTotal(random: nat -> real, growths: seq<Growth>, totals: seq<Num>, draws: nat, t: nat)
    requires t < |growths| == |totals|
    ensures Step(random, growths, totals, draws).totals[t]
      == Mul(totals[t], Factor(growths[t], random(draws + Ranges(growths[..t]))))
    ensures Step(random, growths, totals, draws).draws == draws + Ranges(growths)
  {
    StepPrefixIndex(random, growths, totals, draws, |growths|, t);
    StepPrefixDraws(random, growths, totals, draws, t);
    StepPrefixDraws(random, growths, totals, draws, |growths|);
    assert growths[..|growths|] == growths;
  }

  /** A fixed spec multiplies its total by exactly its rate. */
  lemma FixedStep(random: nat -> real, growths: seq<Growth>, totals: seq<Num>, draws: nat, t: nat)
    requires t < |growths| == |totals| && growths[t].Fixed?
    ensures Step(random, growths, totals, draws).totals[t] == Mul(totals[t], growths[t].rate)
  {
    StepTotal(random, growths, totals, draws, t);
  }

  /** `r * d` lies between 0 and `d` for `r` in [0, 1), strictly short of a non-zero `d`. */
  lemma ScaleBetween(r: real, d: real) returns (x: real)
    requires 0.0 <= r < 1.0
    ensures x == r * d
    ensures d >= 0.0 ==> 0.0 <= x <= d && (d > 0.0 ==> x < d)
    ensures d <= 0.0 ==> d <= x <= 0.0 && (d < 0.0 ==> d < x)
  {
    x := r * d;
    var e := if d < 0.0 then -d else d;
    ProductSigns(r, e);
    ProductSigns(1.0 - r, e);
    if d < 0.0 {
      assert x == -(r * e);
      assert d - x == -((1.0 - r) * e);
    } else {
      assert d - x == (1.0 - r) * e;
    }
  }

  /** The product of non-negatives is non-negative, and of positives positive. */
  lemma ProductSigns(a: real, b: real)
    requires a >= 0.0 && b >= 0.0
    ensures a * b >= 0.0
    ensures a > 0.0 && b > 0.0 ==> a * b > 0.0
  {
  }

  /**
   * `f` lies between `a` and `b`, whichever is larger: from `a` inclusive towards `b`
   * exclusive (exactly `a` when the two are equal).
   */
  predicate Between(f: real, a: real, b: real)
  {
    && (a <= b ==> a <= f <= b && (a < b ==> f < b))
    && (b <= a ==> b <= f <= a && (b < a ==> b < f))
  }

  /** The multiplier of a range lies between its bounds, whichever is larger. */
  lemma RangeFactorBetween(min: real, max: real, r: real)
    requires 0.0 <= r < 1.0
    ensures Factor(Range(min, max), r).Finite?
    ensures Between(Factor(Range(min, max), r).value, min, max)
  {
    var x := ScaleBetween(r, max - min);
  }

  /**
   * On a weekday, a range column's running total is multiplied by a factor between the
   * range's bounds, whichever random numbers `Math.random()` returns.
   */
  lemma RangeDayBetween(env: Env, start: real, growths: seq<Growth>, k: nat, t: nat)
    requires RandomInUnitInterval(env)
    requires 0 < k && t < |growths| && growths[t].Range? && !IsWeekend(env, k - 1)
    ensures exists f ::
      && Between(f, growths[t].min, growths[t].max)
      && Run(env, start, growths, k).totals[t] == Mul(Run(env, start, growths, k - 1).totals[t], Finite(f))
  {
    var s := Run(env, start, growths, k - 1);
    RunDay(env, start, growths, k, t);
    var r := env.random(s.draws + Ranges(growths[..t]));
    RangeFactorBetween(growths[t].min, growths[t].max, r);
    var f := Factor(growths[t], r).value;
    assert Between(f, growths[t].min, growths[t].max);
    assert Run(env, start, growths, k).totals[t] == Mul(s.totals[t], Finite(f));
  }

  // Whole runs.

  /** A list without ranges draws nothing. */
  lemma {:induction false} NoRanges(growths: seq<Growth>)
    requires forall t :: 0 <= t < |growths| ==> growths[t].Fixed?
    ensures Ranges(growths) == 0
  {
    if growths != [] {
      NoRanges(growths[..|growths| - 1]);
    }
  }

  /**
   * A column with a fixed, finite rate is deterministic, whatever the other columns are:
   * after `k` days its total is `start * g^w`, where `g` is its rate and `w` the number of
   * weekdays so far.
   */
  lemma FixedClosedForm(env: Env, start: real, growths: seq<Growth>, k: nat, t: nat, g: real)
    requires t < |growths| && growths[t] == Fixed(Finite(g))
    ensures Run(env, start, growths, k).totals[t] == Finite(start * Pow(g, Weekdays(env, k)))
  {
    ColumnCompound(env, start, growths, k, t, g);
    CompoundPow(start, g, Weekdays(env, k));
  }

  /** `start` multiplied by `g`, `w` times over. */
  function Compound(start: real, g: real, w: nat): real
  {
    if w == 0 then start else Compound(start, g, w - 1) * g
  }

  /** Multiplying `w` times by `g` is multiplying once by `g^w`. */
  lemma {:induction false} CompoundPow(start: real, g: real, w: nat)
    ensures Compound(start, g, w) == start * Pow(g, w)
  {
    if w > 0 {
      CompoundPow(start, g, w - 1);
      assert start * Pow(g, w) == start * (Pow(g, w - 1) * g);
    }
  }

  /** A fixed column has been multiplied by its rate once per weekday. */
  lemma {:induction false} ColumnCompound(env: Env, start: real, growths: seq<Growth>, k: nat, t: nat, g: real)
    requires t < |growths| && growths[t] == Fixed(Finite(g))
    ensures Run(env, start, growths, k).totals[t] == Finite(Compound(start, g, Weekdays(env, k)))
  {
    if k == 0 {
      assert Run(env, start, growths, 0).totals[t] == Finite(start);
    } else {
      ColumnCompound(env, start, growths, k - 1, t, g);
      FixedDay(env, start, growths, k, t, g);
    }
  }

  /** A fixed column's total changes only on a weekday, and then by exactly its rate. */
  lemma FixedDay(env: Env, start: real, growths: seq<Growth>, k: nat, t: nat, g: real)
    requires 0 < k && t < |growths| && growths[t] == Fixed(Finite(g))
    ensures var s := Run(env, start, growths, k - 1);
      && Weekdays(env, k) == Weekdays(env, k - 1) + (if IsWeekend(env, k - 1) then 0 else 1)
      && Run(env, start, growths, k).totals[t]
        == if IsWeekend(env, k - 1) then s.totals[t] else Mul(s.totals[t], Finite(g))
  {
    RunDay(env, start, growths, k, t);
  }

  /** Without range specs, `Math.random()` is never called. */
  lemma FixedNoDraws(env: Env, start: real, growths: seq<Growth>, k: nat)
    requires forall t :: 0 <= t < |growths| ==> growths[t].Fixed?
    ensures Run(env, start, growths, k).draws == 0
  {
    DrawCount(env, start, growths, k);
    NoRanges(growths);
  }

  /**
   * Day `k - 1` changes total `t` only on a weekday, by the spec's multiplier, and draws
   * once per range.
   */
  lemma RunDay(env: Env, start: real, growths: seq<Growth>, k: nat, t: nat)
    requires 0 < k && t < |growths|
    ensures var s := Run(env, start, growths, k - 1);
      && Weekdays(env, k) == Weekdays(env, k - 1) + (if IsWeekend(env, k - 1) then 0 else 1)
      && (IsWeekend(env, k - 1) ==> Run(env, start, growths, k) == s)
      && (!IsWeekend(env, k - 1) ==>
        && Run(env, start, growths, k).totals[t]
          == Mul(s.totals[t], Factor(growths[t], env.random(s.draws + Ranges(growths[..t]))))
        && Run(env, start, growths, k).draws == s.draws + Ranges(growths))
  {
    var s := Run(env, start, growths, k - 1);
    StepTotal(env.random, growths, s.totals, s.draws, t);
  }

  /** Without ranges a day's update never reads `Math.random()`. */
  lemma {:induction false} StepPrefixNoRandom(r1: nat -> real, r2: nat -> real, growths: seq<Growth>, totals: seq<Num>, draws: nat, t: nat)
    requires t <= |growths| == |totals|
    requires forall j :: 0 <= j < |growths| ==> growths[j].Fixed?
    ensures StepPrefix(r1, growths, totals, draws, t) == StepPrefix(r2, growths, totals, draws, t)
  {
    if t > 0 {
      StepPrefixNoRandom(r1, r2, growths, totals, draws, t - 1);
    }
  }

  /** Without ranges the totals are the same whatever `Math.random()` returns. */
  lemma {:induction false} FixedIgnoresRandom(env: Env, other: Env, start: real, growths: seq<Growth>, k: nat)
    requires other == env.(random := other.random)
    requires forall j :: 0 <= j < |growths| ==> growths[j].Fixed?
    ensures Run(env, start, growths, k) == Run(other, start, growths, k)
  {
    if k > 0 {
      FixedIgnoresRandom(env, other, start, growths, k - 1);
      var s := Run(env, start, growths, k - 1);
      StepPrefixNoRandom(env.random, other.random, growths, s.totals, s.draws, |growths|);
    }
  }

  /** Without ranges the table is the same whatever `Math.random()` returns. */
  lemma {:induction false} FixedTableIgnoresRandom(env: Env, other: Env, start: real, growths: seq<Growth>, k: nat)
    requires other == env.(random := other.random)
    requires forall j :: 0 <= j < |growths| ==> growths[j].Fixed?
    ensures Table(env, start, growths, k) == Table(other, start, growths, k)
  {
    if k > 0 {
      FixedTableIgnoresRandom(env, other, start, growths, k - 1);
      FixedIgnoresRandom(env, other, start, growths, k);
    }
  }

  /** Without ranges the chart is the same whatever `Math.random()` returns. */
  lemma {:induction false} FixedChartIgnoresRandom(env: Env, other: Env, start: real, growths: seq<Growth>, k: nat)
    requires other == env.(random := other.random)
    requires forall j :: 0 <= j < |growths| ==> growths[j].Fixed?
    ensures Chart(env, start, growths, k) == Chart(other, start, growths, k)
  {
    if k > 0 {
      FixedChartIgnoresRandom(env, other, start, growths, k - 1);
      FixedIgnoresRandom(env, other, start, growths, k);
    }
  }

  /** Each weekday draws one random number per range spec, and a weekend draws none. */
  lemma {:induction false} DrawCount(env: Env, start: real, growths: seq<Growth>, k: nat)
    ensures Run(env, start, growths, k).draws == Ranges(growths) * Weekdays(env, k)
  {
    if k > 0 {
      DrawCount(env, start, growths, k - 1);
      if growths == [] {
        assert Ranges(growths) == 0;
      } else {
        RunDay(env, start, growths, k, 0);
        MulStep(Ranges(growths), Weekdays(env, k - 1));
      }
    }
  }

  lemma MulStep(r: nat, w: nat)
    ensures r * (w + 1) == r * w + r
  {
  }

  /** A total that has become NaN stays NaN on every later day. */
  lemma {:induction false} NaNSticks(env: Env, start: real, growths: seq<Growth>, k: nat, m: nat, t: nat)
    requires k <= m && t < |growths| && Run(env, start, growths, k).totals[t] == NaN
    ensures Run(env, start, growths, m).totals[t] == NaN
  {
    if k < m {
      NaNSticks(env, start, growths, k, m - 1, t);
      if !IsWeekend(env, m - 1) {
        var s := Run(env, start, growths, m - 1);
        StepTotal(env.random, growths, s.totals, s.draws, t);
      }
    }
  }

  /** A spec that was not a number turns its column into NaN from the first weekday on. */
  lemma {:induction false} NaNRateColumn(env: Env, start: real, growths: seq<Growth>, k: nat, t: nat)
    requires t < |growths| && growths[t] == Fixed(NaN)
    ensures Run(env, start, growths, k).totals[t] == NaN <==> Weekdays(env, k) > 0
  {
    if k > 0 {
      NaNRateColumn(env, start, growths, k - 1, t);
      if !IsWeekend(env, k - 1) {
        var s := Run(env, start, growths, k - 1);
        StepTotal(env.random, growths, s.totals, s.draws, t);
      }
    }
  }

  // Chart points.

  /** Every label ends in `%`, so no label is the `date` key. */
  lemma LabelNotDate(fixed0: Num -> string, g: Growth)
    ensures FormatGrowth(fixed0, g) != "date"
  {
    var l := FormatGrowth(fixed0, g);
    assert l[|l| - 1] == '%';
    assert "date"[3] == 'e';
  }

  /**
   * A chart point has the key `date` (unless there are no specs at all) and one key per
   * label, and nothing else.
   */
  lemma {:induction false} PointKeys(fixed0: Num -> string, growths: seq<Growth>, date: string, totals: seq<Num>, j: nat, key: string)
    requires j <= |totals| == |growths|
    ensures key in Point(fixed0, growths, date, totals, j) <==>
      (j > 0 && key == "date") || exists t :: 0 <= t < j && key == FormatGrowth(fixed0, growths[t])
  {
    if j > 0 {
      PointKeys(fixed0, growths, date, totals, j - 1, key);
      var name := FormatGrowth(fixed0, growths[j - 1]);
      var m := Point(fixed0, growths, date, totals, j - 1);
      assert Point(fixed0, growths, date, totals, j) == m["date" := date][name := fixed0(totals[j - 1])];
      if key == name {
        assert 0 <= j - 1 < j && key == FormatGrowth(fixed0, growths[j - 1]);
      }
    }
  }

  /**
   * In a chart point `date` maps to the day's date, and each label maps to `toFixed(0)` of
   * the total of the last spec carrying that label.
   */
  lemma {:induction false} PointValues(fixed0: Num -> string, growths: seq<Growth>, date: string, totals: seq<Num>, j: nat, t: nat)
    requires t < j <= |totals| == |growths|
    requires forall u :: t < u < j ==> FormatGrowth(fixed0, growths[u]) != FormatGrowth(fixed0, growths[t])
    ensures "date" in Point(fixed0, growths, date, totals, j)
    ensures FormatGrowth(fixed0, growths[t]) in Point(fixed0, growths, date, totals, j)
    ensures Point(fixed0, growths, date, totals, j)["date"] == date
    ensures Point(fixed0, growths, date, totals, j)[FormatGrowth(fixed0, growths[t])] == fixed0(totals[t])
  {
    LabelNotDate(fixed0, growths[j - 1]);
    if t < j - 1 {
      PointValues(fixed0, growths, date, totals, j - 1, t);
    }
  }
}
