/**
 * The results table: the header row is shown as it is, and every other cell gets a CSS
 * class from comparing it with the cell in the same column of the row above it (the
 * first row is compared with itself).
 */
module ResultsTable {
  import opened Wrappers
  import opened JsString
  import opened JsNumber
  import opened Growths
  import opened Simulation

  /** The class a cell is given; `NoClass` is `undefined`, which sets no class. */
  datatype ClassName = Neutral | Positive | Negative | NoClass

  /** `s.startsWith("$")`. */
  predicate IsDollar(s: string)
  {
    |s| > 0 && s[0] == '$'
  }

  /** `s.replace(/[\$,]/g, "")`: the text with every dollar sign and comma removed. */
  function Strip(s: string): string
  {
    if s == [] then []
    else (if s[0] == '$' || s[0] == ',' then [] else [s[0]]) + Strip(s[1..])
  }

  /**
   * JavaScript `a < b` on strings: `a` is a proper prefix of `b`, or at the first
   * position where they differ `a` has the smaller character.
   */
  predicate LexLess(a: string, b: string)
  {
    if a == [] then b != []
    else if b == [] then false
    else a[0] < b[0] || (a[0] == b[0] && LexLess(a[1..], b[1..]))
  }

  /**
   * `getClassName(cell, prevCell)`, where `prevCell` is None when the row above has no
   * cell in that column. Two dollar amounts are compared as the strings left after
   * stripping `$` and `,`: `positive` unless the cell's string sorts before the previous one.
   */
  function ClassOf(cell: string, prev: Option<string>): ClassName
  {
    if cell == "--" then Neutral
    else if IsDollar(cell) && prev.Some? && prev.value != [] && IsDollar(prev.value) then
      if !LexLess(Strip(cell), Strip(prev.value)) then Positive else Negative
    else NoClass
  }

  /** `rows[Math.max(r - 1, 0)][c]`: the cell above, or the cell itself in the first row. */
  function PrevCell(rows: seq<seq<string>>, r: nat, c: nat): Option<string>
    requires r < |rows|
  {
    var above := rows[if r >= 1 then r - 1 else 0];
    if c < |above| then Some(above[c]) else None
  }

  /** A body cell: its text and its class. */
  datatype Cell = Cell(text: string, className: ClassName)

  /** What the component renders: the header cells, then the classified body rows. */
  datatype Rendered = Rendered(header: seq<string>, body: seq<seq<Cell>>)

  /** The component: nothing for no data, otherwise the first row as header and the rest as body. */
  function Render(data: seq<seq<string>>): Option<Rendered>
  {
    if |data| == 0 then None
    else
      var rows := data[1..];
      Some(Rendered(data[0], seq(|rows|, r requires 0 <= r < |rows| =>
        seq(|rows[r]|, c requires 0 <= c < |rows[r]| =>
          Cell(rows[r][c], ClassOf(rows[r][c], PrevCell(rows, r, c)))))))
  }

  // Stripping `$` and `,`.

  lemma {:induction false} StripAppend(a: string, b: string)
    ensures Strip(a + b) == Strip(a) + Strip(b)
  {
    if a == [] {
      assert a + b == b;
    } else {
      assert (a + b)[0] == a[0] && (a + b)[1..] == a[1..] + b;
      StripAppend(a[1..], b);
    }
  }

  /** No dollar sign or comma is left. */
  lemma {:induction false} StripRemoves(s: string)
    ensures forall i :: 0 <= i < |Strip(s)| ==> Strip(s)[i] != '$' && Strip(s)[i] != ','
  {
    if s != [] {
      StripRemoves(s[1..]);
    }
  }

  /** Every other character is kept as often as it occurs. */
  lemma {:induction false} StripKeeps(s: string, ch: char)
    requires ch != '$' && ch != ','
    ensures multiset(Strip(s))[ch] == multiset(s)[ch]
  {
    if s != [] {
      StripKeeps(s[1..], ch);
      assert s == [s[0]] + s[1..];
    }
  }

  /** Text without dollar signs and commas is left as it is, so the other characters keep their order. */
  lemma {:induction false} StripUnchanged(s: string)
    requires forall i :: 0 <= i < |s| ==> s[i] != '$' && s[i] != ','
    ensures Strip(s) == s
  {
    if s != [] {
      StripUnchanged(s[1..]);
    }
  }

  /** Stripping twice is stripping once. */
  lemma {:induction false} StripIdempotent(s: string)
    ensures Strip(Strip(s)) == Strip(s)
  {
    StripRemoves(s);
    StripUnchanged(Strip(s));
  }

  // The order of JavaScript strings.

  lemma {:induction false} LexLessIrreflexive(a: string)
    ensures !LexLess(a, a)
  {
    if a != [] {
      LexLessIrreflexive(a[1..]);
    }
  }

  lemma {:induction false} LexLessAsymmetric(a: string, b: string)
    ensures !(LexLess(a, b) && LexLess(b, a))
  {
    if a != [] && b != [] {
      LexLessAsymmetric(a[1..], b[1..]);
    }
  }

  lemma {:induction false} LexLessTransitive(a: string, b: string, c: string)
    requires LexLess(a, b) && LexLess(b, c)
    ensures LexLess(a, c)
  {
    if a != [] && a[0] == b[0] && b[0] == c[0] {
      LexLessTransitive(a[1..], b[1..], c[1..]);
    }
  }

  /** Of two different strings one sorts before the other. */
  lemma {:induction false} LexLessTotal(a: string, b: string)
    ensures a == b || LexLess(a, b) || LexLess(b, a)
  {
    if a != [] && b != [] && a[0] == b[0] {
      LexLessTotal(a[1..], b[1..]);
      if a[1..] == b[1..] {
        assert a == [a[0]] + a[1..] && b == [b[0]] + b[1..];
      }
    }
  }

  /** Strings of equal length compare by their fronts first, then by their last characters. */
  lemma {:induction false} LexLessSnoc(a: string, b: string, x: char, y: char)
    requires |a| == |b|
    ensures LexLess(a + [x], b + [y]) <==> LexLess(a, b) || (a == b && x < y)
  {
    if a == [] {
      assert a + [x] == [x] && b + [y] == [y];
    } else {
      assert (a + [x])[0] == a[0] && (a + [x])[1..] == a[1..] + [x];
      assert (b + [y])[0] == b[0] && (b + [y])[1..] == b[1..] + [y];
      LexLessSnoc(a[1..], b[1..], x, y);
      assert a == b <==> a[0] == b[0] && a[1..] == b[1..];
    }
  }

  /** For digit strings of the same length the string order is the order of their values. */
  lemma {:induction false} LexLessDigits(a: string, b: string)
    requires AllDigits(a) && AllDigits(b) && |a| == |b|
    ensures LexLess(a, b) <==> DigitsValue(a) < DigitsValue(b)
    decreases |a|
  {
    if a != [] {
      var n := |a| - 1;
      var a', b' := a[..n], b[..n];
      assert a == a' + [a[n]] && b == b' + [b[n]];
      assert AllDigits(a') && AllDigits(b') && IsDigit(a[n]) && IsDigit(b[n]);
      LexLessSnoc(a', b', a[n], b[n]);
      LexLessDigits(a', b');
      LexLessDigits(b', a');
      LexLessTotal(a', b');
      LexLessAsymmetric(a', b');
      var va, vb := DigitsValue(a'), DigitsValue(b');
      assert DigitsValue(a) == 10 * va + DigitValue(a[n]);
      assert DigitsValue(b) == 10 * vb + DigitValue(b[n]);
    }
  }

  // The class of a cell.

  /** A cell is neutral exactly when it is the weekend placeholder `--`. */
  lemma ClassOfNeutral(cell: string, prev: Option<string>)
    ensures ClassOf(cell, prev) == Neutral <==> cell == "--"
  {
  }

  /** A cell is compared exactly when it and the cell above are both dollar amounts. */
  lemma ClassOfCompared(cell: string, prev: Option<string>)
    ensures ClassOf(cell, prev).Positive? || ClassOf(cell, prev).Negative?
      <==> IsDollar(cell) && prev.Some? && IsDollar(prev.value)
  {
  }

  /** A cell below the placeholder `--` gets no class unless it is one itself. */
  lemma ClassOfAfterPlaceholder(cell: string)
    ensures ClassOf(cell, Some("--")) == if cell == "--" then Neutral else NoClass
  {
  }

  /** Amounts that show the same digits are positive, so a cell compared with itself is too. */
  lemma SameAmountPositive(cell: string, prev: string)
    requires IsDollar(cell) && IsDollar(prev) && Strip(cell) == Strip(prev)
    ensures ClassOf(cell, Some(prev)) == Positive
  {
    LexLessIrreflexive(Strip(cell));
  }

  /** Of two different amounts, comparing either with the other gives opposite classes. */
  lemma ClassOfOpposite(cell: string, prev: string)
    requires IsDollar(cell) && IsDollar(prev) && Strip(cell) != Strip(prev)
    ensures ClassOf(cell, Some(prev)) == Positive <==> ClassOf(prev, Some(cell)) == Negative
  {
    LexLessTotal(Strip(cell), Strip(prev));
    LexLessAsymmetric(Strip(cell), Strip(prev));
  }

  /**
   * When both amounts strip to digit strings of the same length, the class follows their
   * values: positive exactly when the cell's value is at least the previous one.
   */
  lemma ClassOfSameWidth(cell: string, prev: string)
    requires IsDollar(cell) && IsDollar(prev)
    requires AllDigits(Strip(cell)) && AllDigits(Strip(prev)) && |Strip(cell)| == |Strip(prev)|
    ensures ClassOf(cell, Some(prev)) == Positive <==> DigitsValue(Strip(cell)) >= DigitsValue(Strip(prev))
  {
    LexLessDigits(Strip(cell), Strip(prev));
  }

  /**
   * Amounts are ordered by their leading characters: after stripping, a cell whose first
   * character is larger than the previous cell's is positive, whatever the lengths.
   */
  lemma ClassOfLeading(cell: string, prev: string)
    requires IsDollar(cell) && IsDollar(prev) && Strip(cell) != [] && Strip(prev) != []
    requires Strip(cell)[0] > Strip(prev)[0]
    ensures ClassOf(cell, Some(prev)) == Positive
    ensures ClassOf(prev, Some(cell)) == Negative
  {
    LexLessAsymmetric(Strip(cell), Strip(prev));
  }

  /**
   * Across a change in the number of digits the string order disagrees with the values:
   * `$999` after `$1,000` is positive and `$1,000` after `$999` is negative.
   */
  lemma ClassOfDigitBoundary()
    ensures DigitsValue("999") < DigitsValue("1000")
    ensures ClassOf("$999", Some("$1,000")) == Positive
    ensures ClassOf("$1,000", Some("$999")) == Negative
  {
    DigitBoundaryValues();
    StripExamples();
    ClassOfLeading("$999", "$1,000");
  }

  lemma DigitBoundaryValues()
    ensures DigitsValue("999") == 999 && DigitsValue("1000") == 1000
  {
    assert "999"[..2] == "99" && "99"[..1] == "9" && "9"[..0] == "";
    assert "1000"[..3] == "100" && "100"[..2] == "10" && "10"[..1] == "1" && "1"[..0] == "";
  }

  lemma StripExamples()
    ensures Strip("$999") == "999" && Strip("$1,000") == "1000"
  {
  }

  // The rendered table.

  /**
   * No data renders nothing. Otherwise the first row is the header, shown without classes,
   * and every later row becomes a body row with the same cells in the same order.
   */
  lemma RenderShape(data: seq<seq<string>>)
    ensures Render(data).None? <==> data == []
    ensures Render(data).Some? ==>
      && Render(data).value.header == data[0]
      && |Render(data).value.body| == |data| - 1
      && forall r, c :: 0 <= r < |data| - 1 && 0 <= c < |data[r + 1]| ==>
        |Render(data).value.body[r]| == |data[r + 1]| && Render(data).value.body[r][c].text == data[r + 1][c]
  {
  }

  /** The first body row is compared with itself, so each dollar amount in it is positive. */
  lemma RenderFirstRow(data: seq<seq<string>>, c: nat)
    requires |data| >= 2 && c < |data[1]|
    ensures |Render(data).value.body[0]| == |data[1]|
    ensures IsDollar(data[1][c]) ==> Render(data).value.body[0][c].className == Positive
  {
    if IsDollar(data[1][c]) {
      SameAmountPositive(data[1][c], data[1][c]);
    }
  }

  /** Every later body row is compared cell by cell with the row above it. */
  lemma RenderLaterRow(data: seq<seq<string>>, r: nat, c: nat)
    requires 1 <= r && r + 1 < |data| && c < |data[r + 1]|
    ensures |Render(data).value.body| == |data| - 1 && |Render(data).value.body[r]| == |data[r + 1]|
    ensures Render(data).value.body[r][c].className
      == ClassOf(data[r + 1][c], if c < |data[r]| then Some(data[r][c]) else None)
  {
  }

  /** In the simulation's table every total of a weekend row renders as neutral. */
  lemma WeekendRowNeutral(env: Env, start: real, growths: seq<Growth>, k: nat, i: nat, c: nat)
    requires i < k && IsWeekend(env, i) && c < |growths|
    ensures Render(Table(env, start, growths, k)).Some?
    ensures var body := Render(Table(env, start, growths, k)).value.body;
      i < |body| && c + 1 < |body[i]| && body[i][c + 1].className == Neutral
  {
    WeekendDay(env, start, growths, k, i, c);
  }
}
