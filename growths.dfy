/**
 * The growth calculator's input language. The user types growth rates in percent,
 * separated by commas. A segment such as `3` is a fixed daily rate. A segment such as
 * `-2-5` is a range: each simulated day draws a rate between the two bounds. Each rate
 * becomes a multiplier `x / 100 + 1`.
 */
module Growths {
  import opened Wrappers
  import opened JsString
  import opened JsNumber

  /**
   * A growth spec: a fixed multiplier, which is NaN when the segment was not a number,
   * or a range of multipliers. A range is not required to have `min <= max`.
   */
  datatype Growth = Fixed(rate: Num) | Range(min: real, max: real)

  /** A percentage as a multiplier: `x / 100 + 1`. */
  function Rate(x: real): real
  {
    x / 100.0 + 1.0
  }

  /** `x / 100 + 1` on a JavaScript number: NaN stays NaN. */
  function NumRate(x: Num): Num
  {
    match x
    case Finite(v) => Finite(Rate(v))
    case NaN => NaN
  }


  /**
   * Whole-segment match of `^(-?\d+(?:\.\d+)?)\s*-\s*(-?\d+(?:\.\d+)?)$`, giving the two
   * captured literals. Each part of the pattern can only match its longest candidate
   * (what follows a literal, a run of white space or the end of the text cannot
   * continue it), so scanning left to right with longest matches finds the match
   * whenever there is one.
   */
  function MatchRange(s: string): (r: Option<(Decimal, Decimal)>)
    ensures r.Some? ==> r.value.0.Valid() && r.value.1.Valid()
  {
    match ScanDecimal(s)
    case None => None
    case Some((a, n)) =>
      var t := TrimStart(s[n..]);
      if t != [] && t[0] == '-' then
        var u := TrimStart(t[1..]);
        match ScanDecimal(u)
        case None => None
        case Some((b, m)) => if m == |u| then Some((a, b)) else None
      else None
  }

  /** The steps `MatchRange` takes on text that matches. */
  lemma MatchRangeSteps(s: string)
    requires MatchRange(s).Some?
    ensures ScanDecimal(s).Some?
    ensures var t := TrimStart(s[ScanDecimal(s).value.1..]);
      && t != [] && t[0] == '-'
      && ScanDecimal(TrimStart(t[1..])).Some?
      && ScanDecimal(TrimStart(t[1..])).value.1 == |TrimStart(t[1..])|
      && MatchRange(s).value == (ScanDecimal(s).value.0, ScanDecimal(TrimStart(t[1..])).value.0)
  {
  }

  /** What `MatchRange` finds is two literals joined by a minus sign between white space. */
  lemma {:induction false} MatchRangeSound(s: string)
    requires MatchRange(s).Some?
    ensures var (a, b) := MatchRange(s).value;
      exists sp1, sp2 :: AllSpace(sp1) && AllSpace(sp2)
        && s == a.Text() + sp1 + ['-'] + sp2 + b.Text()
  {
    MatchRangeSteps(s);
    var (a, n) := ScanDecimal(s).value;
    var b := MatchRange(s).value.1;
    ScanDecimalPrefix(s);
    var rest := s[n..];
    var sp1, sp2 := RangeTailSound(rest);
    assert s == a.Text() + rest;
    Assemble(a.Text(), sp1, sp2, b.Text());
  }

  /** The literal `ScanDecimal` finds is the text it consumed. */
  lemma {:induction false} ScanDecimalPrefix(s: string)
    requires ScanDecimal(s).Some?
    ensures var (d, n) := ScanDecimal(s).value;
      n <= |s| && s == d.Text() + s[n..]
  {
    var (d, n) := ScanDecimal(s).value;
    assert n <= |s| && s[..n] == d.Text() by {
      ScanDecimalSound(s);
    }
    assert s == s[..n] + s[n..];
  }

  /** The part of a match after the first literal: white space, a minus sign, white space, a literal. */
  lemma {:induction false} RangeTailSound(rest: string) returns (sp1: string, sp2: string)
    requires var t := TrimStart(rest);
      && t != [] && t[0] == '-'
      && ScanDecimal(TrimStart(t[1..])).Some?
      && ScanDecimal(TrimStart(t[1..])).value.1 == |TrimStart(t[1..])|
    ensures AllSpace(sp1) && AllSpace(sp2)
    ensures var b := ScanDecimal(TrimStart(TrimStart(rest)[1..])).value.0;
      rest == sp1 + (['-'] + (sp2 + b.Text()))
  {
    var t := TrimStart(rest);
    var v := t[1..];
    var u := TrimStart(v);
    var b := ScanDecimal(u).value.0;
    assert u == b.Text() by {
      ScanDecimalPrefix(u);
      assert u[|u|..] == [];
    }
    sp1 := SpacesBefore(rest);
    sp2 := SpacesBefore(v);
    assert t == ['-'] + v;
  }

  /** The white space `trimStart` removes, in front of what it keeps. */
  lemma {:induction false} SpacesBefore(x: string) returns (sp: string)
    ensures AllSpace(sp) && x == sp + TrimStart(x)
  {
    TrimStartSound(x);
    sp := x[..|x| - |TrimStart(x)|];
  }

  /** Any two literals joined by a minus sign between white space match, with those captures. */
  lemma {:induction false} MatchRangeComplete(a: Decimal, b: Decimal, sp1: string, sp2: string)
    requires a.Valid() && b.Valid() && AllSpace(sp1) && AllSpace(sp2)
    ensures MatchRange(a.Text() + sp1 + ['-'] + sp2 + b.Text()) == Some((a, b))
  {
    var rest := sp1 + (['-'] + (sp2 + b.Text()));
    CompleteHead(a, rest);
    Assemble(a.Text(), sp1, sp2, b.Text());
    CompleteTail(sp1, sp2, b);
    MatchRangeBy(a.Text() + rest, a, |a.Text()|, ['-'] + (sp2 + b.Text()), b);
  }

  /** `MatchRange` succeeds when each of its steps does. */
  lemma MatchRangeBy(s: string, a: Decimal, n: nat, t: string, b: Decimal)
    ensures n <= |s| && ScanDecimal(s) == Some((a, n))
      && TrimStart(s[n..]) == t && t != [] && t[0] == '-'
      && ScanDecimal(TrimStart(t[1..])) == Some((b, |TrimStart(t[1..])|))
      ==> MatchRange(s) == Some((a, b))
  {
  }

  /** The first literal is scanned whole when white space or a minus sign follows it. */
  lemma {:induction false} CompleteHead(a: Decimal, rest: string)
    requires a.Valid() && rest != [] && (rest[0] == '-' || IsSpace(rest[0]))
    ensures ScanDecimal(a.Text() + rest) == Some((a, |a.Text()|))
    ensures (a.Text() + rest)[|a.Text()|..] == rest
  {
    ScanDecimalText(a, rest);
  }

  /** After the first literal come white space, a minus sign, white space and the second literal. */
  lemma {:induction false} CompleteTail(sp1: string, sp2: string, b: Decimal)
    requires b.Valid() && AllSpace(sp1) && AllSpace(sp2)
    ensures var t := ['-'] + (sp2 + b.Text());
      && TrimStart(sp1 + t) == t
      && TrimStart(t[1..]) == b.Text()
      && ScanDecimal(b.Text()) == Some((b, |b.Text()|))
  {
    var t := ['-'] + (sp2 + b.Text());
    TrimStartExact(sp1, t);
    assert t[1..] == sp2 + b.Text();
    TextStart(b);
    TrimStartExact(sp2, b.Text());
    ScanDecimalText(b, []);
    assert b.Text() + [] == b.Text();
  }

  /** The text of a literal starts with a minus sign or a digit. */
  lemma TextStart(d: Decimal)
    requires d.Valid()
    ensures d.Text() != [] && (d.Text()[0] == '-' || IsDigit(d.Text()[0]))
  {
  }

  lemma Assemble(x: string, sp1: string, sp2: string, y: string)
    ensures x + sp1 + ['-'] + sp2 + y == x + (sp1 + (['-'] + (sp2 + y)))
  {
  }

  /** A segment is parsed as a range when it matches the pattern, and by `parseFloat` otherwise. */
  function ParseSegment(seg: string): Growth
  {
    match MatchRange(seg)
    case Some((a, b)) => Range(Rate(a.Value()), Rate(b.Value()))
    case None => Fixed(NumRate(ParseFloat(seg)))
  }

  /**
   * A range segment gives the pair of multipliers of its two bounds, each the rate of
   * what `parseFloat` reads from the captured text. The bounds are kept in the order
   * written, whichever is larger.
   */
  lemma {:induction false} ParseSegmentRange(a: Decimal, b: Decimal, sp1: string, sp2: string)
    requires a.Valid() && b.Valid() && AllSpace(sp1) && AllSpace(sp2)
    ensures ParseSegment(a.Text() + sp1 + ['-'] + sp2 + b.Text()) == Range(Rate(a.Value()), Rate(b.Value()))
    ensures NumRate(ParseFloat(a.Text())) == Finite(Rate(a.Value()))
    ensures NumRate(ParseFloat(b.Text())) == Finite(Rate(b.Value()))
  {
    MatchRangeComplete(a, b, sp1, sp2);
    ParseFloatPrefix(a, []);
    ParseFloatPrefix(b, []);
    assert a.Text() + [] == a.Text() && b.Text() + [] == b.Text();
  }

  /** A single literal is not a range: it gives the fixed multiplier of its value. */
  lemma {:induction false} ParseSegmentDecimal(d: Decimal)
    requires d.Valid()
    ensures ParseSegment(d.Text()) == Fixed(Finite(Rate(d.Value())))
  {
    ScanDecimalText(d, []);
    assert d.Text() + [] == d.Text();
    assert MatchRange(d.Text()) == None;
    ParseFloatPrefix(d, []);
  }

  /**
   * Text that `parseFloat` cannot read, and that is not a range, gives a NaN multiplier;
   * so does, for instance, `abc`.
   */
  lemma {:induction false} ParseSegmentNotANumber(seg: string)
    requires seg == [] || !(IsDigit(seg[0]) || seg[0] in "+-." || IsSpace(seg[0]))
    ensures ParseSegment(seg) == Fixed(NaN)
  {
    assert TrimStart(seg) == seg;
    ParseFloatNotANumber(seg);
    assert ScanDecimal(seg) == None by {
      assert LeadingDigits(seg) == 0;
    }
  }

  /** The trimmed, non-blank parts, in order: `parts.map(trim).filter(Boolean)`. */
  function NonBlank(parts: seq<string>): (segs: seq<string>)
    ensures |segs| <= |parts|
  {
    if parts == [] then []
    else
      var seg := Trim(parts[0]);
      (if seg == [] then [] else [seg]) + NonBlank(parts[1..])
  }

  /** The segments of the input: its comma-separated parts, trimmed, blank ones dropped. */
  function Segments(input: string): seq<string>
  {
    NonBlank(Split(input, ','))
  }

  /** `xs.map(f)`. */
  function Map<A, B>(f: A -> B, xs: seq<A>): (ys: seq<B>)
    ensures |ys| == |xs|
  {
    if xs == [] then [] else [f(xs[0])] + Map(f, xs[1..])
  }

  /** Each element of `Map(f, xs)` is `f` of the element of `xs` at the same index. */
  lemma {:induction false} MapIndex<A, B>(f: A -> B, xs: seq<A>, i: nat)
    requires i < |xs|
    ensures Map(f, xs)[i] == f(xs[i])
  {
    if i > 0 {
      MapIndex(f, xs[1..], i - 1);
    }
  }

  lemma {:induction false} MapAppend<A, B>(f: A -> B, xs: seq<A>, ys: seq<A>)
    ensures Map(f, xs + ys) == Map(f, xs) + Map(f, ys)
  {
    if xs != [] {
      assert (xs + ys)[0] == xs[0] && (xs + ys)[1..] == xs[1..] + ys;
      MapAppend(f, xs[1..], ys);
    } else {
      assert xs + ys == ys;
    }
  }

  /** `parseGrowths`: one growth spec per segment, in input order. */
  function ParseGrowths(input: string): seq<Growth>
  {
    Map(ParseSegment, Segments(input))
  }

  lemma {:induction false} NonBlankAppend(p: seq<string>, q: seq<string>)
    ensures NonBlank(p + q) == NonBlank(p) + NonBlank(q)
  {
    if p != [] {
      assert (p + q)[0] == p[0] && (p + q)[1..] == p[1..] + q;
      NonBlankAppend(p[1..], q);
    } else {
      assert p + q == q;
    }
  }

  /** Every segment is non-empty, already trimmed, and holds no comma. */
  lemma {:induction false} SegmentsTrimmed(input: string)
    ensures forall k :: 0 <= k < |Segments(input)| ==>
      var seg := Segments(input)[k];
      seg != [] && Trim(seg) == seg && ',' !in seg
  {
    SplitPieces(input, ',');
    NonBlankTrimmed(Split(input, ','));
  }

  lemma {:induction false} NonBlankTrimmed(parts: seq<string>)
    requires forall k :: 0 <= k < |parts| ==> ',' !in parts[k]
    ensures forall k :: 0 <= k < |NonBlank(parts)| ==>
      var seg := NonBlank(parts)[k];
      seg != [] && Trim(seg) == seg && ',' !in seg
  {
    if parts != [] {
      NonBlankTrimmed(parts[1..]);
      var seg := Trim(parts[0]);
      if seg != [] {
        TrimIdempotent(parts[0]);
        TrimSound(parts[0]);
        var p, q :| parts[0] == p + seg + q && AllSpace(p) && AllSpace(q);
        InnerNoComma(p, seg, q);
      }
    }
  }

  lemma {:induction false} InnerNoComma(p: string, r: string, q: string)
    requires ',' !in p + r + q
    ensures ',' !in r
  {
    assert forall i :: 0 <= i < |r| ==> r[i] == (p + r + q)[|p| + i];
  }

  /** `parseGrowths` of two inputs joined by a comma is the two results one after the other. */
  lemma {:induction false} ParseGrowthsComma(a: string, b: string)
    ensures ParseGrowths(a + [','] + b) == ParseGrowths(a) + ParseGrowths(b)
  {
    SplitAppend(a, b, ',');
    NonBlankAppend(Split(a, ','), Split(b, ','));
    MapAppend(ParseSegment, Segments(a), Segments(b));
  }

  /** Input without a comma that is blank gives nothing. */
  lemma {:induction false} ParseGrowthsBlankPart(s: string)
    requires ',' !in s && AllSpace(s)
    ensures ParseGrowths(s) == []
  {
    SplitNoSeparator(s, ',');
    TrimBlank(s);
    assert [s][1..] == [];
    assert Segments(s) == [];
  }

  /** Input without a comma that is not blank is one segment: its trimmed text. */
  lemma {:induction false} ParseGrowthsOnePart(s: string)
    requires ',' !in s && !AllSpace(s)
    ensures ParseGrowths(s) == [ParseSegment(Trim(s))]
  {
    SplitNoSeparator(s, ',');
    TrimBlank(s);
    assert [s][1..] == [];
    assert Segments(s) == [Trim(s)] + [];
  }

  /** There is at most one spec per comma-separated part. */
  lemma ParseGrowthsCount(s: string)
    ensures |ParseGrowths(s)| <= Count(s, ',') + 1
  {
  }

  /** The text of a literal holds no comma and no white space, and ends with a digit. */
  lemma {:induction false} TextChars(d: Decimal)
    requires d.Valid()
    ensures var t := d.Text();
      && ',' !in t && IsDigit(t[|t| - 1])
      && (t[0] == '-' || IsDigit(t[0]))
      && (forall k :: 0 <= k < |t| ==> !IsSpace(t[k]))
  {
  }

  lemma {:induction false} SpacesNoComma(sp: string)
    requires AllSpace(sp)
    ensures ',' !in sp
  {
  }

  /**
   * A part holding a single literal, with white space around it, gives the fixed
   * multiplier of that literal.
   */
  lemma {:induction false} ParseGrowthsDecimal(lead: string, d: Decimal, trail: string)
    requires d.Valid() && AllSpace(lead) && AllSpace(trail)
    ensures ParseGrowths(lead + d.Text() + trail) == [Fixed(Finite(Rate(d.Value())))]
  {
    var s := lead + d.Text() + trail;
    TextChars(d);
    SpacesNoComma(lead);
    SpacesNoComma(trail);
    assert ',' !in s;
    TrimSurrounded(lead, d.Text(), trail);
    TrimBlank(s);
    ParseGrowthsOnePart(s);
    ParseSegmentDecimal(d);
  }

  /**
   * A part holding a range, with white space around it, gives the pair of multipliers of
   * its bounds in the order written: `1--2` gives `[1.01, 0.98]`, and `-2-5` is the range
   * `[0.98, 1.05]`, not a single number.
   */
  lemma {:induction false} ParseGrowthsRange(lead: string, a: Decimal, sp1: string, sp2: string, b: Decimal, trail: string)
    requires a.Valid() && b.Valid()
    requires AllSpace(lead) && AllSpace(sp1) && AllSpace(sp2) && AllSpace(trail)
    ensures ParseGrowths(lead + (a.Text() + sp1 + ['-'] + sp2 + b.Text()) + trail)
      == [Range(Rate(a.Value()), Rate(b.Value()))]
  {
    var r := a.Text() + sp1 + ['-'] + sp2 + b.Text();
    var s := lead + r + trail;
    TextChars(a);
    TextChars(b);
    SpacesNoComma(lead);
    SpacesNoComma(sp1);
    SpacesNoComma(sp2);
    SpacesNoComma(trail);
    assert ',' !in r;
    assert ',' !in s;
    assert r[0] == a.Text()[0] && r[|r| - 1] == b.Text()[|b.Text()| - 1];
    TrimSurrounded(lead, r, trail);
    TrimBlank(s);
    ParseGrowthsOnePart(s);
    ParseSegmentRange(a, b, sp1, sp2);
  }

  /** Parts that are empty or blank, such as those of `1,,2,` around the numbers, give nothing. */
  lemma {:induction false} ParseGrowthsBlank(a: string, blank: string, b: string)
    requires AllSpace(blank)
    ensures ParseGrowths(a + [','] + blank + [','] + b) == ParseGrowths(a) + ParseGrowths(b)
  {
    var rest := blank + [','] + b;
    assert a + [','] + blank + [','] + b == a + [','] + rest;
    SpacesNoComma(blank);
    calc {
      ParseGrowths(a + [','] + rest);
    == { ParseGrowthsComma(a, rest); }
      ParseGrowths(a) + ParseGrowths(rest);
    == { ParseGrowthsComma(blank, b); }
      ParseGrowths(a) + (ParseGrowths(blank) + ParseGrowths(b));
    == { ParseGrowthsBlankPart(blank); assert [] + ParseGrowths(b) == ParseGrowths(b); }
      ParseGrowths(a) + ParseGrowths(b);
    }
  }

  /**
   * `formatPercent`: `((n - 1) * 100).toFixed(0)` followed by `%`. The number-to-text
   * conversion `toFixed(0)` is a parameter.
   */
  function FormatPercent(fixed0: Num -> string, n: Num): string
  {
    fixed0(match n case Finite(v) => Finite((v - 1.0) * 100.0) case NaN => NaN) + "%"
  }

  /** `formatGrowth`: the column label of a spec. */
  function FormatGrowth(fixed0: Num -> string, g: Growth): string
  {
    match g
    case Range(min, max) => FormatPercent(fixed0, Finite(min)) + " to " + FormatPercent(fixed0, Finite(max))
    case Fixed(rate) => FormatPercent(fixed0, rate)
  }

  /** `formatPercent` inverts `Rate`: the multiplier for `x` percent shows as `x%`. */
  lemma RateInverse(fixed0: Num -> string, x: real)
    ensures FormatPercent(fixed0, Finite(Rate(x))) == fixed0(Finite(x)) + "%"
  {
    assert (Rate(x) - 1.0) * 100.0 == x;
  }

  /**
   * The label of a fixed spec shows the percentage that was typed (NaN for text that is
   * not a number), and the label of a range shows both typed bounds joined by ` to `.
   */
  lemma {:induction false} FormatParsed(fixed0: Num -> string, x: Num, lo: real, hi: real)
    ensures FormatGrowth(fixed0, Fixed(NumRate(x))) == fixed0(x) + "%"
    ensures FormatGrowth(fixed0, Range(Rate(lo), Rate(hi)))
      == fixed0(Finite(lo)) + "%" + " to " + fixed0(Finite(hi)) + "%"
  {
    RateInverse(fixed0, lo);
    RateInverse(fixed0, hi);
    match x
    case Finite(v) => RateInverse(fixed0, v);
    case NaN =>
  }
}
