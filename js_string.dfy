/**
 * The pieces of JavaScript's string library that the growth calculator relies on:
 * the white space that `String.prototype.trim` removes (and that `\s` matches in a
 * regular expression), `String.prototype.split` on a single character, and `trim`.
 * Strings are sequences of characters.
 */
module JsString {

  /** ECMAScript WhiteSpace and LineTerminator code points. */
  predicate IsSpace(c: char) {
    c == ' ' || c == '\t' || c == '\n' || c == '\r' || c == '\U{B}' || c == '\U{C}'
    || c == '\U{A0}' || c == '\U{1680}' || ('\U{2000}' <= c <= '\U{200A}')
    || c == '\U{2028}' || c == '\U{2029}' || c == '\U{202F}' || c == '\U{205F}'
    || c == '\U{3000}' || c == '\U{FEFF}'
  }

  /** `\d` in a JavaScript regular expression: ASCII digits only. */
  predicate IsDigit(c: char) {
    '0' <= c <= '9'
  }

  predicate AllSpace(s: string) {
    forall k :: 0 <= k < |s| ==> IsSpace(s[k])
  }

  predicate AllDigits(s: string) {
    forall k :: 0 <= k < |s| ==> IsDigit(s[k])
  }

  /** Length of the longest run of ASCII digits at the front of `s`. */
  function LeadingDigits(s: string): (n: nat)
    ensures n <= |s| && forall k :: 0 <= k < n ==> IsDigit(s[k])
    ensures n < |s| ==> !IsDigit(s[n])
  {
    if s != [] && IsDigit(s[0]) then 1 + LeadingDigits(s[1..]) else 0
  }

  /** `s.trimStart()`: `s` without its leading white space. */
  function TrimStart(s: string): (r: string)
    ensures |r| <= |s|
  {
    if s != [] && IsSpace(s[0]) then TrimStart(s[1..]) else s
  }

  /** `s.trimEnd()`: `s` without its trailing white space. */
  function TrimEnd(s: string): (r: string)
    ensures |r| <= |s|
  {
    if s != [] && IsSpace(s[|s| - 1]) then TrimEnd(s[..|s| - 1]) else s
  }

  /**
   * `trimStart` removes a white-space prefix and nothing else: what is left is a suffix
   * of `s` that does not start with white space.
   */
  lemma {:induction false} TrimStartSound(s: string)
    ensures var r := TrimStart(s);
      r == s[|s| - |r|..] && AllSpace(s[..|s| - |r|]) && (r != [] ==> !IsSpace(r[0]))
  {
    if s != [] && IsSpace(s[0]) {
      TrimStartSound(s[1..]);
      var r := TrimStart(s);
      assert s[..|s| - |r|] == [s[0]] + s[1..][..|s[1..]| - |r|];
      assert s[|s| - |r|..] == s[1..][|s[1..]| - |r|..];
    }
  }

  /**
   * `trimEnd` removes a white-space suffix and nothing else: what is left is a prefix
   * of `s` that does not end with white space.
   */
  lemma {:induction false} TrimEndSound(s: string)
    ensures var r := TrimEnd(s);
      r == s[..|r|] && AllSpace(s[|r|..]) && (r != [] ==> !IsSpace(r[|r| - 1]))
  {
    if s != [] && IsSpace(s[|s| - 1]) {
      var init := s[..|s| - 1];
      TrimEndSound(init);
      var r := TrimEnd(s);
      assert s[|r|..] == init[|r|..] + [s[|s| - 1]];
      assert s[..|r|] == init[..|r|];
    }
  }

  /** `trimStart` removes exactly a white-space prefix. */
  lemma {:induction false} TrimStartExact(p: string, t: string)
    requires AllSpace(p)
    requires t == [] || !IsSpace(t[0])
    ensures TrimStart(p + t) == t
  {
    if p == [] {
      assert p + t == t;
    } else {
      assert (p + t)[0] == p[0] && (p + t)[1..] == p[1..] + t;
      TrimStartExact(p[1..], t);
    }
  }

  /** `trimEnd` removes exactly a white-space suffix. */
  lemma {:induction false} TrimEndExact(t: string, q: string)
    requires AllSpace(q)
    requires t == [] || !IsSpace(t[|t| - 1])
    ensures TrimEnd(t + q) == t
  {
    if q == [] {
      assert t + q == t;
    } else {
      assert (t + q)[|t + q| - 1] == q[|q| - 1];
      assert (t + q)[..|t + q| - 1] == t + q[..|q| - 1];
      TrimEndExact(t, q[..|q| - 1]);
    }
  }

  /** `s.trim()`: `s` without the white space at both ends. */
  function Trim(s: string): (r: string)
    ensures |r| <= |s|
  {
    TrimEnd(TrimStart(s))
  }

  /**
   * The result of `trim` is a part of `s` between a white-space prefix and suffix, and
   * it starts and ends with something other than white space.
   */
  lemma {:induction false} TrimSound(s: string)
    ensures var r := Trim(s);
      (r != [] ==> !IsSpace(r[0]) && !IsSpace(r[|r| - 1]))
      && exists p, q :: s == p + r + q && AllSpace(p) && AllSpace(q)
  {
    var u := TrimStart(s);
    var r := TrimEnd(u);
    TrimStartSound(s);
    TrimEndSound(u);
    var p, q := s[..|s| - |u|], u[|r|..];
    assert s == p + u;
    assert u == r + q;
    assert s == p + r + q;
    assert r != [] ==> r[0] == u[0];
  }

  /** `trim` leaves nothing exactly when the text is all white space. */
  lemma {:induction false} TrimBlank(s: string)
    ensures Trim(s) == [] <==> AllSpace(s)
  {
    var u := TrimStart(s);
    var r := TrimEnd(u);
    TrimStartSound(s);
    TrimEndSound(u);
    if r == [] {
      assert s == s[..|s| - |u|] + u[|r|..];
    } else {
      assert s[|s| - |u|] == u[0] == r[0];
    }
  }

  /**
   * `trim` removes exactly a white-space prefix and suffix: text that starts and ends
   * with something other than white space, surrounded by white space, trims to itself.
   * Together with `TrimSound` this pins the result down uniquely.
   */
  lemma {:induction false} TrimSurrounded(p: string, r: string, q: string)
    requires AllSpace(p) && AllSpace(q)
    requires r == [] || (!IsSpace(r[0]) && !IsSpace(r[|r| - 1]))
    ensures Trim(p + r + q) == r
  {
    var s := p + r + q;
    if r == [] {
      assert s == p + q;
      assert AllSpace(s);
      TrimBlank(s);
    } else {
      assert s == p + (r + q);
      TrimStartExact(p, r + q);
      TrimEndExact(r, q);
    }
  }

  /** `trim` is idempotent. */
  lemma {:induction false} TrimIdempotent(s: string)
    ensures Trim(Trim(s)) == Trim(s)
  {
    TrimSound(s);
    TrimSurrounded([], Trim(s), []);
    assert [] + Trim(s) + [] == Trim(s);
  }

  /** The number of occurrences of `c` in `s`. */
  function Count(s: string, c: char): nat
  {
    if s == [] then 0 else (if s[0] == c then 1 else 0) + Count(s[1..], c)
  }

  /**
   * `s.split(sep)` for a one-character separator: the pieces between separators, in
   * order, including the empty ones (so `""` splits into one empty piece).
   */
  function Split(s: string, sep: char): (pieces: seq<string>)
    ensures |pieces| == Count(s, sep) + 1
  {
    if s == [] then [[]]
    else
      var rest := Split(s[1..], sep);
      if s[0] == sep then [[]] + rest else [[s[0]] + rest[0]] + rest[1..]
  }

  /** No piece contains the separator. */
  lemma {:induction false} SplitPieces(s: string, sep: char)
    ensures forall k :: 0 <= k < |Split(s, sep)| ==> sep !in Split(s, sep)[k]
  {
    if s != [] {
      SplitPieces(s[1..], sep);
    }
  }

  /** `pieces.join(sep)`. */
  function Join(pieces: seq<string>, sep: char): string
    requires |pieces| >= 1
  {
    if |pieces| == 1 then pieces[0] else pieces[0] + [sep] + Join(pieces[1..], sep)
  }

  /** Joining the pieces with the separator gives the original text back. */
  lemma {:induction false} JoinSplit(s: string, sep: char)
    ensures Join(Split(s, sep), sep) == s
  {
    if s != [] {
      JoinSplit(s[1..], sep);
      var rest := Split(s[1..], sep);
      if s[0] != sep {
        if |rest| == 1 {
        } else {
          assert Join(rest, sep) == rest[0] + [sep] + Join(rest[1..], sep);
          assert [s[0]] + rest[0] + [sep] + Join(rest[1..], sep) == [s[0]] + Join(rest, sep);
        }
      }
    }
  }

  /** Splitting text that is two texts joined by a separator splits each of them. */
  lemma {:induction false} SplitAppend(a: string, b: string, sep: char)
    ensures Split(a + [sep] + b, sep) == Split(a, sep) + Split(b, sep)
  {
    if a == [] {
      assert ([sep] + b)[1..] == b;
    } else {
      var t := a[1..] + [sep] + b;
      assert a + [sep] + b == [a[0]] + t;
      assert a == [a[0]] + a[1..];
      SplitAppend(a[1..], b, sep);
      SplitCons(a[0], t, sep);
      SplitCons(a[0], a[1..], sep);
      PieceCons(a[0], sep, Split(a[1..], sep), Split(b, sep));
    }
  }

  /** How `Split` treats the first character of its input. */
  lemma SplitCons(c: char, t: string, sep: char)
    ensures Split([c] + t, sep) ==
      if c == sep then [[]] + Split(t, sep) else [[c] + Split(t, sep)[0]] + Split(t, sep)[1..]
  {
    assert ([c] + t)[0] == c && ([c] + t)[1..] == t;
  }

  /** Adding a character or an empty piece at the front commutes with appending pieces. */
  lemma PieceCons(c: char, sep: char, x: seq<string>, y: seq<string>)
    requires |x| >= 1
    ensures (if c == sep then [[]] + (x + y) else [[c] + (x + y)[0]] + (x + y)[1..])
      == (if c == sep then [[]] + x else [[c] + x[0]] + x[1..]) + y
  {
    if c != sep {
      assert (x + y)[0] == x[0];
      assert (x + y)[1..] == x[1..] + y;
    }
  }

  /** Text without the separator is one piece. */
  lemma {:induction false} SplitNoSeparator(s: string, sep: char)
    requires sep !in s
    ensures Split(s, sep) == [s]
  {
    if s != [] {
      assert sep !in s[1..];
      SplitNoSeparator(s[1..], sep);
      assert [s[0]] + s[1..] == s;
    }
  }
}
