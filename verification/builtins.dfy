/**
 * The Python 2 built-ins the memory balancer leans on, written out so that their
 * edge cases are explicit: `s.split("\n")`, `s.split()`, `s.rstrip(":")`,
 * `int(s)` on a string and `int(x)` on a float (exact reals here).
 */
module PyBuiltins {
  import opened Wrappers

  /** The characters Python 2's `str.split()` and `int()` treat as whitespace. */
  predicate IsSpace(c: char) {
    c == ' ' || c == '\t' || c == '\n' || c == '\r' || c == '\U{B}' || c == '\U{C}'
  }

  predicate IsDigit(c: char) {
    '0' <= c <= '9'
  }

  // ---------------------------------------------------------------------------
  // s.split(sep)

  /** `s.split(sep)` for a one-character separator: every separator cuts, empty pieces stay. */
  function SplitOn(s: string, sep: char): (parts: seq<string>)
    ensures |parts| >= 1
    ensures forall p | p in parts :: sep !in p
  {
    if s == [] then [""]
    else
      var rest := SplitOn(s[1..], sep);
      if s[0] == sep then [""] + rest
      else [[s[0]] + rest[0]] + rest[1..]
  }

  /** `sep.join(parts)`, the inverse of SplitOn. */
  function Join(parts: seq<string>, sep: char): string {
    if parts == [] then ""
    else if |parts| == 1 then parts[0]
    else parts[0] + [sep] + Join(parts[1..], sep)
  }

  /** Splitting loses nothing: joining the pieces back gives the original text. */
  lemma {:induction false} JoinSplitOn(s: string, sep: char)
    ensures Join(SplitOn(s, sep), sep) == s
  {
    if s != [] {
      var rest := SplitOn(s[1..], sep);
      JoinSplitOn(s[1..], sep);
      if s[0] == sep {
        assert SplitOn(s, sep) == [""] + rest;
        assert ([""] + rest)[1..] == rest;
      } else {
        var parts := [[s[0]] + rest[0]] + rest[1..];
        assert SplitOn(s, sep) == parts;
        if |rest| == 1 {
          assert Join(rest, sep) == rest[0];
        } else {
          assert parts[1..] == rest[1..];
          assert Join(rest, sep) == rest[0] + [sep] + Join(rest[1..], sep);
        }
      }
    }
  }

  // ---------------------------------------------------------------------------
  // s.split()

  /** A non-empty run of non-whitespace characters. */
  predicate IsWord(w: string) {
    w != [] && forall i | 0 <= i < |w| :: !IsSpace(w[i])
  }

  /**
   * `s.split()` with no separator: the maximal runs of non-whitespace characters,
   * in order; runs of whitespace (and leading or trailing whitespace) produce no
   * empty pieces.
   */
  function Words(s: string): (ws: seq<string>)
    ensures forall w | w in ws :: IsWord(w)
    ensures s != [] && !IsSpace(s[0]) ==> ws != [] && ws[0] != [] && ws[0][0] == s[0]
  {
    if s == [] then []
    else
      var rest := Words(s[1..]);
      if IsSpace(s[0]) then rest
      else if |s| > 1 && !IsSpace(s[1]) then
        assert rest[0] in rest;
        var w := [s[0]] + rest[0];
        assert forall i | 1 <= i < |w| :: w[i] == rest[0][i - 1];
        assert IsWord(w);
        [w] + rest[1..]
      else [[s[0]]] + rest
  }

  function Concat(ws: seq<string>): string {
    if ws == [] then "" else ws[0] + Concat(ws[1..])
  }

  /** `s` with every whitespace character removed. */
  function NonSpace(s: string): string {
    if s == [] then ""
    else if IsSpace(s[0]) then NonSpace(s[1..])
    else [s[0]] + NonSpace(s[1..])
  }

  /** The words are exactly the non-whitespace characters of the line, in order. */
  lemma {:induction false} ConcatWords(s: string)
    ensures Concat(Words(s)) == NonSpace(s)
  {
    if s != [] {
      var rest := Words(s[1..]);
      ConcatWords(s[1..]);
      if !IsSpace(s[0]) {
        if |s| > 1 && !IsSpace(s[1]) {
          var ws := [[s[0]] + rest[0]] + rest[1..];
          assert Words(s) == ws;
          assert ws[1..] == rest[1..];
          assert Concat(rest) == rest[0] + Concat(rest[1..]);
        } else {
          assert Words(s) == [[s[0]]] + rest;
          assert ([[s[0]]] + rest)[1..] == rest;
        }
      }
    }
  }

  /*
   * The next three lemmas pin `split()` down on every input: any string is a
   * concatenation of whitespace runs and words, each split apart at whitespace.
   */

  /** Whitespace alone yields no token. */
  lemma {:induction false} WordsBlank(g: string)
    requires forall i | 0 <= i < |g| :: IsSpace(g[i])
    ensures Words(g) == []
  {
    if g != [] {
      WordsBlank(g[1..]);
    }
  }

  /** A run of non-whitespace is one token, whole: tokens are maximal. */
  lemma {:induction false} WordsWord(w: string)
    requires IsWord(w)
    ensures Words(w) == [w]
  {
    assert [w[0]] + w[1..] == w;
    WordsCons(w[0], w[1..]);
    if |w| == 1 {
      assert w[1..] == [] && [w[0]] == w;
    } else {
      WordsWord(w[1..]);
    }
  }

  /** One step of `split()`: a leading character either is dropped, joins the first token, or is one by itself. */
  lemma WordsCons(c: char, s: string)
    ensures Words([c] + s) ==
      if IsSpace(c) then Words(s)
      else if s != [] && !IsSpace(s[0]) then [[c] + Words(s)[0]] + Words(s)[1..]
      else [[c]] + Words(s)
  {
    assert ([c] + s)[1..] == s;
  }

  /** Prepending a character to the first token commutes with appending more tokens. */
  lemma MergeFirst(c: char, x: seq<string>, y: seq<string>)
    requires x != []
    ensures [[c] + (x + y)[0]] + (x + y)[1..] == ([[c] + x[0]] + x[1..]) + y
  {
    assert (x + y)[0] == x[0];
    assert (x + y)[1..] == x[1..] + y;
  }

  /** The step of WordsAppend for one leading character, given the claim for the rest. */
  lemma WordsAppendCons(c: char, t: string, b: string)
    requires t == [] ==> IsSpace(c) || (b != [] && IsSpace(b[0]))
    requires t != [] ==> Words(t + b) == Words(t) + Words(b)
    ensures Words([c] + (t + b)) == Words([c] + t) + Words(b)
  {
    WordsCons(c, t + b);
    WordsCons(c, t);
    if t == [] {
      assert t + b == b;
    } else if !IsSpace(c) && !IsSpace(t[0]) {
      assert (t + b)[0] == t[0];
      assert Words(t) != [];
      MergeFirst(c, Words(t), Words(b));
    } else {
      assert (t + b)[0] == t[0];
    }
  }

  /** Text cut at a whitespace character splits into the tokens of each side. */
  lemma {:induction false} WordsAppend(a: string, b: string)
    requires (a != [] && IsSpace(a[|a| - 1])) || (b != [] && IsSpace(b[0]))
    ensures Words(a + b) == Words(a) + Words(b)
  {
    if a == [] {
      assert a + b == b;
    } else {
      var c, t := a[0], a[1..];
      if t != [] {
        WordsAppend(t, b);
      }
      WordsAppendCons(c, t, b);
      assert a == [c] + t;
      assert a + b == [c] + (t + b);
    }
  }

  // ---------------------------------------------------------------------------
  // s.rstrip(chars), s.strip()

  /** `w.rstrip(c)`: drop every trailing occurrence of `c`. */
  function RStrip(w: string, c: char): (r: string)
    ensures r <= w
    ensures r == [] || r[|r| - 1] != c
    ensures forall i | |r| <= i < |w| :: w[i] == c
  {
    if w != [] && w[|w| - 1] == c then RStrip(w[..|w| - 1], c) else w
  }

  /** `s.strip()`: drop leading and trailing whitespace. */
  function Strip(s: string): (r: string)
    ensures r == [] || (!IsSpace(r[0]) && !IsSpace(r[|r| - 1]))
    ensures |r| <= |s|
  {
    if s != [] && IsSpace(s[0]) then Strip(s[1..])
    else if s != [] && IsSpace(s[|s| - 1]) then Strip(s[..|s| - 1])
    else s
  }

  // ---------------------------------------------------------------------------
  // int(s) on a string, and str(n)

  predicate AllDigits(s: string) {
    forall i | 0 <= i < |s| :: IsDigit(s[i])
  }

  function DigitsValue(ds: string): nat
    requires AllDigits(ds)
  {
    if ds == [] then 0
    else DigitsValue(ds[..|ds| - 1]) * 10 + (ds[|ds| - 1] as int - '0' as int)
  }

  /** The text is an optional sign followed by at least one decimal digit. */
  predicate IsIntLiteral(t: string) {
    && t != []
    && (IsDigit(t[0]) || ((t[0] == '-' || t[0] == '+') && |t| >= 2))
    && forall i | 1 <= i < |t| :: IsDigit(t[i])
  }

  /**
   * Python 2 `int(s)` in base 10: surrounding whitespace is ignored, then an optional
   * sign and at least one decimal digit; anything else raises ValueError (None here).
   * CPython 2 also skips whitespace between the sign and the digits; that is not
   * modelled, as the strings the balancer converts are `split()` tokens, which hold
   * no whitespace at all.
   */
  function ParseInt(s: string): (r: Option<int>)
    ensures r.Some? <==> IsIntLiteral(Strip(s))
    ensures r.Some? ==>
      var t := Strip(s);
      (t[0] == '-' ==> r.value == -(DigitsValue(t[1..]) as int))
      && (t[0] == '+' ==> r.value == DigitsValue(t[1..]))
      && (IsDigit(t[0]) ==> r.value == DigitsValue(t))
  {
    var t := Strip(s);
    if t != [] && (t[0] == '-' || t[0] == '+') then
      var ds := t[1..];
      if ds != [] && AllDigits(ds) then
        var v: int := DigitsValue(ds);
        Some(if t[0] == '-' then -v else v)
      else None
    else if t != [] && AllDigits(t) then Some(DigitsValue(t))
    else None
  }

  function Digit(d: nat): char
    requires d < 10
  {
    ('0' as int + d) as char
  }

  function ShowNat(n: nat): (s: string)
    ensures s != [] && AllDigits(s)
  {
    if n < 10 then [Digit(n)] else ShowNat(n / 10) + [Digit(n % 10)]
  }

  /** Python `str(n)` for an integer. */
  function ShowInt(n: int): string {
    if n < 0 then "-" + ShowNat(-n) else ShowNat(n)
  }

  lemma {:induction false} DigitsValueShowNat(n: nat)
    ensures DigitsValue(ShowNat(n)) == n
  {
    if n >= 10 {
      DigitsValueShowNat(n / 10);
      var s := ShowNat(n / 10) + [Digit(n % 10)];
      assert s[..|s| - 1] == ShowNat(n / 10);
    }
  }

  /** `int(str(n)) == n`: ParseInt reads back what ShowInt writes. */
  lemma ParseShowInt(n: int)
    ensures ParseInt(ShowInt(n)) == Some(n)
  {
    var s := ShowInt(n);
    if n < 0 {
      DigitsValueShowNat(-n);
      assert s[1..] == ShowNat(-n);
      assert s[|s| - 1] == ShowNat(-n)[|ShowNat(-n)| - 1];
    } else {
      DigitsValueShowNat(n);
      assert IsDigit(s[0]);
    }
    assert !IsSpace(s[0]) && !IsSpace(s[|s| - 1]);
    assert Strip(s) == s;
  }

  // ---------------------------------------------------------------------------
  // int(x) on a float

  /** Python `int(x)` on a float: truncation toward zero. */
  function Trunc(x: real): (r: int)
    ensures x >= 0.0 ==> r as real <= x < r as real + 1.0
    ensures x < 0.0 ==> r as real - 1.0 < x <= r as real
  {
    if x >= 0.0 then x.Floor else -((-x).Floor)
  }

  /** Truncation never crosses an integer bound on the input. */
  lemma TruncBounds(x: real, n: int)
    ensures x <= n as real ==> Trunc(x) <= n
    ensures n as real <= x ==> n <= Trunc(x)
  {
  }
}
