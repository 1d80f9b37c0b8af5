/**
 * The Python string built-ins the forum relies on: `str.isspace`,
 * `str.strip()`, `str.split()` with no argument, `int()` on a string and
 * `str()` on an integer. Only ASCII digits are read as digits.
 */
module PyText {
  import opened Wrappers

  /** `c.isspace()`: the characters `str.split()` and `str.strip()` treat as whitespace. */
  predicate IsSpace(c: char)
  {
    ('\t' <= c <= '\r') || ('\U{1c}' <= c <= '\U{1f}') || c == ' ' || c == '\U{85}' || c == '\U{a0}'
    || c == '\U{1680}' || ('\U{2000}' <= c <= '\U{200a}') || c == '\U{2028}' || c == '\U{2029}'
    || c == '\U{202f}' || c == '\U{205f}' || c == '\U{3000}'
  }

  predicate NoSpace(s: string)
  {
    forall i :: 0 <= i < |s| ==> !IsSpace(s[i])
  }

  function TrimLeft(s: string): (r: string)
    ensures |r| <= |s|
    ensures r == [] || !IsSpace(r[0])
    ensures forall i :: 0 <= i < |s| - |r| ==> IsSpace(s[i])
  {
    if s != [] && IsSpace(s[0]) then TrimLeft(s[1..]) else s
  }

  function TrimRight(s: string): (r: string)
    ensures |r| <= |s| && r == s[..|r|]
    ensures r == [] || !IsSpace(r[|r| - 1])
    ensures forall i :: |r| <= i < |s| ==> IsSpace(s[i])
  {
    if s != [] && IsSpace(s[|s| - 1]) then TrimRight(s[..|s| - 1]) else s
  }

  /** `s.strip()`: no leading or trailing whitespace is left, and a word without whitespace is kept as it is. */
  function Strip(s: string): (r: string)
    ensures r == [] || (!IsSpace(r[0]) && !IsSpace(r[|r| - 1]))
    ensures NoSpace(s) ==> r == s
    ensures |r| <= |s|
  {
    var t := TrimLeft(s);
    assert NoSpace(s) && s != [] ==> t == s;
    TrimRight(t)
  }

  /** The leading run of non-space characters. */
  function Word(s: string): (r: string)
    ensures |r| <= |s| && r == s[..|r|] && NoSpace(r)
    ensures |r| == |s| || IsSpace(s[|r|])
    ensures s != [] && !IsSpace(s[0]) ==> r != []
  {
    if s == [] || IsSpace(s[0]) then [] else [s[0]] + Word(s[1..])
  }

  /** `s.split()`: the maximal runs of non-space characters, in order. */
  function Split(s: string): (r: seq<string>)
    decreases |s|
    ensures forall i :: 0 <= i < |r| ==> r[i] != [] && NoSpace(r[i])
  {
    var t := TrimLeft(s);
    if t == [] then []
    else
      var w := Word(t);
      [w] + Split(t[|w|..])
  }

  /** `" ".join(words)`. */
  function JoinSpace(words: seq<string>): string
  {
    if words == [] then []
    else if |words| == 1 then words[0]
    else words[0] + " " + JoinSpace(words[1..])
  }

  lemma WordOfJoin(w: string, rest: string)
    requires NoSpace(w)
    requires rest == [] || IsSpace(rest[0])
    ensures Word(w + rest) == w
  {
    if w != [] {
      assert (w + rest)[1..] == w[1..] + rest;
      WordOfJoin(w[1..], rest);
    }
  }

  lemma SplitSkipsSpace(c: char, s: string)
    requires IsSpace(c)
    ensures Split([c] + s) == Split(s)
  {
    assert ([c] + s)[1..] == s;
  }

  /** Every character of `s` is whitespace. */
  predicate AllSpace(s: string)
  {
    forall i :: 0 <= i < |s| ==> IsSpace(s[i])
  }

  /** Leading whitespace is skipped entirely. */
  lemma {:induction false} TrimLeftOfSpace(p: string, s: string)
    requires AllSpace(p)
    ensures TrimLeft(p + s) == TrimLeft(s)
  {
    if p == [] {
      assert p + s == s;
    } else {
      assert (p + s)[0] == p[0];
      assert (p + s)[1..] == p[1..] + s;
      TrimLeftOfSpace(p[1..], s);
    }
  }

  /** Trailing whitespace is dropped entirely. */
  lemma {:induction false} TrimRightOfSpace(s: string, q: string)
    requires AllSpace(q)
    requires s == [] || !IsSpace(s[|s| - 1])
    ensures TrimRight(s + q) == s
  {
    if q == [] {
      assert s + q == s;
    } else {
      var sq := s + q;
      assert sq[|sq| - 1] == q[|q| - 1];
      assert sq[..|sq| - 1] == s + q[..|q| - 1];
      TrimRightOfSpace(s, q[..|q| - 1]);
    }
  }

  /** `strip()` removes exactly the surrounding whitespace: a core with no whitespace at either end comes back. */
  lemma StripPadded(p: string, core: string, q: string)
    requires AllSpace(p) && AllSpace(q)
    requires core == [] || (!IsSpace(core[0]) && !IsSpace(core[|core| - 1]))
    ensures Strip(p + core + q) == core
  {
    assert p + core + q == p + (core + q);
    TrimLeftOfSpace(p, core + q);
    if core == [] {
      assert core + q == q;
      TrimLeftOfSpace(q, []);
      assert q + [] == q;
    } else {
      assert (core + q)[0] == core[0];
    }
    TrimRightOfSpace(core, q);
  }

  /** A string of whitespace alone strips to nothing. */
  lemma StripOfSpace(s: string)
    ensures AllSpace(s) ==> Strip(s) == []
  {
    if AllSpace(s) {
      StripPadded(s, [], []);
      assert s + [] + [] == s;
    }
  }

  /** A string of whitespace alone splits into no tokens. */
  lemma SplitOfSpace(p: string)
    requires AllSpace(p)
    ensures Split(p) == []
  {
    TrimLeftOfSpace(p, []);
    assert p + [] == p;
  }

  /**
   * `split()` reads one token at a time: after any run of whitespace, a
   * whitespace-free word ending at whitespace (or at the end) is the next
   * token, and splitting goes on with what follows it.
   */
  lemma SplitWordThenRest(p: string, w: string, q: string)
    requires AllSpace(p)
    requires w != [] && NoSpace(w)
    requires q == [] || IsSpace(q[0])
    ensures Split(p + w + q) == [w] + Split(q)
  {
    assert p + w + q == p + (w + q);
    TrimLeftOfSpace(p, w + q);
    assert (w + q)[0] == w[0];
    WordOfJoin(w, q);
    assert (w + q)[|w|..] == q;
  }

  /** Two words separated by any run of whitespace, with any whitespace around them, split into those two words. */
  lemma SplitTwoWords(p: string, a: string, m: string, b: string, q: string)
    requires AllSpace(p) && AllSpace(m) && AllSpace(q) && m != []
    requires a != [] && NoSpace(a) && b != [] && NoSpace(b)
    ensures Split(p + a + m + b + q) == [a, b]
  {
    SplitWordThenRest(m, b, q);
    SplitOfSpace(q);
    var rest := m + b + q;
    assert IsSpace(rest[0]) by {
      assert rest[0] == m[0];
    }
    SplitWordThenRest(p, a, rest);
    ConcatAssoc(p + a, m, b, q);
  }

  lemma ConcatAssoc<T>(x: seq<T>, y: seq<T>, z: seq<T>, u: seq<T>)
    ensures x + y + z + u == x + (y + z + u)
  {
  }

  /** Splitting words that were joined with single spaces gives the words back. */
  lemma {:induction false} SplitJoinSpace(words: seq<string>)
    requires forall i :: 0 <= i < |words| ==> words[i] != [] && NoSpace(words[i])
    ensures Split(JoinSpace(words)) == words
  {
    if words != [] {
      var w := words[0];
      if |words| == 1 {
        WordOfJoin(w, []);
        assert w + [] == w;
        assert TrimLeft(w) == w;
        assert w[|w|..] == [];
      } else {
        var rest := JoinSpace(words[1..]);
        var s := w + " " + rest;
        assert s == w + ([' '] + rest);
        assert TrimLeft(s) == s;
        WordOfJoin(w, [' '] + rest);
        assert s[|w|..] == [' '] + rest;
        SplitSkipsSpace(' ', rest);
        SplitJoinSpace(words[1..]);
      }
    }
  }

  predicate IsDigit(c: char)
  {
    '0' <= c <= '9'
  }

  function DigitValue(c: char): nat
    requires IsDigit(c)
  {
    (c as int) - ('0' as int)
  }

  function DigitChar(d: nat): char
    requires d < 10
  {
    (('0' as int) + d) as char
  }

  /** A decimal literal as `int()` accepts it: digits, with single underscores between two digits. */
  predicate WellFormedDigits(t: string)
  {
    && |t| > 0
    && IsDigit(t[0])
    && IsDigit(t[|t| - 1])
    && (forall i :: 0 <= i < |t| ==> IsDigit(t[i]) || t[i] == '_')
    && (forall i :: 0 <= i < |t| - 1 ==> !DoubleUnderscoreAt(t, i))
  }

  predicate DoubleUnderscoreAt(t: string, i: nat)
    requires i + 1 < |t|
  {
    t[i] == '_' && t[i + 1] == '_'
  }

  /** The value of a digit string, the underscores being ignored. */
  function DigitsValue(t: string): nat
    requires forall i :: 0 <= i < |t| ==> IsDigit(t[i]) || t[i] == '_'
  {
    if t == [] then 0
    else
      var last := t[|t| - 1];
      var v := DigitsValue(t[..|t| - 1]);
      if last == '_' then v else v * 10 + DigitValue(last)
  }

  /**
   * The information separators U+001C to U+001F: `isspace()` holds of them,
   * but `int()` passes ASCII characters through unchanged and then skips only
   * the ASCII blanks, so a string holding one of them never parses.
   */
  predicate IsSeparator(c: char)
  {
    '\U{1c}' <= c <= '\U{1f}'
  }

  predicate NoSeparator(s: string)
  {
    forall i :: 0 <= i < |s| ==> !IsSeparator(s[i])
  }

  /**
   * `sys.int_info.default_max_str_digits`: `int()` refuses a decimal string
   * with more digits than this, and `str()` an integer with more digits.
   */
  const MaxStrDigits: nat := 4300

  /** The digits of a literal; the underscores between them do not count toward the limit. */
  function DigitCount(t: string): (r: nat)
    ensures r <= |t|
  {
    if t == [] then 0 else (if IsDigit(t[0]) then 1 else 0) + DigitCount(t[1..])
  }

  lemma {:induction false} DigitCountOfDigits(d: string)
    requires forall i :: 0 <= i < |d| ==> IsDigit(d[i])
    ensures DigitCount(d) == |d|
  {
    if d != [] {
      DigitCountOfDigits(d[1..]);
    }
  }

  /**
   * `int(s)` for a string: surrounding whitespace and one sign are allowed,
   * and at most `MaxStrDigits` digits; `None` stands for the ValueError
   * Python raises on anything else.
   */
  function ParseInt(s: string): (r: Option<int>)
    ensures !NoSeparator(s) ==> r.None?
    ensures r.Some? ==> Strip(s) != [] && IsDigit(Strip(s)[|Strip(s)| - 1])
    ensures r.Some? && r.value < 0 ==> Strip(s)[0] == '-'
  {
    if !NoSeparator(s) then None else ParseStripped(Strip(s))
  }

  /** The sign and digits that `int()` reads once the surrounding whitespace is gone. */
  function ParseStripped(t: string): Option<int>
  {
    if |t| > 0 && (t[0] == '+' || t[0] == '-') then
      var body := t[1..];
      if WellFormedDigits(body) && DigitCount(body) <= MaxStrDigits then
        var n: int := DigitsValue(body);
        var v: int := if t[0] == '-' then -n else n;
        Some(v)
      else None
    else if WellFormedDigits(t) && DigitCount(t) <= MaxStrDigits then Some(DigitsValue(t))
    else None
  }

  /** The base-ten digits of `n`, most significant first, as `str(n)` writes them. */
  function DecimalDigits(n: nat): (r: string)
    ensures |r| > 0
    ensures forall i :: 0 <= i < |r| ==> IsDigit(r[i])
  {
    if n < 10 then [DigitChar(n)] else DecimalDigits(n / 10) + [DigitChar(n % 10)]
  }

  /** `str(n)` for an integer. */
  function IntToStr(n: int): string
  {
    if n < 0 then "-" + DecimalDigits(-n) else DecimalDigits(n)
  }

  /** `str(n)` succeeds: `n` has at most `MaxStrDigits` decimal digits. */
  predicate Renderable(n: int)
  {
    |DecimalDigits(if n < 0 then -n else n)| <= MaxStrDigits
  }

  lemma {:induction false} DecimalDigitsValue(n: nat)
    ensures DigitsValue(DecimalDigits(n)) == n
  {
    var d := DecimalDigits(n);
    if n >= 10 {
      DecimalDigitsValue(n / 10);
      assert d[..|d| - 1] == DecimalDigits(n / 10);
    }
  }

  /** Digits are not whitespace. */
  lemma DigitsNoSpace(d: string)
    requires forall i :: 0 <= i < |d| ==> IsDigit(d[i])
    ensures NoSpace(d) && NoSeparator(d)
  {
  }

  /** A plain run of digits parses to its value. */
  lemma ParseIntOfDigits(d: string)
    requires |d| > 0 && forall i :: 0 <= i < |d| ==> IsDigit(d[i])
    requires |d| <= MaxStrDigits
    ensures ParseInt(d) == Some(DigitsValue(d))
  {
    DigitsNoSpace(d);
    DigitCountOfDigits(d);
    assert Strip(d) == d;
    assert WellFormedDigits(d) && !(d[0] == '+' || d[0] == '-');
    assert ParseStripped(d) == Some(DigitsValue(d));
  }

  /** A minus sign and digits hold no whitespace, so stripping keeps them. */
  lemma NegatedDigitsStripped(d: string)
    requires forall i :: 0 <= i < |d| ==> IsDigit(d[i])
    ensures NoSpace("-" + d) && NoSeparator("-" + d) && Strip("-" + d) == "-" + d
  {
    var s := "-" + d;
    DigitsNoSpace(d);
    assert NoSpace(s) && NoSeparator(s) by {
      forall i | 0 <= i < |s|
        ensures !IsSpace(s[i]) && !IsSeparator(s[i])
      {
        if i > 0 {
          assert s[i] == d[i - 1];
        }
      }
    }
  }

  /** A minus sign before a run of digits negates its value. */
  lemma ParseIntOfNegated(s: string, d: string)
    requires |d| > 0 && forall i :: 0 <= i < |d| ==> IsDigit(d[i])
    requires s == "-" + d
    requires |d| <= MaxStrDigits
    ensures NoSpace(s) && NoSeparator(s) && Strip(s) == s && WellFormedDigits(s[1..])
    ensures ParseInt(s) == Some(-(DigitsValue(d) as int))
  {
    NegatedDigitsStripped(d);
    DigitCountOfDigits(d);
    assert s[1..] == d;
    assert WellFormedDigits(d);
  }

  /** `int(str(n)) == n`: every integer `str()` can render parses back to itself. */
  lemma ParseIntRoundTrip(n: int)
    requires Renderable(n)
    ensures ParseInt(IntToStr(n)) == Some(n)
  {
    if n < 0 {
      ParseNegativeRoundTrip(n);
    } else {
      DecimalDigitsValue(n);
      ParseIntOfDigits(DecimalDigits(n));
    }
  }

  lemma ParseNegativeRoundTrip(n: int)
    requires n < 0 && Renderable(n)
    ensures ParseInt(IntToStr(n)) == Some(n)
  {
    var d := DecimalDigits(-n);
    DecimalDigitsValue(-n);
    assert IntToStr(n) == "-" + d;
    ParseIntOfNegated(IntToStr(n), d);
    assert -(DigitsValue(d) as int) == n;
  }

  /** A page or id holding an information separator is a ValueError, although `isspace()` holds of the separator. */
  lemma ParseIntRefusesSeparator(p: string, n: int)
    requires |p| > 0 && IsSeparator(p[0])
    ensures IsSpace(p[0])
    ensures ParseInt(p + IntToStr(n)) == None
  {
    assert (p + IntToStr(n))[0] == p[0];
  }

  /** `int()` skips the whitespace around a rendered integer, as long as it holds no information separator. */
  lemma ParseIntOfPadded(p: string, n: int, q: string)
    requires AllSpace(p) && AllSpace(q) && NoSeparator(p) && NoSeparator(q)
    requires Renderable(n)
    ensures ParseInt(p + IntToStr(n) + q) == Some(n)
  {
    var core := IntToStr(n);
    var d := if n < 0 then DecimalDigits(-n) else DecimalDigits(n);
    DigitsNoSpace(d);
    if n < 0 {
      NegatedDigitsStripped(d);
    }
    assert NoSpace(core) && NoSeparator(core);
    StripPadded(p, core, q);
    var s := p + core + q;
    assert NoSeparator(s) by {
      forall i | 0 <= i < |s|
        ensures !IsSeparator(s[i])
      {
        if i < |p| {
          assert s[i] == p[i];
        } else if i < |p| + |core| {
          assert s[i] == core[i - |p|];
        } else {
          assert s[i] == q[i - |p| - |core|];
        }
      }
    }
    ParseIntRoundTrip(n);
  }

  /** A run of more than `MaxStrDigits` digits is a ValueError, however the digits read. */
  lemma ParseIntRefusesLong(d: string)
    requires forall i :: 0 <= i < |d| ==> IsDigit(d[i])
    requires |d| > MaxStrDigits
    ensures ParseInt(d) == None
    ensures ParseInt("-" + d) == None
  {
    DigitsNoSpace(d);
    DigitCountOfDigits(d);
    assert Strip(d) == d;
    NegatedDigitsStripped(d);
    assert ("-" + d)[1..] == d;
  }
}
