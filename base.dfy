/** Shared vocabulary: optional values, rendered labels and the handful of
    string operations the downloader performs on names and identifiers. */
module Base {

  /** A dictionary lookup that may find nothing. */
  datatype Option<+T> = None | Some(value: T) {
    function GetOr(default: T): T {
      match this
      case Some(v) => v
      case None => default
    }
  }

  /** A user-facing text field. `OneDecimal(x, u)` stands for the string the
      program renders as `f"{x:.1f}{u}"`; the rendering of the real number
      itself is not modelled, its exact value is kept instead. */
  datatype Label = Literal(text: string) | OneDecimal(amount: real, unit: string)

  // ---------------------------------------------------------------------
  // Case mapping (ASCII letters only)

  predicate IsLowerAscii(c: char) { 'a' <= c <= 'z' }

  predicate IsUpperAscii(c: char) { 'A' <= c <= 'Z' }

  function UpperChar(c: char): char {
    if IsLowerAscii(c) then (c as int - 32) as char else c
  }

  function LowerChar(c: char): char {
    if IsUpperAscii(c) then (c as int + 32) as char else c
  }

  /** `str.upper()`, restricted to ASCII letters. */
  function Upper(s: string): (r: string)
    ensures |r| == |s|
    ensures forall i :: 0 <= i < |s| ==> r[i] == UpperChar(s[i])
    ensures forall i :: 0 <= i < |r| ==> !IsLowerAscii(r[i])
  {
    seq(|s|, i requires 0 <= i < |s| => UpperChar(s[i]))
  }

  /** `str.lower()`, restricted to ASCII letters. */
  function Lower(s: string): (r: string)
    ensures |r| == |s|
    ensures forall i :: 0 <= i < |s| ==> r[i] == LowerChar(s[i])
    ensures forall i :: 0 <= i < |r| ==> !IsUpperAscii(r[i])
  {
    seq(|s|, i requires 0 <= i < |s| => LowerChar(s[i]))
  }

  /** No ASCII lower-case letter anywhere in `s`. */
  predicate NoLowerAscii(s: string) {
    forall i :: 0 <= i < |s| ==> !IsLowerAscii(s[i])
  }

  // ---------------------------------------------------------------------
  // Decimal numerals (Python's `str(n)` / `f"{n}"` for a non-negative int)

  predicate IsDigit(c: char) { '0' <= c <= '9' }

  predicate AllDigits(s: string) {
    forall i :: 0 <= i < |s| ==> IsDigit(s[i])
  }

  function DigitChar(d: nat): char
    requires d < 10
  {
    ('0' as int + d) as char
  }

  /** The decimal numeral of `n`, without leading zeros. */
  function Digits(n: nat): (r: string)
    ensures 1 <= |r|
    ensures AllDigits(r)
  {
    if n < 10 then [DigitChar(n)] else Digits(n / 10) + [DigitChar(n % 10)]
  }

  /** The number a string of decimal digits denotes (leading zeros allowed). */
  function ValueOf(s: string): nat
    requires AllDigits(s)
  {
    if s == [] then 0 else ValueOf(s[..|s| - 1]) * 10 + (s[|s| - 1] as int - '0' as int)
  }

  lemma {:induction false} DigitsRoundTrip(n: nat)
    ensures ValueOf(Digits(n)) == n
  {
    if n >= 10 {
      DigitsRoundTrip(n / 10);
      var d := Digits(n);
      assert d[..|d| - 1] == Digits(n / 10);
    }
  }

  // ---------------------------------------------------------------------
  // Substrings

  /** `t` occurs in `s` starting at index `i`. */
  predicate InfixAt(s: string, t: string, i: int) {
    0 <= i && i + |t| <= |s| && s[i..i + |t|] == t
  }

  /** An occurrence after the first character is an occurrence in the rest. */
  lemma InfixShift(s: string, t: string, i: int)
    requires 1 <= i && s != []
    ensures InfixAt(s, t, i) <==> InfixAt(s[1..], t, i - 1)
  {
    if i + |t| <= |s| {
      assert s[1..][i - 1..i - 1 + |t|] == s[i..i + |t|];
    }
  }

  /** Python's `t in s` for strings. */
  function HasInfix(s: string, t: string): (r: bool)
    ensures r <==> exists i :: InfixAt(s, t, i)
    decreases |s|
  {
    if |s| < |t| then false
    else if s[..|t|] == t then assert InfixAt(s, t, 0); true
    else
      var r := HasInfix(s[1..], t);
      assert r ==> exists i :: InfixAt(s, t, i) by {
        if r {
          var j :| InfixAt(s[1..], t, j);
          InfixShift(s, t, j + 1);
        }
      }
      assert (exists i :: InfixAt(s, t, i)) ==> r by {
        if exists i :: InfixAt(s, t, i) {
          var i :| InfixAt(s, t, i);
          assert i != 0;
          InfixShift(s, t, i);
        }
      }
      r
  }

  // ---------------------------------------------------------------------
  // Paths

  /** `os.path.basename` for POSIX paths: what follows the last '/'. */
  function Basename(p: string): string {
    if p == [] then []
    else if p[|p| - 1] == '/' then []
    else Basename(p[..|p| - 1]) + [p[|p| - 1]]
  }

  /** The base name is the suffix after the last '/'. */
  lemma {:induction false} BasenameSuffix(p: string)
    ensures |Basename(p)| <= |p|
    ensures Basename(p) == p[|p| - |Basename(p)|..]
    ensures '/' !in Basename(p)
    ensures |Basename(p)| < |p| ==> p[|p| - |Basename(p)| - 1] == '/'
  {
    if p != [] && p[|p| - 1] != '/' {
      var q, c := p[..|p| - 1], p[|p| - 1];
      assert p == q + [c];
      BasenameSuffix(q);
      var b := Basename(q);
      assert Basename(p) == b + [c];
      SuffixAppend(q, c, |b|);
      assert p[|p| - |b| - 1..] == b + [c];
      assert '/' !in b + [c] by {
        assert forall x :: x in b + [c] <==> x in b || x == c;
      }
      if |b| < |q| {
        assert p[|p| - |b| - 2] == q[|q| - |b| - 1];
      }
    }
  }

  /** A suffix of `q + [c]` that reaches into `q` is a suffix of `q`
      followed by `c`. */
  lemma SuffixAppend(q: string, c: char, n: nat)
    requires n <= |q|
    ensures (q + [c])[|q| - n..] == q[|q| - n..] + [c]
  {
  }

  // ---------------------------------------------------------------------
  // Whitespace

  /** The characters for which Python's `str.isspace()` holds. */
  predicate IsSpace(c: char) {
    c == ' ' || ('\t' <= c <= '\r') || ('\U{1c}' <= c <= '\U{1f}')
    || c == '\U{85}' || c == '\U{a0}' || c == '\U{1680}'
    || ('\U{2000}' <= c <= '\U{200a}') || c == '\U{2028}' || c == '\U{2029}'
    || c == '\U{202f}' || c == '\U{205f}' || c == '\U{3000}'
  }
}
