/** `format_duration`: a duration in whole seconds shown as `HH:MM:SS`, or as
    `MM:SS` when it is under an hour, with "Unknown" for a zero duration. A
    reader for that text is given beside it, and the two are shown to round
    trip. */
module Clock {
  import opened Base

  /** `f"{n:02d}"` for a non-negative `n`: at least two digits. */
  function Pad2(n: nat): (r: string)
    ensures 2 <= |r| && AllDigits(r) && ':' !in r
    ensures n < 100 ==> |r| == 2
    ensures ValueOf(r) == n
  {
    DigitsRoundTrip(n);
    if n < 10 then
      var r := "0" + Digits(n);
      assert r[..1] == "0" && r[..1][..0] == [];
      r
    else
      assert n < 100 ==> n / 10 < 10;
      Digits(n)
  }

  /** What `format_duration(seconds)` returns for an integer number of
      seconds. The quotient and remainders are Python's, which for the
      positive divisors used here agree with Dafny's. */
  function FormatDuration(seconds: int): (r: string)
    ensures r == "Unknown" <==> seconds == 0
  {
    if seconds == 0 then "Unknown"
    else
      var hours := seconds / 3600;
      var minutes := (seconds % 3600) / 60;
      var secs := seconds % 60;
      var r := if hours > 0 then Pad2(hours) + ":" + Pad2(minutes) + ":" + Pad2(secs)
               else Pad2(minutes) + ":" + Pad2(secs);
      assert r[2] == ':' || r[|r| - 3] == ':';
      assert "Unknown"[2] != ':' && "Unknown"[4] != ':';
      r
  }

  /** The pieces of `s` between colons (Python's `s.split(':')`). */
  function SplitColon(s: string): (r: seq<string>)
    ensures 1 <= |r|
  {
    if s == [] then [[]]
    else
      var rest := SplitColon(s[1..]);
      if s[0] == ':' then [[]] + rest else [[s[0]] + rest[0]] + rest[1..]
  }

  lemma {:induction false} SplitPlain(a: string)
    requires ':' !in a
    ensures SplitColon(a) == [a]
  {
    if a != [] {
      SplitPlain(a[1..]);
      assert a[0] != ':' by { assert a[0] in a; }
      assert [a[0]] + a[1..] == a;
    }
  }

  lemma {:induction false} SplitAt(a: string, b: string)
    requires ':' !in a
    ensures SplitColon(a + ":" + b) == [a] + SplitColon(b)
  {
    if a == [] {
      assert a + ":" + b == [':'] + b;
      assert ([':'] + b)[1..] == b;
    } else {
      var s := a + ":" + b;
      assert s[0] == a[0] && s[1..] == a[1..] + ":" + b;
      SplitAt(a[1..], b);
      assert [a[0]] + a[1..] == a;
    }
  }

  predicate IsField(f: string) {
    f != [] && AllDigits(f)
  }

  /** The number of seconds a clock text denotes: `M:S` or `H:M:S`, every
      field a non-empty run of digits; None for anything else. */
  function ParseDuration(s: string): Option<int> {
    if s == "Unknown" then Some(0)
    else
      var f := SplitColon(s);
      if |f| == 2 && IsField(f[0]) && IsField(f[1]) then
        Some(ValueOf(f[0]) * 60 + ValueOf(f[1]))
      else if |f| == 3 && IsField(f[0]) && IsField(f[1]) && IsField(f[2]) then
        Some(ValueOf(f[0]) * 3600 + ValueOf(f[1]) * 60 + ValueOf(f[2]))
      else None
  }

  /** The fields `format_duration` writes: hours only for an hour or more,
      minutes and seconds always as two digits below 60. */
  lemma DurationFields(x: int)
    requires x != 0
    ensures var f := SplitColon(FormatDuration(x));
            && (|f| == 3 <==> x >= 3600)
            && (|f| == 2 <==> x < 3600)
            && (forall i :: 0 <= i < |f| ==> IsField(f[i]))
            && |f[|f| - 2]| == 2 && ValueOf(f[|f| - 2]) < 60
            && |f[|f| - 1]| == 2 && ValueOf(f[|f| - 1]) < 60
            && (|f| == 3 ==> 0 < ValueOf(f[0]) && ValueOf(f[0]) * 3600 + ValueOf(f[1]) * 60 + ValueOf(f[2]) == x)
            && (|f| == 2 ==> ValueOf(f[0]) * 60 + ValueOf(f[1]) == x % 3600)
  {
    assert (x % 3600) / 60 * 60 + x % 60 == x % 3600;
    var hours, minutes, secs := x / 3600, (x % 3600) / 60, x % 60;
    var m, s := Pad2(minutes), Pad2(secs);
    SplitPlain(s);
    SplitAt(m, s);
    if hours > 0 {
      var h := Pad2(hours);
      assert FormatDuration(x) == h + ":" + (m + ":" + s);
      SplitAt(h, m + ":" + s);
    } else {
      assert FormatDuration(x) == m + ":" + s;
    }
  }

  /** Reading back what `format_duration` wrote gives the duration for every
      non-negative input. A negative input loses its (negative) hours and
      reads back as its remainder modulo one hour. */
  lemma DurationRoundTrip(x: int)
    ensures ParseDuration(FormatDuration(x)) == Some(if x >= 0 then x else x % 3600)
  {
    if x >= 3600 {
      LongRoundTrip(x);
    } else if x != 0 {
      ShortRoundTrip(x);
      assert 0 < x ==> x % 3600 == x;
    }
  }

  /** The round trip for a duration of an hour or more. */
  lemma LongRoundTrip(x: int)
    requires x >= 3600
    ensures ParseDuration(FormatDuration(x)) == Some(x)
  {
    var f := SplitColon(FormatDuration(x));
    DurationFields(x);
    assert |f| == 3 && IsField(f[0]) && IsField(f[1]) && IsField(f[2]);
  }

  /** The round trip for a duration under an hour, negative ones included. */
  lemma ShortRoundTrip(x: int)
    requires x != 0 && x < 3600
    ensures ParseDuration(FormatDuration(x)) == Some(x % 3600)
  {
    var f := SplitColon(FormatDuration(x));
    DurationFields(x);
    assert |f| == 2 && IsField(f[0]) && IsField(f[1]);
  }
}
