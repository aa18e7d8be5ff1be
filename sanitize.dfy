/** `sanitize_filename`: characters that are not allowed in file names are
    removed, the result is cut to 100 characters, and surrounding whitespace
    is stripped. */
module Sanitize {
  import opened Base

  /** The characters of the class `[<>:"/\\|?*]`. */
  predicate Forbidden(c: char) {
    c == '<' || c == '>' || c == ':' || c == '"' || c == '/' || c == '\\' ||
    c == '|' || c == '?' || c == '*'
  }

  predicate NoForbidden(s: string) {
    forall i :: 0 <= i < |s| ==> !Forbidden(s[i])
  }

  /** `re.sub(r'[<>:"/\\|?*]', '', s)`. */
  function RemoveForbidden(s: string): (r: string)
    ensures |r| <= |s|
    ensures NoForbidden(r)
  {
    if s == [] then []
    else RemoveForbidden(s[..|s| - 1]) + (if Forbidden(s[|s| - 1]) then [] else [s[|s| - 1]])
  }

  /** Every allowed character is kept as many times as it occurs; every
      forbidden one is dropped. */
  lemma {:induction false} RemoveForbiddenCounts(s: string)
    ensures forall c :: multiset(RemoveForbidden(s))[c] == if Forbidden(c) then 0 else multiset(s)[c]
  {
    if s != [] {
      var init, last := s[..|s| - 1], s[|s| - 1];
      assert s == init + [last];
      RemoveForbiddenCounts(init);
    }
  }

  /** Removing forbidden characters works piece by piece, so the order of the
      kept characters is the order in the input. */
  lemma {:induction false} RemoveForbiddenAppend(a: string, b: string)
    ensures RemoveForbidden(a + b) == RemoveForbidden(a) + RemoveForbidden(b)
    decreases |b|
  {
    if b != [] {
      var b', last := b[..|b| - 1], b[|b| - 1];
      assert (a + b)[..|a + b| - 1] == a + b';
      assert (a + b)[|a + b| - 1] == last;
      RemoveForbiddenAppend(a, b');
    } else {
      assert a + b == a;
    }
  }

  /** A name without forbidden characters is left as it is. */
  lemma {:induction false} RemoveForbiddenClean(s: string)
    requires NoForbidden(s)
    ensures RemoveForbidden(s) == s
  {
    if s != [] {
      RemoveForbiddenClean(s[..|s| - 1]);
      assert s == s[..|s| - 1] + [s[|s| - 1]];
    }
  }

  /** `s[:100]` when `len(s) > 100`. */
  function Truncate(s: string): (r: string)
    ensures |r| <= 100
    ensures |s| <= 100 ==> r == s
    ensures 100 < |s| ==> |r| == 100 && r == s[..100]
  {
    if |s| > 100 then s[..100] else s
  }

  /** The number of whitespace characters at the start of `s`. */
  function LeadingSpaces(s: string): (n: nat)
    ensures n <= |s|
    ensures forall i :: 0 <= i < n ==> IsSpace(s[i])
    ensures n < |s| ==> !IsSpace(s[n])
  {
    if s == [] || !IsSpace(s[0]) then 0 else 1 + LeadingSpaces(s[1..])
  }

  /** The number of whitespace characters at the end of `s`. */
  function TrailingSpaces(s: string): (n: nat)
    ensures n <= |s|
    ensures forall i :: |s| - n <= i < |s| ==> IsSpace(s[i])
    ensures n < |s| ==> !IsSpace(s[|s| - n - 1])
  {
    if s == [] || !IsSpace(s[|s| - 1]) then 0 else 1 + TrailingSpaces(s[..|s| - 1])
  }

  /** `str.strip()`: whitespace removed at both ends. Once a non-whitespace
      character has been found, the trailing run cannot reach back to it. */
  function Strip(s: string): (r: string)
    ensures |r| <= |s|
    ensures r == [] || (!IsSpace(r[0]) && !IsSpace(r[|r| - 1]))
  {
    var lead := LeadingSpaces(s);
    if lead == |s| then []
    else
      var trail := TrailingSpaces(s);
      assert lead < |s| - trail by {
        assert !IsSpace(s[lead]);
      }
      s[lead..|s| - trail]
  }

  /** The strip of `s` is the infix that starts at its first non-whitespace
      character, and only whitespace is removed around it. */
  lemma StripInfix(s: string)
    ensures Strip(s) == [] ==> forall i :: 0 <= i < |s| ==> IsSpace(s[i])
    ensures Strip(s) != [] ==>
              var lead := LeadingSpaces(s);
              && lead + |Strip(s)| <= |s|
              && Strip(s) == s[lead..lead + |Strip(s)|]
              && forall i :: lead + |Strip(s)| <= i < |s| ==> IsSpace(s[i])
  {
    var lead, trail := LeadingSpaces(s), TrailingSpaces(s);
    if lead < |s| {
      assert lead < |s| - trail by {
        assert !IsSpace(s[lead]);
      }
      assert Strip(s) == s[lead..|s| - trail];
    }
  }

  /** A string that neither starts nor ends with whitespace is its own
      strip. */
  lemma StripClean(s: string)
    requires s == [] || (!IsSpace(s[0]) && !IsSpace(s[|s| - 1]))
    ensures Strip(s) == s
  {
    if s != [] {
      assert LeadingSpaces(s) == 0;
      assert s[0..] == s;
      assert TrailingSpaces(s) == 0;
    }
  }

  lemma StripKeepsClean(s: string)
    requires NoForbidden(s)
    ensures NoForbidden(Strip(s))
  {
    var r := Strip(s);
    StripInfix(s);
    if r != [] {
      var lead := LeadingSpaces(s);
      forall i | 0 <= i < |r| ensures !Forbidden(r[i]) {
        assert r[i] == s[lead + i];
      }
    }
  }

  /** `sanitize_filename`. */
  function SanitizeFilename(name: string): (r: string)
    ensures NoForbidden(r)
    ensures |r| <= 100
    ensures r == [] || (!IsSpace(r[0]) && !IsSpace(r[|r| - 1]))
  {
    var cut := Truncate(RemoveForbidden(name));
    StripKeepsClean(cut);
    Strip(cut)
  }

  /** A name that contains no forbidden character, is at most 100 characters
      long and has no surrounding whitespace passes through unchanged. */
  lemma SanitizeFixesClean(name: string)
    requires NoForbidden(name) && |name| <= 100
    requires name == [] || (!IsSpace(name[0]) && !IsSpace(name[|name| - 1]))
    ensures SanitizeFilename(name) == name
  {
    RemoveForbiddenClean(name);
    StripClean(name);
  }

  /** Sanitising a sanitised name changes nothing. */
  lemma SanitizeIdempotent(name: string)
    ensures SanitizeFilename(SanitizeFilename(name)) == SanitizeFilename(name)
  {
    SanitizeFixesClean(SanitizeFilename(name));
  }
}
