/** `format_filesize`: a byte count shown with a binary unit. The loop divides
    by 1024 until the value drops below 1024, trying B, KB, MB and GB, and
    falls back to TB. */
module Sizes {
  import opened Base

  /** The unit names, in the order the loop tries them; "TB" is the fallback. */
  const Units: seq<string> := ["B", "KB", "MB", "GB", "TB"]

  function Pow1024(k: nat): (r: nat)
    ensures r >= 1
  {
    if k == 0 then 1 else 1024 * Pow1024(k - 1)
  }

  /** The index in `Units` of the unit a non-zero size is shown in. */
  function UnitIndex(size: int): (k: nat)
    ensures k < |Units|
    ensures k < 4 ==> size < Pow1024(k + 1)
    ensures 0 < k ==> Pow1024(k) <= size
  {
    if size < 1024 then 0
    else if size < 1048576 then 1
    else if size < 1073741824 then 2
    else if size < 1099511627776 then 3
    else 4
  }

  /** What `format_filesize(size)` shows: "Unknown" for a missing or zero
      size, otherwise the size scaled to the unit `UnitIndex` picks. */
  function FilesizeLabel(size: Option<int>): (r: Label)
    ensures r.Literal? <==> size == None || size == Some(0)
    ensures r.Literal? ==> r.text == "Unknown"
    ensures r.OneDecimal? ==> r.unit == " " + Units[UnitIndex(size.value)]
  {
    if size == None || size == Some(0) then Literal("Unknown")
    else
      var k := UnitIndex(size.value);
      OneDecimal(size.value as real / Pow1024(k) as real, " " + Units[k])
  }

  /** The amount shown, times its unit, is the size; it lies below 1024
      (except in TB) and, for every unit above bytes, is at least 1. */
  lemma FilesizeScale(size: Option<int>)
    requires FilesizeLabel(size).OneDecimal?
    ensures var r, k := FilesizeLabel(size), UnitIndex(size.value);
            && r.amount * Pow1024(k) as real == size.value as real
            && (k < 4 ==> r.amount < 1024.0)
            && (0 < k ==> 1.0 <= r.amount)
  {
    var k := UnitIndex(size.value);
    var p := Pow1024(k) as real;
    var amount := FilesizeLabel(size).amount;
    assert amount * p == size.value as real;
    if k < 4 { ScaledBelow(amount, Pow1024(k), size.value); }
    if 0 < k { ScaledAtLeastOne(amount, Pow1024(k), size.value); }
  }

  lemma PowValues()
    ensures Pow1024(1) == 1024 && Pow1024(2) == 1048576 && Pow1024(3) == 1073741824
    ensures Pow1024(4) == 1099511627776
  {
  }

  lemma MulLess(a: real, b: real, c: real)
    requires a < b && 0.0 < c
    ensures a * c < b * c
  {
  }

  lemma ScaledBelow(x: real, p: nat, size: int)
    requires p >= 1 && x * p as real == size as real
    ensures x < 1024.0 <==> size < 1024 * p
  {
    var pr := p as real;
    assert (1024 * p) as real == 1024.0 * pr;
    if x < 1024.0 {
      MulLess(x, 1024.0, pr);
    } else if x > 1024.0 {
      MulLess(1024.0, x, pr);
    }
  }

  lemma ScaledAtLeastOne(x: real, p: nat, size: int)
    requires p >= 1 && x * p as real == size as real && p <= size
    ensures 1.0 <= x
  {
    if x < 1.0 {
      MulLess(x, 1.0, p as real);
    }
  }

  /** The unit index is the one whose range holds the size. */
  lemma UnitIndexIs(n: int, i: nat)
    requires i <= 4
    requires i < 4 ==> n < Pow1024(i + 1)
    requires 0 < i ==> Pow1024(i) <= n
    ensures UnitIndex(n) == i
  {
    PowValues();
  }

  /** Dividing by 1024 while moving up one unit keeps the product. */
  lemma DivideStep(x: real, i: nat)
    ensures (x / 1024.0) * Pow1024(i + 1) as real == x * Pow1024(i) as real
  {
    var p := Pow1024(i);
    assert Pow1024(i + 1) == 1024 * p;
    assert (1024 * p) as real == 1024.0 * p as real;
  }

  /** `format_filesize`, with its loop over the units. */
  method FormatFilesize(size: Option<int>) returns (r: Label)
    ensures r == FilesizeLabel(size)
  {
    if size == None || size == Some(0) {
      return Literal("Unknown");
    }
    var n := size.value;
    var scaled: real := n as real;
    var i := 0;
    while i < 4
      invariant 0 <= i <= 4
      invariant scaled * Pow1024(i) as real == n as real
      invariant 0 < i ==> Pow1024(i) <= n
    {
      ScaledBelow(scaled, Pow1024(i), n);
      if scaled < 1024.0 {
        UnitIndexIs(n, i);
        return OneDecimal(scaled, " " + Units[i]);
      }
      DivideStep(scaled, i);
      scaled := scaled / 1024.0;
      i := i + 1;
    }
    UnitIndexIs(n, 4);
    r := OneDecimal(scaled, " " + Units[4]);
  }
}
