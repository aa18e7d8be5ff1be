/** The last step of catalog reconciliation (`deduplicate_and_sort_formats`):
    drop every entry whose `(resolution, type, quality)` was already seen,
    then order the survivors with Python's stable `list.sort` in descending
    order of `(0 if 'video' in type else 1, quality)`. */
module Ranking {
  import opened Formats

  // ---------------------------------------------------------------------
  // De-duplication

  function KeySet(s: seq<Entry>): set<DedupKey> {
    set e | e in s :: KeyOf(e)
  }

  predicate DistinctKeys(s: seq<Entry>) {
    forall i, j :: 0 <= i < j < |s| ==> KeyOf(s[i]) != KeyOf(s[j])
  }

  lemma KeySetSnoc(s: seq<Entry>, x: Entry)
    ensures KeySet(s + [x]) == KeySet(s) + {KeyOf(x)}
  {
    var t := s + [x];
    assert forall e :: e in t <==> e in s || e == x;
  }

  /** What the loop over `seen` leaves in `unique_formats`: the entries of `s`
      whose key did not occur earlier, in input order. */
  function Dedup(s: seq<Entry>): seq<Entry> {
    if s == [] then []
    else
      var d := Dedup(s[..|s| - 1]);
      if KeyOf(s[|s| - 1]) in KeySet(d) then d else d + [s[|s| - 1]]
  }

  /** The survivors have pairwise distinct keys, cover every key of the
      input, and are all input entries. */
  lemma {:induction false} DedupKeys(s: seq<Entry>)
    ensures KeySet(Dedup(s)) == KeySet(s)
    ensures DistinctKeys(Dedup(s))
    ensures forall e :: e in Dedup(s) ==> e in s
  {
    if s != [] {
      var p, x := s[..|s| - 1], s[|s| - 1];
      assert s == p + [x];
      DedupKeys(p);
      KeySetSnoc(p, x);
      var d := Dedup(p);
      if KeyOf(x) !in KeySet(d) {
        KeySetSnoc(d, x);
        var r := d + [x];
        forall i, j | 0 <= i < j < |r| ensures KeyOf(r[i]) != KeyOf(r[j]) {
          assert r[i] == d[i] && d[i] in d;
          if j < |d| { assert r[j] == d[j]; }
        }
      }
    }
  }

  /** The position of the first entry of `s` with key `k`. */
  function FirstIndex(s: seq<Entry>, k: DedupKey): (r: nat)
    requires k in KeySet(s)
    ensures r < |s| && KeyOf(s[r]) == k
    ensures forall i :: 0 <= i < r ==> KeyOf(s[i]) != k
  {
    if KeyOf(s[0]) == k then 0
    else
      assert s == [s[0]] + s[1..];
      assert k in KeySet(s[1..]);
      1 + FirstIndex(s[1..], k)
  }

  lemma FirstIndexIs(s: seq<Entry>, k: DedupKey, i: nat)
    requires i < |s| && KeyOf(s[i]) == k
    requires forall j :: 0 <= j < i ==> KeyOf(s[j]) != k
    ensures k in KeySet(s) && FirstIndex(s, k) == i
  {
  }

  lemma FirstIndexPrefix(p: seq<Entry>, x: Entry, k: DedupKey)
    requires k in KeySet(p)
    ensures k in KeySet(p + [x]) && FirstIndex(p + [x], k) == FirstIndex(p, k)
  {
    var s := p + [x];
    var i := FirstIndex(p, k);
    assert forall j :: 0 <= j <= i ==> s[j] == p[j];
    FirstIndexIs(s, k, i);
  }

  lemma FirstIndexLast(p: seq<Entry>, x: Entry)
    requires KeyOf(x) !in KeySet(p)
    ensures KeyOf(x) in KeySet(p + [x]) && FirstIndex(p + [x], KeyOf(x)) == |p|
  {
    var s := p + [x];
    forall j | 0 <= j < |p| ensures KeyOf(s[j]) != KeyOf(x) {
      assert s[j] == p[j] && KeyOf(p[j]) in KeySet(p);
    }
    FirstIndexIs(s, KeyOf(x), |p|);
  }

  /** Each surviving entry is the first one of `s` with its key. */
  lemma {:induction false} DedupKeepsFirst(s: seq<Entry>)
    ensures forall j :: 0 <= j < |Dedup(s)| ==>
              KeyOf(Dedup(s)[j]) in KeySet(s) &&
              Dedup(s)[j] == s[FirstIndex(s, KeyOf(Dedup(s)[j]))]
  {
    if s != [] {
      var p, x := s[..|s| - 1], s[|s| - 1];
      assert s == p + [x];
      DedupKeepsFirst(p);
      DedupKeys(p);
      var d, r := Dedup(p), Dedup(s);
      forall j | 0 <= j < |r|
        ensures KeyOf(r[j]) in KeySet(s) && r[j] == s[FirstIndex(s, KeyOf(r[j]))]
      {
        if j < |d| {
          assert r[j] == d[j];
          FirstIndexPrefix(p, x, KeyOf(d[j]));
        } else {
          assert KeyOf(x) !in KeySet(p) && r[j] == x;
          FirstIndexLast(p, x);
        }
      }
    }
  }

  /** The keys of `r` all occur in `s`, and their first occurrences in `s`
      come in the order of `r`. */
  predicate InFirstOrder(r: seq<Entry>, s: seq<Entry>) {
    && (forall j :: 0 <= j < |r| ==> KeyOf(r[j]) in KeySet(s))
    && (forall j1, j2 :: 0 <= j1 < j2 < |r| ==>
          KeyOf(r[j1]) in KeySet(s) && KeyOf(r[j2]) in KeySet(s) &&
          FirstIndex(s, KeyOf(r[j1])) < FirstIndex(s, KeyOf(r[j2])))
  }

  /** Appending an entry moves no survivor's first occurrence. */
  lemma DedupFirstIndices(p: seq<Entry>, x: Entry)
    ensures forall j :: 0 <= j < |Dedup(p)| ==>
              && KeyOf(Dedup(p)[j]) in KeySet(p) && KeyOf(Dedup(p)[j]) in KeySet(p + [x])
              && FirstIndex(p + [x], KeyOf(Dedup(p)[j])) == FirstIndex(p, KeyOf(Dedup(p)[j])) < |p|
  {
    var d := Dedup(p);
    DedupKeys(p);
    forall j | 0 <= j < |d|
      ensures KeyOf(d[j]) in KeySet(p) && KeyOf(d[j]) in KeySet(p + [x])
      ensures FirstIndex(p + [x], KeyOf(d[j])) == FirstIndex(p, KeyOf(d[j])) < |p|
    {
      assert d[j] in d;
      FirstIndexPrefix(p, x, KeyOf(d[j]));
    }
  }

  lemma DedupOrderExtends(p: seq<Entry>, x: Entry)
    requires InFirstOrder(Dedup(p), p)
    ensures InFirstOrder(Dedup(p), p + [x])
  {
    DedupFirstIndices(p, x);
  }

  /** An entry whose key first occurs after those of `d` extends the order. */
  lemma OrderAppend(d: seq<Entry>, s: seq<Entry>, x: Entry)
    requires InFirstOrder(d, s) && KeyOf(x) in KeySet(s)
    requires forall j :: 0 <= j < |d| ==> FirstIndex(s, KeyOf(d[j])) < FirstIndex(s, KeyOf(x))
    ensures InFirstOrder(d + [x], s)
  {
    var r := d + [x];
    forall j1, j2 | 0 <= j1 < j2 < |r|
      ensures FirstIndex(s, KeyOf(r[j1])) < FirstIndex(s, KeyOf(r[j2]))
    {
      assert r[j1] == d[j1];
      if j2 < |d| { assert r[j2] == d[j2]; }
    }
  }

  /** The survivors keep the order in which their keys first occur. */
  lemma {:induction false} DedupKeepsOrder(s: seq<Entry>)
    ensures InFirstOrder(Dedup(s), s)
  {
    if s != [] {
      var p, x := s[..|s| - 1], s[|s| - 1];
      assert s == p + [x];
      DedupKeepsOrder(p);
      DedupOrderExtends(p, x);
      var d := Dedup(p);
      if KeyOf(x) !in KeySet(d) {
        DedupKeys(p);
        DedupFirstIndices(p, x);
        FirstIndexLast(p, x);
        OrderAppend(d, s, x);
      }
    } else {
      assert Dedup(s) == [];
    }
  }

  /** An entry whose key no other entry shares survives de-duplication. */
  lemma DedupKeepsUnique(s: seq<Entry>, i: nat)
    requires i < |s|
    requires forall j :: 0 <= j < |s| && j != i ==> KeyOf(s[j]) != KeyOf(s[i])
    ensures s[i] in Dedup(s)
  {
    var r := Dedup(s);
    DedupKeys(s);
    assert KeyOf(s[i]) in KeySet(r);
    var e :| e in r && KeyOf(e) == KeyOf(s[i]);
    assert e in s;
    var m :| 0 <= m < |s| && s[m] == e;
    assert m == i;
  }

  // ---------------------------------------------------------------------
  // Stable descending sort

  predicate SortedDesc(s: seq<Entry>) {
    forall i, j :: 0 <= i < j < |s| ==> !KeyBelow(s[i], s[j])
  }

  /** Nothing in a descending sequence ranks above its first entry. */
  lemma FirstNotBelow(s: seq<Entry>, m: nat)
    requires SortedDesc(s) && m < |s|
    ensures !KeyBelow(s[0], s[m])
  {
  }

  /** Place `x` after every entry whose sort key is not below its own. */
  function Insert(x: Entry, s: seq<Entry>): seq<Entry> {
    if s == [] then [x]
    else if KeyBelow(s[0], x) then [x] + s
    else [s[0]] + Insert(x, s[1..])
  }

  /** Insertion adds exactly the one entry. */
  lemma {:induction false} InsertCounts(x: Entry, s: seq<Entry>)
    ensures multiset(Insert(x, s)) == multiset(s) + multiset{x}
  {
    if s != [] && !KeyBelow(s[0], x) {
      InsertCounts(x, s[1..]);
      assert s == [s[0]] + s[1..];
    }
  }

  lemma InsertMembers(x: Entry, s: seq<Entry>)
    ensures forall y :: y in Insert(x, s) <==> y == x || y in s
  {
    var r := Insert(x, s);
    InsertCounts(x, s);
    assert forall y :: y in r <==> y in multiset(r);
    assert forall y :: y in s <==> y in multiset(s);
  }

  lemma {:induction false} InsertSorted(x: Entry, s: seq<Entry>)
    requires SortedDesc(s)
    ensures SortedDesc(Insert(x, s))
  {
    if s != [] && !KeyBelow(s[0], x) {
      var t := Insert(x, s[1..]);
      InsertSorted(x, s[1..]);
      InsertMembers(x, s[1..]);
      forall y | y in t ensures !KeyBelow(s[0], y) {
        if y != x {
          var j :| 0 <= j < |s[1..]| && s[1..][j] == y;
          assert s[j + 1] == y;
        }
      }
      var r := Insert(x, s);
      assert r == [s[0]] + t;
      forall i, j | 0 <= i < j < |r| ensures !KeyBelow(r[i], r[j]) {
        assert r[j] == t[j - 1] && r[j] in t;
        if i > 0 { assert r[i] == t[i - 1]; }
      }
    }
  }

  /** `list.sort(key=..., reverse=True)`: Python's sort is stable, also in
      reverse, so this is insertion of each element after its equals. */
  function SortDesc(s: seq<Entry>): (r: seq<Entry>)
    ensures multiset(r) == multiset(s)
    ensures SortedDesc(r)
  {
    if s == [] then []
    else
      assert s == s[..|s| - 1] + [s[|s| - 1]];
      InsertSorted(s[|s| - 1], SortDesc(s[..|s| - 1]));
      InsertCounts(s[|s| - 1], SortDesc(s[..|s| - 1]));
      Insert(s[|s| - 1], SortDesc(s[..|s| - 1]))
  }

  lemma SortMembers(s: seq<Entry>)
    ensures forall y :: y in SortDesc(s) <==> y in s
  {
    var r := SortDesc(s);
    assert forall y :: y in r <==> y in multiset(r);
    assert forall y :: y in s <==> y in multiset(s);
  }

  /** The entries of `s` whose sort key is `(g, q)`, in order. */
  function TiedWith(s: seq<Entry>, g: int, q: int): seq<Entry> {
    if s == [] then []
    else (if Group(s[0]) == g && s[0].quality == q then [s[0]] else []) + TiedWith(s[1..], g, q)
  }

  lemma {:induction false} TiedWithAppend(a: seq<Entry>, b: seq<Entry>, g: int, q: int)
    ensures TiedWith(a + b, g, q) == TiedWith(a, g, q) + TiedWith(b, g, q)
  {
    if a != [] {
      var h := if Group(a[0]) == g && a[0].quality == q then [a[0]] else [];
      assert (a + b)[0] == a[0];
      assert (a + b)[1..] == a[1..] + b;
      TiedWithAppend(a[1..], b, g, q);
      calc {
        TiedWith(a + b, g, q);
        h + TiedWith(a[1..] + b, g, q);
        h + (TiedWith(a[1..], g, q) + TiedWith(b, g, q));
        (h + TiedWith(a[1..], g, q)) + TiedWith(b, g, q);
      }
    } else {
      assert a + b == b;
    }
  }

  lemma {:induction false} TiedWithNone(s: seq<Entry>, g: int, q: int)
    requires forall y :: y in s ==> Group(y) < g || (Group(y) == g && y.quality < q)
    ensures TiedWith(s, g, q) == []
  {
    if s != [] {
      assert s[0] in s;
      assert forall y :: y in s[1..] ==> y in s;
      TiedWithNone(s[1..], g, q);
    }
  }

  lemma SortedBelow(x: Entry, s: seq<Entry>)
    requires SortedDesc(s) && s != [] && KeyBelow(s[0], x)
    ensures forall y :: y in s ==> KeyBelow(y, x)
  {
    forall y | y in s ensures KeyBelow(y, x) {
      var j :| 0 <= j < |s| && s[j] == y;
      assert j == 0 || !KeyBelow(s[0], s[j]);
    }
  }

  /** The entry itself when it carries the sort key `(g, q)`. */
  function TiedHead(x: Entry, g: int, q: int): seq<Entry> {
    if Group(x) == g && x.quality == q then [x] else []
  }

  lemma TiedWithCons(x: Entry, s: seq<Entry>, g: int, q: int)
    ensures TiedWith([x] + s, g, q) == TiedHead(x, g, q) + TiedWith(s, g, q)
  {
    var r := [x] + s;
    assert r[0] == x && r[1..] == s;
  }

  lemma SortedTail(s: seq<Entry>)
    requires SortedDesc(s) && s != []
    ensures SortedDesc(s[1..])
  {
    forall i, j | 0 <= i < j < |s| - 1 ensures !KeyBelow(s[1..][i], s[1..][j]) {
      assert s[1..][i] == s[i + 1] && s[1..][j] == s[j + 1];
    }
  }

  /** Inserting in front of a sorted sequence adds no tie behind the entry. */
  lemma InsertTiedFront(x: Entry, s: seq<Entry>, g: int, q: int)
    requires SortedDesc(s) && s != [] && KeyBelow(s[0], x)
    ensures TiedWith(Insert(x, s), g, q) == TiedWith(s, g, q) + TiedHead(x, g, q)
  {
    assert Insert(x, s) == [x] + s;
    TiedWithCons(x, s, g, q);
    if TiedHead(x, g, q) != [] {
      SortedBelow(x, s);
      TiedWithNone(s, g, q);
    }
  }

  lemma {:induction false} InsertTied(x: Entry, s: seq<Entry>, g: int, q: int)
    requires SortedDesc(s)
    ensures TiedWith(Insert(x, s), g, q) == TiedWith(s, g, q) + TiedHead(x, g, q)
  {
    if s == [] {
      TiedWithCons(x, [], g, q);
    } else if KeyBelow(s[0], x) {
      InsertTiedFront(x, s, g, q);
    } else {
      var t := Insert(x, s[1..]);
      assert Insert(x, s) == [s[0]] + t;
      SortedTail(s);
      InsertTied(x, s[1..], g, q);
      TiedWithCons(s[0], t, g, q);
      assert s == [s[0]] + s[1..];
      TiedWithCons(s[0], s[1..], g, q);
    }
  }

  /** Stability: for every sort key, the entries carrying it come out in the
      order they went in. With the multiset equation this pins the sort down. */
  lemma {:induction false} SortDescStable(s: seq<Entry>, g: int, q: int)
    ensures TiedWith(SortDesc(s), g, q) == TiedWith(s, g, q)
  {
    if s != [] {
      var p, x := s[..|s| - 1], s[|s| - 1];
      assert s == p + [x];
      SortDescStable(p, g, q);
      InsertTied(x, SortDesc(p), g, q);
      TiedWithAppend(p, [x], g, q);
      TiedWithCons(x, [], g, q);
    }
  }

  lemma {:induction false} InsertKeepsDistinct(x: Entry, s: seq<Entry>)
    requires DistinctKeys(s)
    requires forall y :: y in s ==> KeyOf(y) != KeyOf(x)
    ensures DistinctKeys(Insert(x, s))
  {
    if s != [] && !KeyBelow(s[0], x) {
      var t := Insert(x, s[1..]);
      InsertKeepsDistinct(x, s[1..]);
      InsertMembers(x, s[1..]);
      forall y | y in t ensures KeyOf(y) != KeyOf(s[0]) {
        if y != x {
          var j :| 0 <= j < |s[1..]| && s[1..][j] == y;
          assert s[j + 1] == y;
        } else {
          assert s[0] in s;
        }
      }
      var r := Insert(x, s);
      assert r == [s[0]] + t;
      forall i, j | 0 <= i < j < |r| ensures KeyOf(r[i]) != KeyOf(r[j]) {
        assert r[j] == t[j - 1] && r[j] in t;
        if i > 0 { assert r[i] == t[i - 1]; }
      }
    } else if s != [] {
      var r := [x] + s;
      assert Insert(x, s) == r;
      forall i, j | 0 <= i < j < |r| ensures KeyOf(r[i]) != KeyOf(r[j]) {
        assert r[j] == s[j - 1] && r[j] in s;
        if i > 0 { assert r[i] == s[i - 1]; }
      }
    }
  }

  lemma {:induction false} SortKeepsDistinct(s: seq<Entry>)
    requires DistinctKeys(s)
    ensures DistinctKeys(SortDesc(s))
  {
    if s != [] {
      var p, x := s[..|s| - 1], s[|s| - 1];
      assert s == p + [x];
      SortKeepsDistinct(p);
      SortMembers(p);
      var sp := SortDesc(p);
      forall y | y in sp ensures KeyOf(y) != KeyOf(x) {
        var j :| 0 <= j < |p| && p[j] == y;
        assert s[j] == y;
      }
      InsertKeepsDistinct(x, sp);
    }
  }

  // ---------------------------------------------------------------------
  // The operation

  /** `deduplicate_and_sort_formats`: a `seen` set and an output list grown in
      one pass, then the stable reverse sort. */
  method DeduplicateAndSort(formats: seq<Entry>) returns (r: seq<Entry>)
    ensures r == SortDesc(Dedup(formats))
    ensures DistinctKeys(r) && SortedDesc(r)
    ensures KeySet(r) == KeySet(formats)
    ensures forall e :: e in r ==> e in formats
  {
    var seen: set<DedupKey> := {};
    var unique: seq<Entry> := [];
    for i := 0 to |formats|
      invariant unique == Dedup(formats[..i])
      invariant seen == KeySet(unique)
    {
      assert formats[..i + 1] == formats[..i] + [formats[i]];
      var key := KeyOf(formats[i]);
      if key !in seen {
        KeySetSnoc(unique, formats[i]);
        seen := seen + {key};
        unique := unique + [formats[i]];
      }
    }
    assert formats[..|formats|] == formats;
    DedupKeys(formats);
    SortKeepsDistinct(unique);
    SortMembers(unique);
    r := SortDesc(unique);
  }
}
