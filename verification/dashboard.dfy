/**
 * The dashboard: the client-side filter over the loaded catalog, which mirrors the
 * server's search, and the sorted list of distinct categories offered in the selector.
 */
module Dashboard {
  import opened Wrappers
  import opened Text
  import opened Domain
  import opened Inventory

  /** `matches(s)`: each set filter may reject the sweet; a sweet no filter rejects matches. */
  predicate Matches(f: Filter, s: Sweet)
  {
    if f.q != "" && !ContainsIgnoringCase(s.name, f.q) then false
    else if f.category != "" && s.category != f.category then false
    else if f.min.Some? && s.price < f.min.value then false
    else if f.max.Some? && s.price > f.max.value then false
    else true
  }

  /**
   * The client filter and the server's search agree on every sweet: both are the
   * conjunction of the set filters.
   */
  lemma MatchesMirrorsSearch(f: Filter, s: Sweet)
    ensures Matches(f, s) <==> SatisfiesAll(BuildQuery(f), s)
    ensures Matches(f, s) <==>
      && (f.q == "" || ContainsIgnoringCase(s.name, f.q))
      && (f.category == "" || s.category == f.category)
      && (f.min.None? || f.min.value <= s.price)
      && (f.max.None? || s.price <= f.max.value)
  {
    QueryMeaning(f, s);
  }

  /** `sweets.filter(matches)`: the grid, in catalog order. */
  function Visible(sweets: seq<Sweet>, f: Filter): (r: seq<Sweet>)
    ensures forall s :: s in r <==> s in sweets && Matches(f, s)
    ensures |r| <= |sweets|
  {
    if sweets == [] then []
    else (if Matches(f, sweets[0]) then [sweets[0]] else []) + Visible(sweets[1..], f)
  }

  /** The grid keeps catalog order: filtering distributes over concatenation. */
  lemma {:induction false} VisibleConcat(a: seq<Sweet>, b: seq<Sweet>, f: Filter)
    ensures Visible(a + b, f) == Visible(a, f) + Visible(b, f)
  {
    if a == [] {
      assert a + b == b;
    } else {
      assert (a + b)[0] == a[0];
      assert (a + b)[1..] == a[1..] + b;
      VisibleConcat(a[1..], b, f);
    }
  }

  /** The "no sweets match" note is shown once loading is done and the grid is empty. */
  predicate ShowsNoMatch(loading: bool, sweets: seq<Sweet>, f: Filter)
  {
    !loading && |Visible(sweets, f)| == 0
  }

  lemma NoMatchNote(loading: bool, sweets: seq<Sweet>, f: Filter)
    ensures ShowsNoMatch(loading, sweets, f) <==> !loading && forall i :: 0 <= i < |sweets| ==> !Matches(f, sweets[i])
  {
    var v := Visible(sweets, f);
    if exists i :: 0 <= i < |sweets| && Matches(f, sweets[i]) {
      var i :| 0 <= i < |sweets| && Matches(f, sweets[i]);
      assert sweets[i] in sweets;
      assert sweets[i] in v;
    }
    if |v| != 0 {
      assert v[0] in v;
    }
  }

  /** Strict lexicographic order on strings, the order `sort()` puts them in. */
  predicate Below(a: string, b: string)
  {
    if a == [] then b != []
    else if b == [] then false
    else if a[0] != b[0] then a[0] < b[0]
    else Below(a[1..], b[1..])
  }

  lemma {:induction false} BelowIrreflexive(a: string)
    ensures !Below(a, a)
  {
    if a != [] {
      BelowIrreflexive(a[1..]);
    }
  }

  lemma {:induction false} BelowTransitive(a: string, b: string, c: string)
    requires Below(a, b) && Below(b, c)
    ensures Below(a, c)
  {
    if a != [] && b != [] && c != [] && a[0] == b[0] && b[0] == c[0] {
      BelowTransitive(a[1..], b[1..], c[1..]);
    }
  }

  lemma {:induction false} BelowTotal(a: string, b: string)
    requires a != b
    ensures Below(a, b) || Below(b, a)
  {
    if a != [] && b != [] && a[0] == b[0] {
      assert a == [a[0]] + a[1..] && b == [b[0]] + b[1..];
      BelowTotal(a[1..], b[1..]);
    }
  }

  /** Sorted with no repeats. */
  predicate StrictlySorted(xs: seq<string>)
  {
    forall i, j :: 0 <= i < j < |xs| ==> Below(xs[i], xs[j])
  }

  /** Puts `c` in its place in a sorted list, once. */
  function Insert(c: string, xs: seq<string>): (r: seq<string>)
    ensures forall x :: x in r <==> x == c || x in xs
  {
    if xs == [] then [c]
    else if c == xs[0] then xs
    else if Below(c, xs[0]) then [c] + xs
    else [xs[0]] + Insert(c, xs[1..])
  }

  lemma {:induction false} InsertSorted(c: string, xs: seq<string>)
    requires StrictlySorted(xs)
    ensures StrictlySorted(Insert(c, xs))
  {
    if xs != [] && c != xs[0] {
      if Below(c, xs[0]) {
        var r := [c] + xs;
        forall i, j | 0 <= i < j < |r| ensures Below(r[i], r[j]) {
          if i == 0 && j > 1 {
            BelowTransitive(c, xs[0], xs[j - 1]);
          }
        }
      } else {
        BelowTotal(c, xs[0]);
        InsertSorted(c, xs[1..]);
        var rest := Insert(c, xs[1..]);
        var r := [xs[0]] + rest;
        forall i, j | 0 <= i < j < |r| ensures Below(r[i], r[j]) {
          if i == 0 {
            assert r[j] in rest;
            if r[j] != c {
              var k :| 0 <= k < |xs[1..]| && xs[1..][k] == r[j];
              assert xs[k + 1] == r[j];
            }
          } else {
            assert r[i] == rest[i - 1] && r[j] == rest[j - 1];
          }
        }
      }
    }
  }

  /** Some sweet of the catalog has category `c`. */
  ghost predicate HasCategory(sweets: seq<Sweet>, c: string)
  {
    exists i :: 0 <= i < |sweets| && sweets[i].category == c
  }

  lemma HasCategoryCons(sweets: seq<Sweet>)
    requires sweets != []
    ensures forall c :: HasCategory(sweets, c) <==> c == sweets[0].category || HasCategory(sweets[1..], c)
  {
    forall c | HasCategory(sweets, c) ensures c == sweets[0].category || HasCategory(sweets[1..], c) {
      var i :| 0 <= i < |sweets| && sweets[i].category == c;
      if i > 0 {
        assert sweets[1..][i - 1].category == c;
      }
    }
    forall c | HasCategory(sweets[1..], c) ensures HasCategory(sweets, c) {
      var i :| 0 <= i < |sweets[1..]| && sweets[1..][i].category == c;
      assert sweets[i + 1].category == c;
    }
  }

  /** `[...new Set(sweets.map(s => s.category))].sort()`. */
  function Categories(sweets: seq<Sweet>): (r: seq<string>)
    ensures StrictlySorted(r)
    ensures forall c :: c in r <==> HasCategory(sweets, c)
  {
    if sweets == [] then []
    else
      var rest := Categories(sweets[1..]);
      InsertSorted(sweets[0].category, rest);
      HasCategoryCons(sweets);
      Insert(sweets[0].category, rest)
  }

  /**
   * A strictly sorted list is fixed by its elements, so the category list is the one and
   * only sorted, repeat-free list of the catalog's categories.
   */
  lemma {:induction false} SortedUnique(xs: seq<string>, ys: seq<string>)
    requires StrictlySorted(xs) && StrictlySorted(ys)
    requires forall x :: x in xs <==> x in ys
    ensures xs == ys
  {
    if xs != [] {
      assert xs[0] in ys;
    }
    if ys != [] {
      assert ys[0] in xs;
    }
    if xs != [] && ys != [] {
      if xs[0] != ys[0] {
        var i :| 0 <= i < |ys| && ys[i] == xs[0];
        var j :| 0 <= j < |xs| && xs[j] == ys[0];
        assert Below(ys[0], xs[0]);
        assert Below(xs[0], ys[0]);
        BelowTransitive(xs[0], ys[0], xs[0]);
        BelowIrreflexive(xs[0]);
      }
      forall x ensures x in xs[1..] <==> x in ys[1..] {
        if x in xs[1..] {
          var k :| 0 <= k < |xs[1..]| && xs[1..][k] == x;
          assert Below(xs[0], x);
          BelowIrreflexive(x);
          assert x in ys;
        }
        if x in ys[1..] {
          var k :| 0 <= k < |ys[1..]| && ys[1..][k] == x;
          assert Below(ys[0], x);
          BelowIrreflexive(x);
          assert x in xs;
        }
      }
      SortedUnique(xs[1..], ys[1..]);
      assert xs == [xs[0]] + xs[1..] && ys == [ys[0]] + ys[1..];
    }
  }
}
