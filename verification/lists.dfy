/**
 * List updates keyed by an id, as the client does them with `filter` and `map` over
 * arrays of objects that carry an `id`.
 */
module ById {

  /** No two elements share a key. */
  predicate DistinctKeys<T>(xs: seq<T>, key: T -> int)
  {
    forall i, j :: 0 <= i < j < |xs| ==> key(xs[i]) != key(xs[j])
  }

  /** `xs.filter(x => x.id !== id)`. */
  function Without<T>(xs: seq<T>, key: T -> int, id: int): (r: seq<T>)
    ensures |r| <= |xs|
  {
    if xs == [] then []
    else (if key(xs[0]) == id then [] else [xs[0]]) + Without(xs[1..], key, id)
  }

  /** The survivors are exactly the elements whose key is not `id`. */
  lemma {:induction false} WithoutMembers<T(!new)>(xs: seq<T>, key: T -> int, id: int)
    ensures forall x :: x in Without(xs, key, id) <==> x in xs && key(x) != id
  {
    if xs != [] {
      WithoutMembers(xs[1..], key, id);
      assert xs == [xs[0]] + xs[1..];
    }
  }

  /** The filter keeps the survivors in their order: it distributes over concatenation. */
  lemma {:induction false} WithoutConcat<T(!new)>(a: seq<T>, b: seq<T>, key: T -> int, id: int)
    ensures Without(a + b, key, id) == Without(a, key, id) + Without(b, key, id)
  {
    if a == [] {
      assert a + b == b;
    } else {
      assert (a + b)[0] == a[0];
      assert (a + b)[1..] == a[1..] + b;
      WithoutConcat(a[1..], b, key, id);
    }
  }

  /** Filtering out a key no element has changes nothing. */
  lemma {:induction false} WithoutAbsent<T(!new)>(xs: seq<T>, key: T -> int, id: int)
    requires forall i :: 0 <= i < |xs| ==> key(xs[i]) != id
    ensures Without(xs, key, id) == xs
  {
    if xs != [] {
      WithoutAbsent(xs[1..], key, id);
    }
  }

  /** Filtering out the same key twice is the same as once. */
  lemma WithoutIdempotent<T(!new)>(xs: seq<T>, key: T -> int, id: int)
    ensures Without(Without(xs, key, id), key, id) == Without(xs, key, id)
  {
    var r := Without(xs, key, id);
    WithoutMembers(xs, key, id);
    forall i | 0 <= i < |r| ensures key(r[i]) != id {
      assert r[i] in r;
    }
    WithoutAbsent(r, key, id);
  }

  /** Filtering keeps the keys distinct. */
  lemma {:induction false} WithoutDistinct<T(!new)>(xs: seq<T>, key: T -> int, id: int)
    requires DistinctKeys(xs, key)
    ensures DistinctKeys(Without(xs, key, id), key)
  {
    if xs != [] {
      WithoutDistinct(xs[1..], key, id);
      var rest := Without(xs[1..], key, id);
      WithoutMembers(xs[1..], key, id);
      forall k | 0 <= k < |rest| ensures key(rest[k]) != key(xs[0]) {
        assert rest[k] in rest;
        var j :| 0 <= j < |xs[1..]| && xs[1..][j] == rest[k];
        assert xs[j + 1] == rest[k];
      }
      assert Without(xs, key, id) == (if key(xs[0]) == id then [] else [xs[0]]) + rest;
    }
  }
}
