/** Orders and ordered collections. The C++ code keeps `std::set` and `std::map`
    containers whose iteration order is observable (the aggregate analysis pops the
    smallest SCC first, the empty-relation remover walks relation names in order, the
    adornment queue hands out its smallest entry first). Such a container is modelled
    as a strictly increasing sequence under the container's comparison. */
module Orders {

  /** `less` is irreflexive, transitive and total on distinct values, as the
      comparison of an ordered container must be. */
  ghost predicate StrictTotalOrder<T(!new)>(less: (T, T) -> bool)
  {
    (forall a :: !less(a, a)) &&
    (forall a, b, c :: less(a, b) && less(b, c) ==> less(a, c)) &&
    (forall a, b :: a != b ==> less(a, b) || less(b, a))
  }

  /** `std::lexicographical_compare`: the first position where the sequences differ
      decides, and a proper prefix comes first. */
  function LexLess<T>(a: seq<T>, b: seq<T>, less: (T, T) -> bool): bool
    decreases |a|
  {
    if |a| == 0 then |b| > 0
    else if |b| == 0 then false
    else if less(a[0], b[0]) then true
    else if less(b[0], a[0]) then false
    else LexLess(a[1..], b[1..], less)
  }

  lemma {:induction false} LexIrreflexive<T(!new)>(a: seq<T>, less: (T, T) -> bool)
    requires StrictTotalOrder(less)
    ensures !LexLess(a, a, less)
    decreases |a|
  {
    if |a| > 0 {
      LexIrreflexive(a[1..], less);
    }
  }

  lemma {:induction false} LexTransitive<T(!new)>(a: seq<T>, b: seq<T>, c: seq<T>, less: (T, T) -> bool)
    requires StrictTotalOrder(less)
    requires LexLess(a, b, less) && LexLess(b, c, less)
    ensures LexLess(a, c, less)
    decreases |a|
  {
    if |a| > 0 && |b| > 0 && |c| > 0 {
      if !less(a[0], b[0]) && !less(b[0], c[0]) {
        assert a[0] == b[0] && b[0] == c[0];
        LexTransitive(a[1..], b[1..], c[1..], less);
      }
    }
  }

  lemma {:induction false} LexTotal<T(!new)>(a: seq<T>, b: seq<T>, less: (T, T) -> bool)
    requires StrictTotalOrder(less)
    requires a != b
    ensures LexLess(a, b, less) || LexLess(b, a, less)
    decreases |a|
  {
    if |a| > 0 && |b| > 0 && !less(a[0], b[0]) && !less(b[0], a[0]) {
      assert a[0] == b[0];
      assert a == [a[0]] + a[1..] && b == [b[0]] + b[1..];
      LexTotal(a[1..], b[1..], less);
    }
  }

  /** The lexicographic extension of a strict total order is again one. */
  lemma LexStrictTotalOrder<T(!new)>(less: (T, T) -> bool)
    requires StrictTotalOrder(less)
    ensures StrictTotalOrder((a: seq<T>, b: seq<T>) => LexLess(a, b, less))
  {
    forall a: seq<T> ensures !LexLess(a, a, less) {
      LexIrreflexive(a, less);
    }
    forall a: seq<T>, b: seq<T>, c: seq<T> | LexLess(a, b, less) && LexLess(b, c, less)
      ensures LexLess(a, c, less)
    {
      LexTransitive(a, b, c, less);
    }
    forall a: seq<T>, b: seq<T> | a != b ensures LexLess(a, b, less) || LexLess(b, a, less) {
      LexTotal(a, b, less);
    }
  }

  /** Every element precedes every later one. */
  predicate StrictlySorted<T>(s: seq<T>, less: (T, T) -> bool)
  {
    forall i, j :: 0 <= i < j < |s| ==> less(s[i], s[j])
  }

  /** `std::set::insert` on an ordered container: the element goes to its place
      unless an equal element is already there. */
  function Insert<T(==, !new)>(s: seq<T>, x: T, less: (T, T) -> bool): (r: seq<T>)
    requires StrictTotalOrder(less)
    requires StrictlySorted(s, less)
    ensures StrictlySorted(r, less)
    ensures forall y :: y in r <==> y in s || y == x
    ensures x in s ==> r == s
    ensures x !in s ==> |r| == |s| + 1
  {
    if |s| == 0 then [x]
    else if less(x, s[0]) then
      assert x !in s by {
        forall k | 0 <= k < |s| ensures s[k] != x {
          if k > 0 { assert less(s[0], s[k]); }
        }
      }
      [x] + s
    else if less(s[0], x) then
      var rest := Insert(s[1..], x, less);
      assert s == [s[0]] + s[1..];
      assert forall k :: 0 <= k < |rest| ==> less(s[0], rest[k]) by {
        forall k | 0 <= k < |rest| ensures less(s[0], rest[k]) {
          if rest[k] != x {
            assert rest[k] in rest;
            assert rest[k] in s[1..];
            var m :| 0 <= m < |s[1..]| && s[1..][m] == rest[k];
            assert s[m + 1] == rest[k];
          }
        }
      }
      [s[0]] + rest
    else
      s
  }

  /** In a strictly sorted sequence the first element precedes every other one. */
  lemma FirstIsLeast<T>(s: seq<T>, y: T, less: (T, T) -> bool)
    requires StrictlySorted(s, less)
    requires |s| > 0 && y in s && y != s[0]
    ensures less(s[0], y)
  {
    var k :| 0 <= k < |s| && s[k] == y;
  }
}
