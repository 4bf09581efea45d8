/**
 * Python's comparison of lists of numbers and its list sort, which the braid
 * extraction and the root matching both rely on (`M.sort()`, `cruces.sort()`,
 * `crossesl.sort()`, `sorted(distances)`). Every element that is sorted is
 * compared through a key: the flat list of the numbers Python compares.
 */
module Sorting {

  /** Python's `a < b` on two lists of numbers: lexicographic, a proper prefix is smaller. */
  predicate LexLt(a: seq<real>, b: seq<real>)
    decreases |a|
  {
    if a == [] then b != []
    else if b == [] then false
    else a[0] < b[0] || (a[0] == b[0] && LexLt(a[1..], b[1..]))
  }

  /** Python's `a <= b` on two lists of numbers. */
  predicate LexLe(a: seq<real>, b: seq<real>) {
    a == b || LexLt(a, b)
  }

  lemma {:induction false} LexLtIrreflexive(a: seq<real>)
    ensures !LexLt(a, a)
  {
    if a != [] {
      LexLtIrreflexive(a[1..]);
    }
  }

  lemma {:induction false} LexLtAsymmetric(a: seq<real>, b: seq<real>)
    requires LexLt(a, b)
    ensures !LexLt(b, a)
    decreases |a|
  {
    if a != [] && b != [] && a[0] == b[0] {
      LexLtAsymmetric(a[1..], b[1..]);
    }
  }

  lemma {:induction false} LexLtTransitive(a: seq<real>, b: seq<real>, c: seq<real>)
    requires LexLt(a, b) && LexLt(b, c)
    ensures LexLt(a, c)
    decreases |a|
  {
    if a != [] && b != [] && c != [] && a[0] == b[0] && b[0] == c[0] {
      LexLtTransitive(a[1..], b[1..], c[1..]);
    }
  }

  /** Any two lists of numbers are comparable: Python's list order is total. */
  lemma {:induction false} LexTrichotomy(a: seq<real>, b: seq<real>)
    ensures a == b || LexLt(a, b) || LexLt(b, a)
    decreases |a|
  {
    if a != [] && b != [] && a[0] == b[0] {
      LexTrichotomy(a[1..], b[1..]);
      if a[1..] == b[1..] {
        assert a == [a[0]] + a[1..] && b == [b[0]] + b[1..];
      }
    }
  }

  lemma LexLeTransitive(a: seq<real>, b: seq<real>, c: seq<real>)
    requires LexLe(a, b) && LexLe(b, c)
    ensures LexLe(a, c)
  {
    if a != b && b != c {
      LexLtTransitive(a, b, c);
    }
  }

  lemma LexLeAntisymmetric(a: seq<real>, b: seq<real>)
    requires LexLe(a, b) && LexLe(b, a)
    ensures a == b
  {
    if a != b {
      LexLtAsymmetric(a, b);
    }
  }

  /** In `a <= b` the first numbers compare the same way. */
  lemma LexLeHead(a: seq<real>, b: seq<real>)
    requires LexLe(a, b) && a != [] && b != []
    ensures a[0] <= b[0]
  {
  }

  /** The two elements after `a` and `b` decide the order when the first elements agree. */
  lemma LexCons(x: real, a: seq<real>, y: real, b: seq<real>)
    ensures LexLt([x] + a, [y] + b) <==> x < y || (x == y && LexLt(a, b))
  {
    assert ([x] + a)[1..] == a && ([y] + b)[1..] == b;
  }

  /** `s` is in non-decreasing order of its keys. */
  ghost predicate SortedBy<T>(s: seq<T>, key: T -> seq<real>) {
    forall a, b :: 0 <= a < b < |s| ==> LexLe(key(s[a]), key(s[b]))
  }

  /** Places `x` before the first element whose key is not smaller, as a stable sort does. */
  function Insert<T>(x: T, s: seq<T>, key: T -> seq<real>): (r: seq<T>)
    requires SortedBy(s, key)
    ensures multiset(r) == multiset(s) + multiset{x}
    ensures SortedBy(r, key)
  {
    if s == [] then [x]
    else if LexLe(key(x), key(s[0])) then
      assert forall b :: 0 <= b < |s| ==> LexLe(key(x), key(s[b])) by {
        forall b | 0 <= b < |s| ensures LexLe(key(x), key(s[b])) {
          if b > 0 { LexLeTransitive(key(x), key(s[0]), key(s[b])); }
        }
      }
      [x] + s
    else
      var rest := Insert(x, s[1..], key);
      LexTrichotomy(key(x), key(s[0]));
      assert forall b :: 0 <= b < |rest| ==> LexLe(key(s[0]), key(rest[b])) by {
        forall b | 0 <= b < |rest| ensures LexLe(key(s[0]), key(rest[b])) {
          assert rest[b] in multiset(rest);
          assert rest[b] == x || rest[b] in multiset(s[1..]);
          if rest[b] != x {
            var c :| 0 <= c < |s[1..]| && s[1..][c] == rest[b];
            assert s[1..][c] == s[c + 1];
          }
        }
      }
      assert s == [s[0]] + s[1..];
      [s[0]] + rest
  }

  /**
   * Python's `list.sort()` and `sorted()` with the list order on keys: the
   * result is a permutation of the input in non-decreasing order of keys.
   */
  function SortBy<T>(xs: seq<T>, key: T -> seq<real>): (r: seq<T>)
    ensures multiset(r) == multiset(xs)
    ensures SortedBy(r, key)
  {
    if xs == [] then []
    else
      assert xs == [xs[0]] + xs[1..];
      Insert(xs[0], SortBy(xs[1..], key), key)
  }

  /** Sorting keeps the length and the elements. */
  lemma SortByMembers<T>(xs: seq<T>, key: T -> seq<real>)
    ensures |SortBy(xs, key)| == |xs|
    ensures forall x :: x in SortBy(xs, key) <==> x in xs
  {
    var r := SortBy(xs, key);
    assert |r| == |multiset(r)| == |xs|;
    assert forall x :: x in r <==> x in multiset(xs);
  }

  /** The first element of a sorted list is a smallest one: `sorted(xs)[0]`, `xs.pop(0)`. */
  lemma SortedFirstIsLeast<T>(s: seq<T>, key: T -> seq<real>, x: T)
    requires SortedBy(s, key) && x in s
    ensures LexLe(key(s[0]), key(x))
  {
    var b :| 0 <= b < |s| && s[b] == x;
    if b > 0 {
      assert LexLe(key(s[0]), key(s[b]));
    }
  }

  /** Two permutations of each other with the same first element stay so without it. */
  lemma MultisetTail<T>(s: seq<T>, u: seq<T>)
    requires s != [] && u != [] && s[0] == u[0]
    requires multiset(s) == multiset(u)
    ensures multiset(s[1..]) == multiset(u[1..])
  {
    assert s == [s[0]] + s[1..] && u == [u[0]] + u[1..];
    assert multiset(s) == multiset{s[0]} + multiset(s[1..]);
    assert multiset(u) == multiset{u[0]} + multiset(u[1..]);
    calc {
      multiset(s[1..]);
      multiset(s) - multiset{s[0]};
      multiset(u) - multiset{u[0]};
      multiset(u[1..]);
    }
  }

  /**
   * When no two different elements have the same key, there is only one sorted
   * order: sorting is deterministic.
   */
  lemma {:induction false} SortedUnique<T>(s: seq<T>, u: seq<T>, key: T -> seq<real>)
    requires SortedBy(s, key) && SortedBy(u, key)
    requires multiset(s) == multiset(u)
    requires forall x, y :: x in s && y in s && key(x) == key(y) ==> x == y
    ensures s == u
    decreases |s|
  {
    assert |s| == |multiset(s)| == |u|;
    if s != [] {
      assert u[0] in multiset(s) && s[0] in multiset(u);
      SortedFirstIsLeast(s, key, u[0]);
      SortedFirstIsLeast(u, key, s[0]);
      LexLeAntisymmetric(key(s[0]), key(u[0]));
      assert s[0] == u[0];
      MultisetTail(s, u);
      assert forall x :: x in s[1..] ==> x in s;
      SortedUnique(s[1..], u[1..], key);
      assert s == [s[0]] + s[1..] && u == [u[0]] + u[1..];
    }
  }
}
