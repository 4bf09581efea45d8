/**
 * The order in which the crossings of one sub-interval become braid letters.
 *
 * The crossings are taken in order of their times. Crossings at the same
 * time are taken one at a time: always the one whose two strands are
 * currently closest in the running permutation `P`, which is updated after
 * each crossing. A letter is the crossing's orientation times the smaller of
 * the two current positions.
 */
module Ordering {
  import opened Sorting
  import opened Crossings

  /**
   * A permutation of `1..n`, stored as the list `[P(1), ..., P(n)]`; Sage's
   * `braid_from_piecewise` keeps it as an element of `SymmetricGroup(n)`.
   */
  ghost predicate IsPerm(p: seq<int>, n: int) {
    |p| == n
    && (forall x :: 0 <= x < n ==> 1 <= p[x] <= n)
    && (forall x, y :: 0 <= x < y < n ==> p[x] != p[y])
  }

  /** `G(Permutation([]))`: the identity, `P(x) == x`. */
  function Identity(n: nat): (p: seq<int>)
    ensures |p| == n && IsPerm(p, n)
    ensures forall x :: 0 <= x < n ==> p[x] == x + 1
  {
    seq(n, x => x + 1)
  }

  /**
   * `G(Permutation([(k + 1, j + 1)])) * P`. Sage multiplies permutations left
   * to right, so the new `P` maps `k + 1` to the old `P(j + 1)` and `j + 1`
   * to the old `P(k + 1)`.
   */
  function Swap(p: seq<int>, k: int, j: int): (r: seq<int>)
    requires 0 <= k < |p| && 0 <= j < |p|
    ensures |r| == |p|
  {
    p[k := p[j]][j := p[k]]
  }

  /** A transposition applied to a permutation gives a permutation. */
  lemma SwapIsPerm(p: seq<int>, n: int, k: int, j: int)
    requires IsPerm(p, n) && 0 <= k < n && 0 <= j < n
    ensures IsPerm(Swap(p, k, j), n)
    ensures Swap(p, k, j)[k] == p[j] && Swap(p, k, j)[j] == p[k]
    ensures forall x :: 0 <= x < n && x != k && x != j ==> Swap(p, k, j)[x] == p[x]
  {
    var r := Swap(p, k, j);
    forall x, y | 0 <= x < y < n
      ensures r[x] != r[y]
    {
      var x' := if x == k then j else if x == j then k else x;
      var y' := if y == k then j else if y == j then k else y;
      assert r[x] == p[x'] && r[y] == p[y'];
      assert x' != y';
      if x' < y' {
        assert p[x'] != p[y'];
      } else {
        assert p[y'] != p[x'];
      }
    }
  }

  /** A crossing of two different strands among `n`, with an orientation in `{-1, 0, 1}`. */
  ghost predicate Valid(c: Crossing, n: int) {
    0 <= c.k < c.j < n && -1 <= c.s <= 1
  }

  ghost predicate AllValid(cs: seq<Crossing>, n: int) {
    forall c :: c in cs ==> Valid(c, n)
  }

  function Min(x: int, y: int): int {
    if x <= y then x else y
  }

  /** `c[3] * min(map(P, [c[1] + 1, c[2] + 1]))`. */
  function Letter(c: Crossing, p: seq<int>): int
    requires 0 <= c.k < |p| && 0 <= c.j < |p|
  {
    c.s * Min(p[c.k], p[c.j])
  }

  /** A letter names a generator `1..n-1` of the braid group on `n` strands, or is 0 when the orientation is 0. */
  lemma LetterBound(c: Crossing, p: seq<int>, n: int)
    requires IsPerm(p, n) && Valid(c, n)
    ensures -(n - 1) <= Letter(c, p) <= n - 1
    ensures Letter(c, p) == 0 <==> c.s == 0
    ensures c.s == 1 ==> Letter(c, p) == Min(p[c.k], p[c.j])
    ensures c.s == -1 ==> Letter(c, p) == -Min(p[c.k], p[c.j])
  {
    assert p[c.k] != p[c.j];
  }

  /** `P(j + 1) - P(k + 1)`: how far apart strands `k` and `j` currently are. */
  function Gap(p: seq<int>, k: int, j: int): int {
    if 0 <= k < |p| && 0 <= j < |p| then p[j] - p[k] else 0
  }

  /**
   * The order of crossings under permutation `P`: time first, then the
   * current gap, then the remaining numbers of the crossing.
   */
  function FullKey(p: seq<int>, c: Crossing): seq<real> {
    [c.t, Gap(p, c.k, c.j) as real, c.k as real, c.j as real, c.s as real]
  }

  function KeyUnder(p: seq<int>): Crossing -> seq<real> {
    c => FullKey(p, c)
  }

  /** Different crossings never compare equal. */
  lemma FullKeyInjective(p: seq<int>, c: Crossing, d: Crossing)
    requires FullKey(p, c) == FullKey(p, d)
    ensures c == d
  {
    assert FullKey(p, c)[0] == FullKey(p, d)[0];
    assert FullKey(p, c)[2] == FullKey(p, d)[2];
    assert FullKey(p, c)[3] == FullKey(p, d)[3];
    assert FullKey(p, c)[4] == FullKey(p, d)[4];
  }

  /**
   * The order in which the crossings `cs` are consumed, starting from
   * permutation `p`: the next one is the least under time and current gap,
   * and the permutation then swaps its two strands.
   */
  function Order(cs: seq<Crossing>, p: seq<int>): (o: seq<Crossing>)
    requires AllValid(cs, |p|)
    ensures multiset(o) == multiset(cs)
    decreases |cs|
  {
    if cs == [] then []
    else
      var srt := SortBy(cs, KeyUnder(p));
      SortByMembers(cs, KeyUnder(p));
      var m := srt[0];
      assert srt == [m] + srt[1..];
      assert m in srt && forall x :: x in srt[1..] ==> x in srt;
      [m] + Order(srt[1..], Swap(p, m.k, m.j))
  }

  /** The letters of the crossings taken in order `o`, starting from permutation `p`. */
  function Word(o: seq<Crossing>, p: seq<int>): (w: seq<int>)
    requires AllValid(o, |p|)
    decreases |o|
  {
    if o == [] then []
    else
      assert o[0] in o;
      assert forall x :: x in o[1..] ==> x in o;
      [Letter(o[0], p)] + Word(o[1..], Swap(p, o[0].k, o[0].j))
  }

  /** The letters of the crossings `cs`, consumed starting from permutation `p`. */
  function Consumed(cs: seq<Crossing>, p: seq<int>): seq<int>
    requires AllValid(cs, |p|)
  {
    var o := Order(cs, p);
    assert forall x :: x in o ==> x in multiset(cs);
    Word(o, p)
  }

  /** The word of one sub-interval: its crossings consumed from the identity. */
  function Emit(cs: seq<Crossing>, n: nat): seq<int>
    requires AllValid(cs, n)
  {
    Consumed(cs, Identity(n))
  }

  /** Every crossing gives one letter. */
  lemma {:induction false} WordLength(o: seq<Crossing>, p: seq<int>)
    requires AllValid(o, |p|)
    ensures |Word(o, p)| == |o|
    decreases |o|
  {
    if o != [] {
      assert o[0] in o;
      assert forall x :: x in o[1..] ==> x in o;
      WordLength(o[1..], Swap(p, o[0].k, o[0].j));
    }
  }

  /** Every letter names a generator, or is 0 exactly where the orientation is 0. */
  lemma {:induction false} WordLetters(o: seq<Crossing>, p: seq<int>, n: int)
    requires IsPerm(p, n) && AllValid(o, n)
    ensures |Word(o, p)| == |o|
    ensures forall a :: 0 <= a < |o| ==> -(n - 1) <= Word(o, p)[a] <= n - 1
    ensures forall a :: 0 <= a < |o| ==> (Word(o, p)[a] == 0 <==> o[a].s == 0)
    decreases |o|
  {
    WordLength(o, p);
    if o != [] {
      assert o[0] in o;
      assert forall x :: x in o[1..] ==> x in o;
      var m := o[0];
      var p' := Swap(p, m.k, m.j);
      SwapIsPerm(p, n, m.k, m.j);
      LetterBound(m, p, n);
      WordLetters(o[1..], p', n);
      var w := Word(o, p);
      assert w == [Letter(m, p)] + Word(o[1..], p');
      forall a | 0 < a < |o|
        ensures -(n - 1) <= w[a] <= n - 1 && (w[a] == 0 <==> o[a].s == 0)
      {
        assert w[a] == Word(o[1..], p')[a - 1] && o[a] == o[1..][a - 1];
      }
    }
  }

  /** The order depends only on which crossings there are, not on how they are listed. */
  lemma OrderPermutationInvariant(cs: seq<Crossing>, ds: seq<Crossing>, p: seq<int>)
    requires AllValid(cs, |p|) && multiset(cs) == multiset(ds)
    ensures AllValid(ds, |p|)
    ensures Order(cs, p) == Order(ds, p)
  {
    assert forall x :: x in ds ==> x in multiset(cs);
    if cs != [] {
      assert cs[0] in multiset(ds);
      var key := KeyUnder(p);
      var a, b := SortBy(cs, key), SortBy(ds, key);
      forall x, y | x in a && y in a && key(x) == key(y)
        ensures x == y
      {
        FullKeyInjective(p, x, y);
      }
      SortedUnique(a, b, key);
    }
  }

  /** The first crossing consumed is the least under time and current gap. */
  lemma OrderFirstIsLeast(cs: seq<Crossing>, p: seq<int>, x: Crossing)
    requires AllValid(cs, |p|) && x in cs
    ensures Order(cs, p) != [] && Order(cs, p)[0] in cs
    ensures LexLe(FullKey(p, Order(cs, p)[0]), FullKey(p, x))
  {
    var srt := SortBy(cs, KeyUnder(p));
    assert x in multiset(srt);
    SortedFirstIsLeast(srt, KeyUnder(p), x);
    assert srt[0] in multiset(cs);
  }

  /** The crossings consumed are exactly the crossings given. */
  lemma OrderMembers(cs: seq<Crossing>, p: seq<int>)
    requires AllValid(cs, |p|)
    ensures |Order(cs, p)| == |cs|
    ensures forall x :: x in Order(cs, p) <==> x in cs
  {
    var o := Order(cs, p);
    assert |o| == |multiset(o)| == |cs|;
    assert forall x :: x in o <==> x in multiset(cs);
  }

  /** No crossing is earlier than the first one consumed. */
  lemma FirstIsEarliest(cs: seq<Crossing>, p: seq<int>, x: Crossing)
    requires AllValid(cs, |p|) && x in cs
    ensures Order(cs, p) != [] && Order(cs, p)[0].t <= x.t
  {
    OrderFirstIsLeast(cs, p, x);
    LexLeHead(FullKey(p, Order(cs, p)[0]), FullKey(p, x));
  }

  /** The times of `o` never decrease. */
  ghost predicate TimesAscending(o: seq<Crossing>) {
    forall a, b :: 0 <= a < b < |o| ==> o[a].t <= o[b].t
  }

  lemma TimesAscendingCons(m: Crossing, rest: seq<Crossing>)
    requires TimesAscending(rest) && forall x :: x in rest ==> m.t <= x.t
    ensures TimesAscending([m] + rest)
  {
    var o := [m] + rest;
    forall a, b | 0 <= a < b < |o|
      ensures o[a].t <= o[b].t
    {
      assert o[b] == rest[b - 1];
      if a > 0 {
        assert o[a] == rest[a - 1];
      }
    }
  }

  /** Crossings are consumed in order of their times. */
  lemma {:induction false} OrderTimes(cs: seq<Crossing>, p: seq<int>)
    requires AllValid(cs, |p|)
    ensures TimesAscending(Order(cs, p))
    decreases |cs|
  {
    if cs != [] {
      var srt := SortBy(cs, KeyUnder(p));
      SortByMembers(cs, KeyUnder(p));
      var m := srt[0];
      assert m in srt && forall x :: x in srt[1..] ==> x in srt;
      var p' := Swap(p, m.k, m.j);
      var rest := Order(srt[1..], p');
      assert Order(cs, p) == [m] + rest;
      OrderTimes(srt[1..], p');
      OrderMembers(srt[1..], p');
      forall x | x in rest
        ensures m.t <= x.t
      {
        FirstIsEarliest(cs, p, x);
      }
      TimesAscendingCons(m, rest);
    }
  }

  /** One entry `(P(c[2] + 1) - P(c[1] + 1), c[1], c[2], c[3])` of the list of crossings at one time. */
  datatype Tied = Tied(gap: int, k: int, j: int, s: int)

  /** `crossesl.sort()` compares the four numbers of an entry. */
  function TiedKey(x: Tied): seq<real> {
    [x.gap as real, x.k as real, x.j as real, x.s as real]
  }

  /** The crossing at time `t` that an entry stands for. */
  function Stamp(t: real, x: Tied): Crossing {
    Crossing(t, x.k, x.j, x.s)
  }

  function AtTime(t: real, xs: seq<Tied>): (cs: seq<Crossing>)
    ensures |cs| == |xs| && forall a :: 0 <= a < |xs| ==> cs[a] == Stamp(t, xs[a])
  {
    seq(|xs|, a requires 0 <= a < |xs| => Stamp(t, xs[a]))
  }

  /** `[(P(c[2] + 1) - P(c[1] + 1), c[1], c[2], c[3]) for c in crucesl]`. */
  function Tag(cs: seq<Crossing>, p: seq<int>): (xs: seq<Tied>)
    ensures |xs| == |cs|
    ensures forall a :: 0 <= a < |cs| ==> xs[a] == Tied(Gap(p, cs[a].k, cs[a].j), cs[a].k, cs[a].j, cs[a].s)
  {
    seq(|cs|, a requires 0 <= a < |cs| => Tied(Gap(p, cs[a].k, cs[a].j), cs[a].k, cs[a].j, cs[a].s))
  }

  /**
   * `[(P(cr[2] + 1) - P(cr[1] + 1), cr[1], cr[2], cr[3]) for cr in crossesl]`:
   * `Tag` applied again to the entries of one time. The time they are stamped
   * with plays no part in their tags.
   */
  function Retag(xs: seq<Tied>, p: seq<int>): (ys: seq<Tied>)
    ensures |ys| == |xs|
    ensures forall a :: 0 <= a < |xs| ==> ys[a] == Tied(Gap(p, xs[a].k, xs[a].j), xs[a].k, xs[a].j, xs[a].s)
  {
    Tag(AtTime(0.0, xs), p)
  }

  /** Every entry carries the current gap of its two strands. */
  ghost predicate Tagged(xs: seq<Tied>, p: seq<int>) {
    forall x :: x in xs ==> x.gap == Gap(p, x.k, x.j)
  }

  /** Retagging changes only the gaps, and makes them current. */
  lemma RetagKeeps(t: real, xs: seq<Tied>, p: seq<int>)
    ensures Tagged(Retag(xs, p), p)
    ensures AtTime(t, Retag(xs, p)) == AtTime(t, xs)
  {
    var ys := Retag(xs, p);
    forall y | y in ys
      ensures y.gap == Gap(p, y.k, y.j)
    {
      var a :| 0 <= a < |ys| && ys[a] == y;
    }
  }

  /** Tagging the crossings of one time and stamping them with that time gives them back. */
  lemma TagRoundTrip(t: real, cs: seq<Crossing>, p: seq<int>)
    requires forall c :: c in cs ==> c.t == t
    ensures Tagged(Tag(cs, p), p)
    ensures AtTime(t, Tag(cs, p)) == cs
  {
    var xs := Tag(cs, p);
    forall x | x in xs
      ensures x.gap == Gap(p, x.k, x.j)
    {
      var a :| 0 <= a < |xs| && xs[a] == x;
    }
    forall a | 0 <= a < |cs|
      ensures AtTime(t, xs)[a] == cs[a]
    {
      assert cs[a] in cs;
    }
  }

  lemma AtTimeCons(t: real, ys: seq<Tied>)
    requires ys != []
    ensures AtTime(t, ys) == [Stamp(t, ys[0])] + AtTime(t, ys[1..])
  {
    var l, r := AtTime(t, ys), [Stamp(t, ys[0])] + AtTime(t, ys[1..]);
    forall i | 0 <= i < |l|
      ensures l[i] == r[i]
    {
      if i > 0 {
        assert ys[1..][i - 1] == ys[i];
      }
    }
  }

  lemma AtTimeConcat(t: real, a: seq<Tied>, b: seq<Tied>)
    ensures AtTime(t, a + b) == AtTime(t, a) + AtTime(t, b)
  {
    var l, r := AtTime(t, a + b), AtTime(t, a) + AtTime(t, b);
    forall i | 0 <= i < |l|
      ensures l[i] == r[i]
    {
      if i < |a| {
        assert (a + b)[i] == a[i];
      } else {
        assert (a + b)[i] == b[i - |a|];
      }
    }
  }

  /** Removing one entry removes its crossing. */
  lemma AtTimeRemove(t: real, ys: seq<Tied>, b: int)
    requires 0 <= b < |ys|
    ensures multiset(AtTime(t, ys)) == multiset(AtTime(t, ys[..b] + ys[b + 1..])) + multiset{Stamp(t, ys[b])}
  {
    assert ys == ys[..b] + [ys[b]] + ys[b + 1..];
    AtTimeConcat(t, ys[..b] + [ys[b]], ys[b + 1..]);
    AtTimeConcat(t, ys[..b], [ys[b]]);
    AtTimeConcat(t, ys[..b], ys[b + 1..]);
    assert AtTime(t, [ys[b]]) == [Stamp(t, ys[b])];
  }

  /** Removing one entry gives the same entries but that one. */
  lemma MultisetRemove<T>(ys: seq<T>, b: int)
    requires 0 <= b < |ys|
    ensures multiset(ys) == multiset(ys[..b] + ys[b + 1..]) + multiset{ys[b]}
  {
    assert ys == ys[..b] + [ys[b]] + ys[b + 1..];
  }

  lemma MultisetCancel<T>(a: multiset<T>, b: multiset<T>, x: T)
    requires a + multiset{x} == b + multiset{x}
    ensures a == b
  {
    assert forall y :: a[y] == (a + multiset{x})[y] - multiset{x}[y];
    assert forall y :: b[y] == (b + multiset{x})[y] - multiset{x}[y];
  }

  /** Stamping two lists of the same entries gives two lists of the same crossings. */
  lemma {:induction false} AtTimeMultiset(t: real, xs: seq<Tied>, ys: seq<Tied>)
    requires multiset(xs) == multiset(ys)
    ensures multiset(AtTime(t, xs)) == multiset(AtTime(t, ys))
    decreases |xs|
  {
    if xs == [] {
      assert |ys| == |multiset(ys)| == 0;
    } else {
      var x := xs[0];
      assert x in multiset(ys);
      var b :| 0 <= b < |ys| && ys[b] == x;
      var ys' := ys[..b] + ys[b + 1..];
      MultisetRemove(ys, b);
      assert xs == [x] + xs[1..];
      assert multiset(xs) == multiset(xs[1..]) + multiset{x};
      MultisetCancel(multiset(xs[1..]), multiset(ys'), x);
      AtTimeMultiset(t, xs[1..], ys');
      AtTimeRemove(t, ys, b);
      AtTimeConcat(t, [x], xs[1..]);
      assert AtTime(t, [x]) == [Stamp(t, x)];
    }
  }

  /** With a current gap, the order of a stamped entry is its time followed by the entry's own order. */
  lemma StampKey(t: real, x: Tied, p: seq<int>)
    requires x.gap == Gap(p, x.k, x.j)
    ensures FullKey(p, Stamp(t, x)) == [t] + TiedKey(x)
  {
  }

  /**
   * The first entry of the sorted list of crossings at the earliest time is
   * the least of all remaining crossings, so the next crossing consumed.
   */
  lemma StampLeast(t: real, ys: seq<Tied>, rest: seq<Crossing>, p: seq<int>, x: Crossing)
    requires ys != [] && Tagged(ys, p) && SortedBy(ys, TiedKey)
    requires forall c :: c in rest ==> c.t > t
    requires x in AtTime(t, ys) + rest
    ensures LexLe(FullKey(p, Stamp(t, ys[0])), FullKey(p, x))
  {
    assert ys[0] in ys;
    StampKey(t, ys[0], p);
    var a := TiedKey(ys[0]);
    if x in rest {
      var b := FullKey(p, x);
      assert b == [x.t] + b[1..];
      LexCons(t, a, x.t, b[1..]);
    } else {
      var i :| 0 <= i < |ys| && AtTime(t, ys)[i] == x;
      assert ys[i] in ys;
      StampKey(t, ys[i], p);
      SortedFirstIsLeast(ys, TiedKey, ys[i]);
      LexCons(t, a, t, TiedKey(ys[i]));
    }
  }

  /** The crossing consumed next is the first entry of the sorted list of crossings at the earliest time. */
  lemma TieHead(t: real, ys: seq<Tied>, rest: seq<Crossing>, p: seq<int>)
    requires ys != [] && Tagged(ys, p) && SortedBy(ys, TiedKey)
    requires AllValid(AtTime(t, ys) + rest, |p|)
    requires forall c :: c in rest ==> c.t > t
    ensures SortBy(AtTime(t, ys) + rest, KeyUnder(p)) != []
    ensures SortBy(AtTime(t, ys) + rest, KeyUnder(p))[0] == Stamp(t, ys[0])
  {
    var cs := AtTime(t, ys) + rest;
    var mc := Stamp(t, ys[0]);
    assert cs[0] == mc;
    var srt := SortBy(cs, KeyUnder(p));
    SortByMembers(cs, KeyUnder(p));
    var m := srt[0];
    assert Order(cs, p)[0] == m;
    OrderFirstIsLeast(cs, p, mc);
    StampLeast(t, ys, rest, p, m);
    LexLeAntisymmetric(FullKey(p, m), FullKey(p, mc));
    FullKeyInjective(p, m, mc);
  }

  /**
   * One step of the inner loop: when the crossings at the earliest time are
   * listed by current gap, the first of them is consumed next, and the rest
   * are consumed after it under the swapped permutation.
   */
  lemma TieStep(t: real, ys: seq<Tied>, rest: seq<Crossing>, p: seq<int>)
    requires ys != [] && Tagged(ys, p) && SortedBy(ys, TiedKey)
    requires AllValid(AtTime(t, ys) + rest, |p|)
    requires forall c :: c in rest ==> c.t > t
    ensures Valid(Stamp(t, ys[0]), |p|)
    ensures AllValid(AtTime(t, ys[1..]) + rest, |p|)
    ensures Order(AtTime(t, ys) + rest, p)
         == [Stamp(t, ys[0])] + Order(AtTime(t, ys[1..]) + rest, Swap(p, ys[0].k, ys[0].j))
  {
    var cs := AtTime(t, ys) + rest;
    var mc := Stamp(t, ys[0]);
    AtTimeCons(t, ys);
    var tail := AtTime(t, ys[1..]) + rest;
    AppendAssociative([mc], AtTime(t, ys[1..]), rest);
    ValidCons(mc, tail, |p|);
    var srt := SortBy(cs, KeyUnder(p));
    TieHead(t, ys, rest, p);
    MultisetTail(srt, cs);
    OrderPermutationInvariant(tail, srt[1..], Swap(p, mc.k, mc.j));
  }

  lemma ValidCons(m: Crossing, rest: seq<Crossing>, n: int)
    requires AllValid([m] + rest, n)
    ensures Valid(m, n) && AllValid(rest, n)
  {
    assert m in [m] + rest && forall x :: x in rest ==> x in [m] + rest;
  }

  /** The first crossing gives the first letter; the rest are read under the swapped permutation. */
  lemma WordCons(m: Crossing, rest: seq<Crossing>, p: seq<int>)
    requires AllValid([m] + rest, |p|)
    ensures Valid(m, |p|) && AllValid(rest, |p|)
    ensures Word([m] + rest, p) == [Letter(m, p)] + Word(rest, Swap(p, m.k, m.j))
  {
    assert m in [m] + rest && ([m] + rest)[0] == m && ([m] + rest)[1..] == rest;
  }

  /** Listing the crossings differently does not change the letters. */
  lemma ConsumedPermutation(cs: seq<Crossing>, ds: seq<Crossing>, p: seq<int>)
    requires AllValid(cs, |p|) && multiset(cs) == multiset(ds)
    ensures AllValid(ds, |p|)
    ensures Consumed(cs, p) == Consumed(ds, p)
  {
    OrderPermutationInvariant(cs, ds, p);
  }

  /** The first entry of the sorted crossings at the earliest time gives the next letter. */
  lemma ConsumedTie(t: real, ys: seq<Tied>, rest: seq<Crossing>, p: seq<int>)
    requires ys != [] && Tagged(ys, p) && SortedBy(ys, TiedKey)
    requires AllValid(AtTime(t, ys) + rest, |p|)
    requires forall c :: c in rest ==> c.t > t
    ensures Valid(Stamp(t, ys[0]), |p|)
    ensures AllValid(AtTime(t, ys[1..]) + rest, |p|)
    ensures Consumed(AtTime(t, ys) + rest, p)
         == [Letter(Stamp(t, ys[0]), p)] + Consumed(AtTime(t, ys[1..]) + rest, Swap(p, ys[0].k, ys[0].j))
  {
    TieStep(t, ys, rest, p);
    var m := Stamp(t, ys[0]);
    var p' := Swap(p, m.k, m.j);
    var tail := AtTime(t, ys[1..]) + rest;
    var o := Order(tail, p');
    OrderMembers(tail, p');
    assert AllValid([m] + o, |p|);
    WordCons(m, o, p);
  }

  /**
   * One pass of the inner loop, `crossesl.sort()`, `crossesl.pop(0)` and the
   * retagging: the letter it appends is the next letter of the word, and the
   * retagged remainder stands for the crossings still to be consumed.
   */
  lemma ConsumedStep(t: real, xs: seq<Tied>, ys: seq<Tied>, rest: seq<Crossing>, p: seq<int>)
    requires xs != [] && Tagged(xs, p) && AllValid(AtTime(t, xs) + rest, |p|)
    requires multiset(ys) == multiset(xs) && SortedBy(ys, TiedKey)
    requires forall c :: c in rest ==> c.t > t
    ensures |ys| == |xs| && Valid(Stamp(t, ys[0]), |p|)
    ensures Tagged(Retag(ys[1..], Swap(p, ys[0].k, ys[0].j)), Swap(p, ys[0].k, ys[0].j))
    ensures AllValid(AtTime(t, Retag(ys[1..], Swap(p, ys[0].k, ys[0].j))) + rest, |p|)
    ensures Consumed(AtTime(t, xs) + rest, p)
         == [ys[0].s * Min(p[ys[0].k], p[ys[0].j])]
          + Consumed(AtTime(t, Retag(ys[1..], Swap(p, ys[0].k, ys[0].j))) + rest, Swap(p, ys[0].k, ys[0].j))
  {
    assert |ys| == |multiset(ys)| == |xs|;
    assert forall y :: y in ys ==> y in multiset(xs);
    AtTimeMultiset(t, xs, ys);
    ConsumedPermutation(AtTime(t, xs) + rest, AtTime(t, ys) + rest, p);
    ConsumedTie(t, ys, rest, p);
    RetagKeeps(t, ys[1..], Swap(p, ys[0].k, ys[0].j));
  }

  /** `[c for c in cruces if c[0] == t]`: the crossings at time `t`. */
  function SameTime(cs: seq<Crossing>, t: real): (r: seq<Crossing>)
    ensures forall c :: c in r ==> c in cs && c.t == t
  {
    if cs == [] then []
    else (if cs[0].t == t then [cs[0]] else []) + SameTime(cs[1..], t)
  }

  lemma {:induction false} NoneAtTime(cs: seq<Crossing>, t: real)
    requires forall c :: c in cs ==> c.t > t
    ensures SameTime(cs, t) == []
    decreases |cs|
  {
    if cs != [] {
      assert cs[0] in cs && forall c :: c in cs[1..] ==> c in cs;
      NoneAtTime(cs[1..], t);
    }
  }

  /**
   * In a list of crossings in order of time, those at the earliest time form a
   * prefix, and all later ones are at later times: so `cruces[len(crucesl):]`
   * holds exactly the remaining crossings.
   */
  lemma {:induction false} SameTimePrefix(cs: seq<Crossing>, t: real)
    requires TimesAscending(cs) && forall c :: c in cs ==> t <= c.t
    ensures |SameTime(cs, t)| <= |cs| && SameTime(cs, t) == cs[..|SameTime(cs, t)|]
    ensures forall c :: c in cs[|SameTime(cs, t)|..] ==> c.t > t
    ensures cs != [] && cs[0].t == t ==> SameTime(cs, t) != []
    decreases |cs|
  {
    if cs != [] {
      var r := SameTime(cs, t);
      assert cs[0] in cs;
      if cs[0].t == t {
        assert forall c :: c in cs[1..] ==> c in cs;
        assert TimesAscending(cs[1..]) by {
          forall a, b | 0 <= a < b < |cs[1..]|
            ensures cs[1..][a].t <= cs[1..][b].t
          {
            assert cs[1..][a] == cs[a + 1] && cs[1..][b] == cs[b + 1];
          }
        }
        SameTimePrefix(cs[1..], t);
        var r' := SameTime(cs[1..], t);
        assert r == [cs[0]] + r';
        assert cs[..|r|] == [cs[0]] + cs[1..][..|r'|];
        assert cs[|r|..] == cs[1..][|r'|..];
      } else {
        forall c | c in cs
          ensures c.t > t
        {
          var b :| 0 <= b < |cs| && cs[b] == c;
          assert cs[0].t <= cs[b].t;
        }
        assert forall c :: c in cs[1..] ==> c in cs;
        NoneAtTime(cs[1..], t);
        assert r == [];
      }
    }
  }

  /** A list sorted by `[t, k, j, s]` is in order of time. */
  lemma SortedTimes(cs: seq<Crossing>)
    requires SortedBy(cs, CrossingKey)
    ensures TimesAscending(cs)
  {
    forall a, b | 0 <= a < b < |cs|
      ensures cs[a].t <= cs[b].t
    {
      LexLeHead(CrossingKey(cs[a]), CrossingKey(cs[b]));
    }
  }

  lemma AppendAssociative<T>(a: seq<T>, b: seq<T>, c: seq<T>)
    ensures (a + b) + c == a + (b + c)
  {
  }

  /**
   * One pass of the `while crossesl` loop: sort the entries, pop the first,
   * append its letter, swap its strands in `P` and retag the rest. The letter
   * followed by the letters of what remains is the letters of what there was.
   */
  method PopTied(t0: real, crossesl0: seq<Tied>, ghost rest: seq<Crossing>, p0: seq<int>)
    returns (letter: int, crossesl: seq<Tied>, p: seq<int>)
    requires crossesl0 != [] && Tagged(crossesl0, p0) && AllValid(AtTime(t0, crossesl0) + rest, |p0|)
    requires IsPerm(p0, |p0|)
    requires forall c :: c in rest ==> c.t > t0
    ensures |crossesl| < |crossesl0| && |p| == |p0| && Tagged(crossesl, p) && IsPerm(p, |p|)
    ensures AllValid(AtTime(t0, crossesl) + rest, |p|)
    ensures Consumed(AtTime(t0, crossesl0) + rest, p0) == [letter] + Consumed(AtTime(t0, crossesl) + rest, p)
  {
    crossesl := SortBy(crossesl0, TiedKey);
    ConsumedStep(t0, crossesl0, crossesl, rest, p0);
    var c := crossesl[0];
    crossesl := crossesl[1..];
    letter := c.s * Min(p0[c.k], p0[c.j]);
    p := Swap(p0, c.k, c.j);
    SwapIsPerm(p0, |p0|, c.k, c.j);
    crossesl := Retag(crossesl, p);
  }

  /**
   * The `while crossesl` loop: the crossings at time `t0`, listed with their
   * gaps under `p0`, are consumed one at a time, and each appends its letter.
   * The letters appended, followed by those of the later crossings `rest`
   * under the final permutation, are the letters of all of them under `p0`.
   */
  method ConsumeTied(t0: real, crossesl0: seq<Tied>, ghost rest: seq<Crossing>, p0: seq<int>, word0: seq<int>)
    returns (word: seq<int>, p: seq<int>)
    requires Tagged(crossesl0, p0) && AllValid(AtTime(t0, crossesl0) + rest, |p0|)
    requires IsPerm(p0, |p0|)
    requires forall c :: c in rest ==> c.t > t0
    ensures |p| == |p0| && IsPerm(p, |p|) && AllValid(rest, |p|)
    ensures word + Consumed(rest, p) == word0 + Consumed(AtTime(t0, crossesl0) + rest, p0)
  {
    var crossesl := crossesl0;
    word, p := word0, p0;
    while crossesl != []
      invariant |p| == |p0| && IsPerm(p, |p|) && Tagged(crossesl, p)
      invariant AllValid(AtTime(t0, crossesl) + rest, |p|)
      invariant word + Consumed(AtTime(t0, crossesl) + rest, p) == word0 + Consumed(AtTime(t0, crossesl0) + rest, p0)
      decreases |crossesl|
    {
      ghost var before := Consumed(AtTime(t0, crossesl) + rest, p);
      var letter;
      letter, crossesl, p := PopTied(t0, crossesl, rest, p);
      ghost var after := Consumed(AtTime(t0, crossesl) + rest, p);
      AppendAssociative(word, [letter], after);
      word := word + [letter];
    }
    assert AtTime(t0, crossesl) + rest == rest;
  }

  lemma SplitAt(cs: seq<Crossing>, m: int)
    requires 0 <= m <= |cs|
    ensures cs == cs[..m] + cs[m..]
  {
  }

  /** Every crossing in a list in order of time is at least as late as the first. */
  lemma FirstIsEarliestListed(cs: seq<Crossing>)
    requires TimesAscending(cs) && cs != []
    ensures forall c :: c in cs ==> cs[0].t <= c.t
  {
    forall c | c in cs
      ensures cs[0].t <= c.t
    {
      var b :| 0 <= b < |cs| && cs[b] == c;
      if b > 0 {
        assert cs[0].t <= cs[b].t;
      }
    }
  }

  lemma SuffixAscending(cs: seq<Crossing>, m: int)
    requires TimesAscending(cs) && 0 <= m <= |cs|
    ensures TimesAscending(cs[m..])
  {
    forall a, b | 0 <= a < b < |cs[m..]|
      ensures cs[m..][a].t <= cs[m..][b].t
    {
      assert cs[m..][a] == cs[a + m] && cs[m..][b] == cs[b + m];
    }
  }

  /**
   * The `while cruces` loop of one sub-interval: the crossings, sorted by
   * `[t, k, j, s]`, are consumed a time at a time, the crossings at one time
   * by current gap, and the letters appended to the word.
   */
  method ConsumeCrossings(cruces0: seq<Crossing>, n: nat) returns (word: seq<int>)
    requires SortedBy(cruces0, CrossingKey) && AllValid(cruces0, n)
    ensures word == Emit(cruces0, n)
  {
    var p := Identity(n);
    var cruces := cruces0;
    word := [];
    SortedTimes(cruces0);
    while cruces != []
      invariant |p| == n && IsPerm(p, n) && AllValid(cruces, n) && TimesAscending(cruces)
      invariant Emit(cruces0, n) == word + Consumed(cruces, p)
      decreases |cruces|
    {
      var t0 := cruces[0].t;
      var crucesl := SameTime(cruces, t0);
      var crossesl := Tag(crucesl, p);
      FirstIsEarliestListed(cruces);
      SameTimePrefix(cruces, t0);
      TagRoundTrip(t0, crucesl, p);
      SuffixAscending(cruces, |crucesl|);
      ghost var before := cruces;
      SplitAt(cruces, |crucesl|);
      cruces := cruces[|crucesl|..];
      word, p := ConsumeTied(t0, crossesl, cruces, p, word);
    }
  }
}
