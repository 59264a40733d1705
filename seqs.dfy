/** Facts about lists of item codes shared by the post-processing modules: membership counts as
    numpy computes them, first positions, duplicate-freedom and subsequences. */
module Seqs {

  function ToSet<T>(s: seq<T>): set<T> {
    set x | x in s
  }

  lemma Assoc<T>(a: seq<T>, b: seq<T>, c: seq<T>)
    ensures a + b + c == a + (b + c)
  {
  }

  /** Equal tails cancel. */
  lemma CancelRight<T>(a: seq<T>, b: seq<T>, t: seq<T>)
    ensures a + t == b + t <==> a == b
  {
    if a + t == b + t {
      assert |a| == |b|;
      assert a == (a + t)[..|a|];
      assert b == (b + t)[..|b|];
    }
  }

  lemma Snoc<T>(s: seq<T>)
    requires s != []
    ensures s == s[..|s| - 1] + [s[|s| - 1]]
  {
  }

  /** `f` applied to each element of `s`, in order. */
  function Map<A, B>(f: A -> B, s: seq<A>): (r: seq<B>)
    ensures |r| == |s| && forall k | 0 <= k < |s| :: r[k] == f(s[k])
  {
    if s == [] then [] else Map(f, s[..|s| - 1]) + [f(s[|s| - 1])]
  }

  predicate Distinct<T(==)>(s: seq<T>) {
    forall i, j | 0 <= i < j < |s| :: s[i] != s[j]
  }

  /** The first position of `x` in `s`, or |s| when `x` does not occur (np.where(...)[0][0]). */
  function FirstIndex<T(==)>(s: seq<T>, x: T): (k: nat)
    ensures k <= |s| && (k < |s| <==> x in s)
    ensures k < |s| ==> s[k] == x
    ensures forall j | 0 <= j < k :: s[j] != x
  {
    if s == [] then 0 else if s[0] == x then 0 else 1 + FirstIndex(s[1..], x)
  }

  /** np.sum(np.isin(a, b)): the number of positions of `a` that hold an element of `b`. */
  function CountIn<T(==)>(a: seq<T>, b: seq<T>): (n: nat)
    ensures n <= |a|
  {
    if a == [] then 0 else (if a[0] in b then 1 else 0) + CountIn(a[1..], b)
  }

  /** `idx` lists increasing positions of `b` whose elements, in order, make up `a`. */
  predicate Embeds<T(==)>(a: seq<T>, b: seq<T>, idx: seq<nat>) {
    |idx| == |a|
    && (forall k | 0 <= k < |idx| :: idx[k] < |b| && a[k] == b[idx[k]])
    && (forall k, l | 0 <= k < l < |idx| :: idx[k] < idx[l])
  }

  /** `a` is `b` with some elements left out and the rest in their original order. */
  ghost predicate IsSubsequence<T>(a: seq<T>, b: seq<T>) {
    exists idx :: Embeds(a, b, idx)
  }

  lemma {:induction false} ToSetCard<T>(s: seq<T>)
    ensures |ToSet(s)| <= |s|
    ensures |ToSet(s)| == |s| <==> Distinct(s)
    decreases |s|
  {
    if s != [] {
      var t := s[1..];
      ToSetCard(t);
      assert ToSet(s) == {s[0]} + ToSet(t);
      if s[0] in t {
        assert ToSet(s) == ToSet(t);
        var j :| 0 <= j < |t| && t[j] == s[0];
        assert s[0] == s[j + 1];
      } else {
        assert |ToSet(s)| == |ToSet(t)| + 1;
        if Distinct(t) {
          forall i, j | 0 <= i < j < |s| ensures s[i] != s[j] {
            if i == 0 { assert s[j] == t[j - 1]; } else { assert s[i] == t[i - 1] && s[j] == t[j - 1]; }
          }
        } else {
          var i, j :| 0 <= i < j < |t| && t[i] == t[j];
          assert s[i + 1] == s[j + 1];
        }
      }
    }
  }

  lemma SubsetCard<T>(a: set<T>, b: set<T>)
    requires a <= b
    ensures |a| <= |b| && (|a| == |b| ==> a == b)
  {
    assert b == a + (b - a);
    assert |b| == |a| + |b - a|;
    if |a| == |b| {
      assert |b - a| == 0;
      assert b - a == {};
    }
  }

  /** Some element of a non-empty set. */
  lemma Pick<T>(s: set<T>) returns (x: T)
    requires |s| != 0
    ensures x in s
  {
    x :| x in s;
  }

  /** |set(events) & set(items)| == len(items) holds exactly when `items` has no repeated element
      and every one of them is among `events`. */
  lemma FullHits<T>(events: set<T>, items: seq<T>)
    ensures |events * ToSet(items)| == |items| <==> Distinct(items) && ToSet(items) <= events
  {
    var l := ToSet(items);
    ToSetCard(items);
    SubsetCard(events * l, l);
    if l <= events {
      assert events * l == l;
    }
  }

  lemma DistinctTail<T>(a: seq<T>)
    requires a != [] && Distinct(a)
    ensures Distinct(a[1..]) && a[0] !in a[1..]
  {
    var t := a[1..];
    forall i, j | 0 <= i < j < |t| ensures t[i] != t[j] { assert t[i] == a[i + 1] && t[j] == a[j + 1]; }
    forall j | 0 <= j < |t| ensures t[j] != a[0] { assert t[j] == a[j + 1]; }
  }

  lemma ToSetCons<T>(a: seq<T>)
    requires a != []
    ensures ToSet(a) == {a[0]} + ToSet(a[1..])
  {
  }

  /** On an `a` without repetitions, np.isin counts the elements the two lists share. */
  lemma {:induction false} CountInDistinct<T>(a: seq<T>, b: seq<T>)
    requires Distinct(a)
    ensures CountIn(a, b) == |ToSet(a) * ToSet(b)|
    decreases |a|
  {
    if a != [] {
      var t := a[1..];
      DistinctTail(a);
      CountInDistinct(t, b);
      ToSetCons(a);
      SharedCons(a[0], ToSet(t), ToSet(b));
    }
  }

  /** Adding a new element `x` to `s` adds one shared element exactly when `x` is in `u`. */
  lemma SharedCons<T>(x: T, s: set<T>, u: set<T>)
    requires x !in s
    ensures |({x} + s) * u| == |s * u| + if x in u then 1 else 0
  {
    if x in u {
      assert ({x} + s) * u == {x} + s * u;
    } else {
      assert ({x} + s) * u == s * u;
    }
  }

  /** For lists without repetitions, `np.sum(np.isin(a, b)) == len(b)` means every element of
      `b` is in `a`. */
  lemma CountInCovers<T>(a: seq<T>, b: seq<T>)
    requires Distinct(a) && Distinct(b)
    ensures CountIn(a, b) == |b| <==> ToSet(b) <= ToSet(a)
  {
    CountInDistinct(a, b);
    FullHits(ToSet(a), b);
    assert ToSet(a) * ToSet(b) == ToSet(b) * ToSet(a);
  }

  /** list.count(x): the number of positions of `s` that hold `x`. */
  function Occurrences<T(==)>(s: seq<T>, x: T): (n: nat)
    ensures n <= |s| && (n > 0 <==> x in s)
  {
    if s == [] then 0
    else
      var init := s[..|s| - 1];
      assert s == init + [s[|s| - 1]];
      Occurrences(init, x) + if s[|s| - 1] == x then 1 else 0
  }

  lemma OccurrencesAppend<T>(s: seq<T>, y: T, x: T)
    ensures Occurrences(s + [y], x) == Occurrences(s, x) + if y == x then 1 else 0
  {
    assert (s + [y])[..|s|] == s;
  }

  /** The distinct elements of `s`, each where it first occurs. */
  function Dedup<T(==)>(s: seq<T>): (d: seq<T>)
    ensures Distinct(d) && ToSet(d) == ToSet(s) && |d| <= |s|
  {
    if s == [] then []
    else
      var init := s[..|s| - 1];
      var x := s[|s| - 1];
      var d := Dedup(init);
      assert ToSet(s) == ToSet(init) + {x} by { assert s == init + [x]; }
      if x in d then d
      else
        assert ToSet(d + [x]) == ToSet(d) + {x};
        assert Distinct(d + [x]) by {
          forall i, j | 0 <= i < j < |d| + 1 ensures (d + [x])[i] != (d + [x])[j] {
            if j == |d| { assert (d + [x])[i] == d[i]; }
          }
        }
        d + [x]
  }

  /** Dedup keeps the order of first occurrences. */
  lemma {:induction false} DedupOrder<T>(s: seq<T>)
    ensures forall i, j | 0 <= i < j < |Dedup(s)| :: FirstIndex(s, Dedup(s)[i]) < FirstIndex(s, Dedup(s)[j])
    decreases |s|
  {
    if s != [] {
      var init := s[..|s| - 1];
      var x := s[|s| - 1];
      DedupOrder(init);
      var d := Dedup(init);
      assert s == init + [x];
      forall y | y in init ensures FirstIndex(s, y) == FirstIndex(init, y) {
        FirstIndexPrefix(init, [x], y);
      }
      if x !in d {
        assert x !in init by { assert x !in ToSet(init); }
        assert FirstIndex(s, x) == |init| by { FirstIndexPrefix(init, [x], x); }
        forall i | 0 <= i < |d| ensures FirstIndex(s, d[i]) < |init| {
          assert d[i] in ToSet(init);
        }
      }
    }
  }

  lemma {:induction false} FirstIndexPrefix<T>(a: seq<T>, b: seq<T>, y: T)
    ensures FirstIndex(a + b, y) == if y in a then FirstIndex(a, y) else |a| + FirstIndex(b, y)
    decreases |a|
  {
    if a != [] {
      FirstIndexPrefix(a[1..], b, y);
      assert (a + b)[1..] == a[1..] + b;
    } else {
      assert a + b == b;
    }
  }

  /** The sum of the counts in `s` of the elements of `keys`. */
  function SumOccurrences<T(==)>(s: seq<T>, keys: seq<T>): nat {
    if keys == [] then 0
    else SumOccurrences(s, keys[..|keys| - 1]) + Occurrences(s, keys[|keys| - 1])
  }

  /** Appending `y` to `s` raises the sum by the number of times `y` is among the keys. */
  lemma {:induction false} SumOccurrencesAppend<T>(s: seq<T>, y: T, keys: seq<T>)
    ensures SumOccurrences(s + [y], keys) == SumOccurrences(s, keys) + Occurrences(keys, y)
    decreases |keys|
  {
    if keys != [] {
      var init := keys[..|keys| - 1];
      SumOccurrencesAppend(s, y, init);
      OccurrencesAppend(s, y, keys[|keys| - 1]);
      assert keys == init + [keys[|keys| - 1]];
      OccurrencesAppend(init, keys[|keys| - 1], y);
    }
  }

  lemma {:induction false} OccurrencesDistinct<T>(keys: seq<T>, y: T)
    requires Distinct(keys) && y in keys
    ensures Occurrences(keys, y) == 1
    decreases |keys|
  {
    var init := keys[..|keys| - 1];
    var last := keys[|keys| - 1];
    assert keys == init + [last];
    assert Distinct(init) by {
      forall i, j | 0 <= i < j < |init| ensures init[i] != init[j] { assert init[i] == keys[i] && init[j] == keys[j]; }
    }
    if last == y {
      forall i | 0 <= i < |init| ensures init[i] != y { assert init[i] == keys[i]; }
      assert y !in init;
    } else {
      OccurrencesDistinct(init, y);
    }
  }

  /** Counting every distinct element of `s` accounts for all of `s`. */
  lemma {:induction false} CountsCoverAll<T>(s: seq<T>)
    ensures SumOccurrences(s, Dedup(s)) == |s|
    decreases |s|
  {
    if s != [] {
      var init := s[..|s| - 1];
      var x := s[|s| - 1];
      var d := Dedup(init);
      assert s == init + [x];
      CountsCoverAll(init);
      SumOccurrencesAppend(init, x, d);
      if x in d {
        OccurrencesDistinct(d, x);
      } else {
        assert Dedup(s) == d + [x];
        assert (d + [x])[..|d|] == d;
        assert Occurrences(d, x) == 0;
        assert x !in init by { assert x !in ToSet(init); }
        OccurrencesAppend(init, x, x);
      }
    }
  }
}
