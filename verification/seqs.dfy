/** Duplicate-free sequences: the list-side view of Python's `set` and of
    `list(set(...))`, as the link-graph extraction uses them. */
module Seqs {

  /** No value occurs twice in `s`. */
  predicate NoDup<T(==)>(s: seq<T>) {
    forall i, j :: 0 <= i < j < |s| ==> s[i] != s[j]
  }

  /** The set of values occurring in `s`. */
  function Elems<T(==)>(s: seq<T>): set<T> {
    set x | x in s
  }

  /** Appends to `acc`, in order of first occurrence, every value of `xs` that
      is not yet present: adding each element of `xs` to a set, one by one. */
  function Extend<T(==,!new)>(acc: seq<T>, xs: seq<T>): (r: seq<T>)
    requires NoDup(acc)
    ensures NoDup(r)
    ensures acc <= r
    ensures forall x :: x in r <==> x in acc || x in xs
    decreases |xs|
  {
    if |xs| == 0 then acc
    else if xs[0] in acc then Extend(acc, xs[1..])
    else Extend(acc + [xs[0]], xs[1..])
  }

  /** Number of positions of `s` whose value occurs in `t`. */
  function Count<T(==)>(s: seq<T>, t: seq<T>): nat {
    if |s| == 0 then 0
    else Count(s[..|s| - 1], t) + (if s[|s| - 1] in t then 1 else 0)
  }

  /** The values of a non-empty sequence: those of its prefix plus its last one. */
  lemma ElemsOfSnoc<T>(s: seq<T>)
    requires |s| > 0
    ensures Elems(s) == Elems(s[..|s| - 1]) + {s[|s| - 1]}
  {
    assert s == s[..|s| - 1] + [s[|s| - 1]];
  }

  /** In a duplicate-free sequence the last value is not among the earlier ones. */
  lemma LastIsFresh<T>(s: seq<T>)
    requires |s| > 0 && NoDup(s)
    ensures NoDup(s[..|s| - 1])
    ensures s[|s| - 1] !in Elems(s[..|s| - 1])
  {
  }

  /** A duplicate-free sequence has as many distinct values as positions. */
  lemma {:induction false} NoDupCard<T>(s: seq<T>)
    requires NoDup(s)
    ensures |Elems(s)| == |s|
  {
    if |s| > 0 {
      var init := s[..|s| - 1];
      LastIsFresh(s);
      NoDupCard(init);
      ElemsOfSnoc(s);
    }
  }

  /** Over a duplicate-free `s`, counting positions whose value is in `t`
      counts the values `s` and `t` share. */
  lemma {:induction false} CountIsIntersection<T>(s: seq<T>, t: seq<T>)
    requires NoDup(s)
    ensures Count(s, t) == |Elems(s) * Elems(t)|
  {
    if |s| > 0 {
      var init, last := s[..|s| - 1], s[|s| - 1];
      LastIsFresh(s);
      CountIsIntersection(init, t);
      ElemsOfSnoc(s);
      var shared := Elems(init) * Elems(t);
      if last in t {
        assert Elems(s) * Elems(t) == shared + {last};
      } else {
        assert Elems(s) * Elems(t) == shared;
      }
    }
  }

  /** When `t` is duplicate-free and all of its values occur in the
      duplicate-free `s`, exactly |t| positions of `s` hold a value of `t`. */
  lemma CountOfSubset<T(!new)>(s: seq<T>, t: seq<T>)
    requires NoDup(s) && NoDup(t)
    requires forall x :: x in t ==> x in s
    ensures Count(s, t) == |t|
  {
    CountIsIntersection(s, t);
    assert Elems(s) * Elems(t) == Elems(t);
    NoDupCard(t);
  }
}
