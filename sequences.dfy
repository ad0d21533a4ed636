/** Facts about sequences shared by the executor and the query encoder. */
module Sequences {

  /** No element occurs twice in `s`. */
  predicate NoDuplicates<T(==)>(s: seq<T>) {
    forall x | x in s :: multiset(s)[x] == 1
  }

  /** `s` with every occurrence of `x` removed; the other elements keep their order. */
  function Erase<T(==)>(s: seq<T>, x: T): (r: seq<T>)
    ensures forall y | y in r :: y in s && y != x
    ensures forall y | y in s && y != x :: y in r
    ensures multiset(r) == multiset(s)[x := 0]
  {
    if s == [] then []
    else
      assert s == [s[0]] + s[1..];
      if s[0] == x then Erase(s[1..], x) else [s[0]] + Erase(s[1..], x)
  }

  /** Erasing an element that occurs once shortens the sequence by exactly one. */
  lemma EraseDistinct<T>(s: seq<T>, x: T)
    requires NoDuplicates(s) && x in s
    ensures |Erase(s, x)| == |s| - 1
  {
    assert multiset(s)[x] == 1;
    calc {
      |Erase(s, x)|;
      |multiset(Erase(s, x))|;
      |multiset(s)[x := 0]|;
      |multiset(s)| - 1;
    }
  }

  /** A sequence without duplicates has exactly as many distinct elements as it has positions. */
  lemma {:induction false} DistinctCardinality<T>(s: seq<T>)
    requires NoDuplicates(s)
    ensures |set x | x in s| == |s|
  {
    if s != [] {
      var tail := s[1..];
      assert s == [s[0]] + tail;
      forall y | y in tail ensures multiset(tail)[y] == 1 {
        assert multiset(s)[y] == multiset{s[0]}[y] + multiset(tail)[y];
      }
      assert s[0] !in tail by {
        assert multiset(s)[s[0]] == 1 + multiset(tail)[s[0]];
      }
      DistinctCardinality(tail);
      assert (set x | x in s) == {s[0]} + (set x | x in tail);
    }
  }

  /** Appending an element that does not occur keeps a sequence duplicate-free. */
  lemma AppendFresh<T>(s: seq<T>, x: T)
    requires NoDuplicates(s) && x !in s
    ensures NoDuplicates(s + [x])
  {
    assert multiset(s + [x]) == multiset(s) + multiset{x};
    forall y | y in s + [x] ensures multiset(s + [x])[y] == 1 {
      if y != x {
        assert y in s;
      }
    }
  }

  /** Both halves of a duplicate-free concatenation are duplicate-free and share no element. */
  lemma DistinctHalves<T>(a: seq<T>, b: seq<T>)
    requires NoDuplicates(a + b)
    ensures NoDuplicates(a) && NoDuplicates(b)
    ensures forall x | x in a :: x !in b
  {
    assert multiset(a + b) == multiset(a) + multiset(b);
    forall x | x in a ensures multiset(a)[x] == 1 && x !in b {
      assert x in a + b;
    }
    forall x | x in b ensures multiset(b)[x] == 1 {
      assert x in a + b;
    }
  }
}
