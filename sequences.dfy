/** Sequence helpers shared by the list- and dictionary-backed state of the library. */
module Sequences {

  /** `s` without any occurrence of `x`; on a dictionary's key list this is `del d[x]`. */
  function Without<T(==)>(s: seq<T>, x: T): (r: seq<T>)
    ensures forall y | y in r :: y in s && y != x
    ensures forall y | y in s && y != x :: y in r
    ensures x !in r
    ensures x !in s ==> r == s
    ensures |r| <= |s|
  {
    if s == [] then []
    else if s[0] == x then Without(s[1..], x)
    else [s[0]] + Without(s[1..], x)
  }

  /** `s` without any element of `d`, the rest in its order. */
  function Excluding<T(==)>(s: seq<T>, d: set<T>): (r: seq<T>)
    ensures forall y | y in r :: y in s && y !in d
    ensures forall y | y in s && y !in d :: y in r
    ensures d == {} ==> r == s
  {
    if s == [] then []
    else if s[0] in d then Excluding(s[1..], d)
    else [s[0]] + Excluding(s[1..], d)
  }

  /** Dropping the elements of `d` and then every `x` is dropping the elements of `d + {x}`. */
  lemma {:induction false} WithoutExcluding<T>(s: seq<T>, d: set<T>, x: T)
    ensures Without(Excluding(s, d), x) == Excluding(s, d + {x})
  {
    if s != [] {
      WithoutExcluding(s[1..], d, x);
    }
  }

  /** Dropping the elements of `a` and then those of `b` is dropping the elements of `a + b`. */
  lemma {:induction false} ExcludingTwice<T>(s: seq<T>, a: set<T>, b: set<T>)
    ensures Excluding(Excluding(s, a), b) == Excluding(s, a + b)
  {
    if s != [] {
      ExcludingTwice(s[1..], a, b);
    }
  }

  /** Only the elements of `s` matter to what `Excluding` drops from it. */
  lemma {:induction false} ExcludingSame<T>(s: seq<T>, a: set<T>, b: set<T>)
    requires forall y | y in s :: y in a <==> y in b
    ensures Excluding(s, a) == Excluding(s, b)
  {
    if s != [] {
      assert s[0] in s;
      assert forall y | y in s[1..] :: y in s;
      ExcludingSame(s[1..], a, b);
    }
  }

  /** Dropping every `x` is dropping the elements of `{x}`. */
  lemma WithoutIsExcluding<T>(s: seq<T>, x: T)
    ensures Without(s, x) == Excluding(s, {x})
  {
    WithoutExcluding(s, {}, x);
  }

  /** The elements of a list, as a set. */
  function AsSet<T>(s: seq<T>): (r: set<T>)
    ensures forall x | x in s :: x in r
    ensures forall x | x in r :: x in s
  {
    set x | x in s
  }

  ghost predicate Distinct<T>(s: seq<T>)
  {
    forall x | x in multiset(s) :: multiset(s)[x] == 1
  }

  /** The tail of a list without repeats has none either, and does not hold the head. */
  lemma DistinctUncons<T>(s: seq<T>)
    requires s != [] && Distinct(s)
    ensures Distinct(s[1..]) && s[0] !in s[1..]
  {
    assert s == [s[0]] + s[1..];
    assert multiset(s) == multiset{s[0]} + multiset(s[1..]);
    assert multiset(s)[s[0]] == 1;
    forall y | y in multiset(s[1..])
      ensures multiset(s[1..])[y] == 1
    {
      assert y in multiset(s);
    }
  }

  /** Without repeats means no two positions hold the same element. */
  lemma {:induction false} DistinctIndices<T>(s: seq<T>)
    ensures Distinct(s) <==> forall i, j | 0 <= i < j < |s| :: s[i] != s[j]
  {
    if s != [] {
      DistinctIndices(s[1..]);
      if Distinct(s) {
        DistinctUncons(s);
        forall i, j | 0 <= i < j < |s|
          ensures s[i] != s[j]
        {
          if i == 0 {
            assert s[j] == s[1..][j - 1];
          } else {
            assert s[i] == s[1..][i - 1] && s[j] == s[1..][j - 1];
          }
        }
      } else {
        assert s == [s[0]] + s[1..];
        if s[0] in s[1..] {
          var j :| 0 <= j < |s[1..]| && s[1..][j] == s[0];
          assert s[0] == s[j + 1];
        } else if !Distinct(s[1..]) {
          var i, j :| 0 <= i < j < |s[1..]| && s[1..][i] == s[1..][j];
          assert s[i + 1] == s[j + 1];
        } else {
          DistinctCons(s[0], s[1..]);
        }
      }
    }
  }

  /** In a list without repeats two different positions hold different elements. */
  lemma DistinctAt<T>(s: seq<T>, i: nat, j: nat)
    requires Distinct(s) && i < |s| && j < |s| && i != j
    ensures s[i] != s[j]
  {
    DistinctIndices(s);
  }

  /** Dropping the head of a list without repeats is removing its only occurrence. */
  lemma WithoutHead<T>(s: seq<T>)
    requires s != [] && Distinct(s)
    ensures Without(s, s[0]) == s[1..]
  {
    DistinctUncons(s);
  }

  /** The same, for the suffix of a list that starts at `i`. */
  lemma WithoutHeadAt<T>(s: seq<T>, i: nat)
    requires i < |s| && Distinct(s[i..])
    ensures Without(s[i..], s[i]) == s[i + 1..]
  {
    WithoutHead(s[i..]);
    assert s[i..][1..] == s[i + 1..];
  }

  /** Putting an element not in a list without repeats in front keeps it without repeats. */
  lemma DistinctCons<T>(x: T, s: seq<T>)
    requires Distinct(s) && x !in s
    ensures Distinct([x] + s)
  {
    assert multiset([x] + s) == multiset{x} + multiset(s);
  }

  lemma {:induction false} WithoutPreservesDistinct<T>(s: seq<T>, x: T)
    requires Distinct(s)
    ensures Distinct(Without(s, x))
  {
    if s != [] {
      DistinctUncons(s);
      WithoutPreservesDistinct(s[1..], x);
      if s[0] != x {
        DistinctCons(s[0], Without(s[1..], x));
      }
    }
  }

  /** Python's `list.remove(x)` when `x` is present: the first occurrence goes, the rest keeps its order. */
  function RemoveFirst<T(==)>(s: seq<T>, x: T): (r: seq<T>)
    ensures x in s ==> |r| == |s| - 1
    ensures x !in s ==> r == s
  {
    if s == [] then []
    else if s[0] == x then s[1..]
    else [s[0]] + RemoveFirst(s[1..], x)
  }

  /** `list.remove(x)` takes away one copy of `x` when there is one, and leaves every other count alone. */
  lemma {:induction false} RemoveFirstCount<T>(s: seq<T>, x: T, y: T)
    ensures multiset(RemoveFirst(s, x))[y] == if y == x && x in s then multiset(s)[y] - 1 else multiset(s)[y]
  {
    if s != [] {
      assert s == [s[0]] + s[1..];
      if s[0] != x {
        RemoveFirstCount(s[1..], x, y);
        assert RemoveFirst(s, x) == [s[0]] + RemoveFirst(s[1..], x);
      }
    }
  }

  /**
   * Removing the first occurrence `copies` times, from a list holding exactly that many copies of `x`
   * or none, leaves no copy of `x` and every other count as it was.
   */
  lemma DropCopies<T>(before: seq<T>, after: seq<T>, x: T, copies: nat, y: T)
    requires copies <= 2
    requires multiset(before)[x] == copies || x !in before
    requires copies == 0 ==> after == before
    requires copies == 1 ==> after == RemoveFirst(before, x)
    requires copies == 2 ==> after == RemoveFirst(RemoveFirst(before, x), x)
    ensures multiset(after)[y] == if y == x then 0 else multiset(before)[y]
  {
    if copies == 1 {
      RemoveFirstCount(before, x, y);
    } else if copies == 2 {
      RemoveFirstCount(before, x, x);
      RemoveFirstCount(before, x, y);
      RemoveFirstCount(RemoveFirst(before, x), x, y);
    }
  }

  /** Removing the only occurrence of `x` from a list without repeats is the same as dropping every occurrence. */
  lemma {:induction false} RemoveFirstOfDistinct<T>(s: seq<T>, x: T)
    requires Distinct(s)
    ensures RemoveFirst(s, x) == Without(s, x)
    ensures Distinct(RemoveFirst(s, x))
  {
    if s != [] {
      DistinctUncons(s);
      RemoveFirstOfDistinct(s[1..], x);
    }
    WithoutPreservesDistinct(s, x);
  }

  /** A list without repeats has as many elements as the set of its elements. */
  lemma {:induction false} DistinctCardinality<T>(s: seq<T>, elems: set<T>)
    requires Distinct(s)
    requires forall x :: x in elems <==> x in s
    ensures |elems| == |s|
  {
    if s != [] {
      DistinctUncons(s);
      DistinctCardinality(s[1..], elems - {s[0]});
    }
  }
}
