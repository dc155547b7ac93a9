/** Counting in lists, and lists with the same elements in another order. */
module Permutations {

  /** The first element of one list can be taken out of any list with the same elements. */
  lemma TakeOut<T>(one: seq<T>, two: seq<T>) returns (i: nat)
    requires one != [] && multiset(one) == multiset(two)
    ensures i < |two| && two[i] == one[0] && two == two[..i] + ([two[i]] + two[i + 1..])
    ensures multiset(one[1..]) == multiset(two[..i] + two[i + 1..])
  {
    assert one[0] in multiset(two);
    i :| 0 <= i < |two| && two[i] == one[0];
    Split(two, i);
    Split(one, 0);
    assert one[..0] + one[1..] == one[1..];
  }

  lemma Split<T>(s: seq<T>, i: nat)
    requires i < |s|
    ensures s == s[..i] + ([s[i]] + s[i + 1..])
    ensures multiset(s[..i] + s[i + 1..]) == multiset(s) - multiset{s[i]}
  {
    assert s == s[..i] + ([s[i]] + s[i + 1..]);
    assert multiset(s) == multiset(s[..i]) + (multiset{s[i]} + multiset(s[i + 1..]));
  }

  lemma NothingLeft<T>(two: seq<T>)
    requires multiset(two) == multiset{}
    ensures two == []
  {
    assert |multiset(two)| == |two|;
  }

  function Count<T(==)>(s: seq<T>, x: T): nat {
    if s == [] then 0 else (if s[0] == x then 1 else 0) + Count(s[1..], x)
  }

  lemma {:induction false} CountAppend<T>(s: seq<T>, y: T, x: T)
    ensures Count(s + [y], x) == Count(s, x) + if y == x then 1 else 0
  {
    if s != [] {
      CountAppend(s[1..], y, x);
      assert (s + [y])[1..] == s[1..] + [y];
    }
  }

  lemma {:induction false} CountConcat<T>(s: seq<T>, t: seq<T>, x: T)
    ensures Count(s + t, x) == Count(s, x) + Count(t, x)
  {
    if s == [] {
      assert s + t == t;
    } else {
      CountConcat(s[1..], t, x);
      assert (s + t)[1..] == s[1..] + t;
    }
  }

  lemma {:induction false} CountUpdate<T>(s: seq<T>, i: nat, y: T, x: T)
    requires i < |s|
    ensures Count(s[i := y], x) + (if s[i] == x then 1 else 0) == Count(s, x) + if y == x then 1 else 0
  {
    if i == 0 {
      assert s[i := y][1..] == s[1..];
    } else {
      CountUpdate(s[1..], i - 1, y, x);
      assert s[i := y][1..] == s[1..][i - 1 := y];
    }
  }

  lemma {:induction false} CountMember<T>(s: seq<T>, x: T)
    ensures Count(s, x) > 0 <==> x in s
  {
    if s != [] {
      CountMember(s[1..], x);
      assert x in s <==> x == s[0] || x in s[1..];
    }
  }

  lemma {:induction false} CountAll<T>(s: seq<T>, x: T)
    ensures Count(s, x) <= |s| && (Count(s, x) == |s| <==> forall i :: 0 <= i < |s| ==> s[i] == x)
  {
    if s != [] {
      CountAll(s[1..], x);
      assert (forall i :: 0 <= i < |s| ==> s[i] == x)
        <==> s[0] == x && forall i :: 0 <= i < |s[1..]| ==> s[1..][i] == x;
    }
  }

  lemma {:induction false} CountIsMultiplicity<T>(s: seq<T>, x: T)
    ensures Count(s, x) == multiset(s)[x]
  {
    if s != [] {
      CountIsMultiplicity(s[1..], x);
      assert s == [s[0]] + s[1..];
    }
  }

  // Lists without repetition.

  predicate Distinct<T(==)>(s: seq<T>) { forall i, j :: 0 <= i < j < |s| ==> s[i] != s[j] }

  lemma {:induction false} CountDistinct<T>(s: seq<T>, x: T)
    requires Distinct(s)
    ensures Count(s, x) == if x in s then 1 else 0
  {
    if s != [] {
      CountDistinct(s[1..], x);
      assert x in s <==> x == s[0] || x in s[1..];
    }
  }

  lemma {:induction false} DistinctFits<T>(s: seq<T>, all: set<T>)
    requires Distinct(s) && forall x :: x in s ==> x in all
    ensures |s| <= |all|
  {
    if s != [] {
      var last := s[|s| - 1];
      DistinctFits(s[..|s| - 1], all - {last});
    }
  }

  lemma SameElements<T>(one: seq<T>, two: seq<T>)
    requires Distinct(one) && Distinct(two) && forall x :: x in one <==> x in two
    ensures multiset(one) == multiset(two)
  {
    hide Distinct, Count;
    forall x ensures multiset(one)[x] == multiset(two)[x] {
      CountDistinct(one, x);
      CountDistinct(two, x);
      CountIsMultiplicity(one, x);
      CountIsMultiplicity(two, x);
    }
  }

  // Positions in a list.

  /** `at` lists the chosen positions in order. */
  ghost predicate Positions(at: seq<nat>, chosen: set<nat>) {
    (forall i, j :: 0 <= i < j < |at| ==> at[i] < at[j]) && forall i: nat :: i in at <==> i in chosen
  }

  lemma NoPositions(chosen: set<nat>)
    requires chosen == {}
    ensures Positions([], chosen)
  {
  }

  lemma NextPosition(at: seq<nat>, chosen: set<nat>, n: nat)
    requires Positions(at, chosen) && forall i :: i in chosen ==> i < n
    ensures Positions(at + [n], chosen + {n})
  {
    forall i | 0 <= i < |at| ensures at[i] < n {
      assert at[i] in at;
    }
  }

  /** `x` stands somewhere in front of `y`. */
  ghost predicate Precedes<T>(s: seq<T>, x: T, y: T) {
    exists i, j :: 0 <= i < j < |s| && s[i] == x && s[j] == y
  }
}
