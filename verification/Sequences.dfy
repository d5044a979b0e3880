/** Members and repetition of sequences. */
module Sequences {
  function Elements<T>(s: seq<T>): set<T> { set x | x in s }

  predicate Distinct<T(==)>(s: seq<T>)
  {
    forall i, j | 0 <= i < j < |s| :: s[i] != s[j]
  }

  lemma {:induction false} ElementsCount<T>(s: seq<T>)
    ensures |Elements(s)| <= |s|
    ensures Distinct(s) <==> |Elements(s)| == |s|
  {
    if s == [] {
      assert Elements(s) == {};
    } else {
      var n := |s| - 1;
      ElementsCount(s[..n]);
      assert s == s[..n] + [s[n]];
      assert Elements(s) == Elements(s[..n]) + {s[n]};
      if s[n] in s[..n] {
        assert Elements(s) == Elements(s[..n]);
      }
    }
  }

  /** `filter((y) => y !== x)` */
  function Without<T(==,!new)>(s: seq<T>, x: T): (r: seq<T>)
    ensures |r| <= |s| && forall y :: y in r <==> y in s && y != x
  {
    if s == [] then []
    else
      var n := |s| - 1;
      var rest := Without(s[..n], x);
      assert s == s[..n] + [s[n]];
      if s[n] == x then rest else rest + [s[n]]
  }

  lemma {:induction false} WithoutDistinct<T(!new)>(s: seq<T>, x: T)
    requires Distinct(s)
    ensures Distinct(Without(s, x)) && |Without(s, x)| == |s| - (if x in s then 1 else 0)
  {
    if s != [] {
      var n := |s| - 1;
      WithoutDistinct(s[..n], x);
      assert s == s[..n] + [s[n]];
      assert forall i | 0 <= i < n :: s[i] == s[..n][i];
      assert s[n] !in s[..n];
      var rest := Without(s[..n], x);
      assert forall i | 0 <= i < |rest| :: rest[i] in rest;
    }
  }

  lemma {:induction false} WithoutConcat<T(!new)>(a: seq<T>, b: seq<T>, x: T)
    ensures Without(a + b, x) == Without(a, x) + Without(b, x)
  {
    if b == [] {
      assert a + b == a;
    } else {
      var n := |b| - 1;
      WithoutConcat(a, b[..n], x);
      assert (a + b)[..|a + b| - 1] == a + b[..n];
    }
  }

  /** Some list of the members of a set. */
  lemma {:induction false} Listed<T>(x: set<T>) returns (s: seq<T>)
    ensures Elements(s) == x && |s| == |x|
  {
    s := [];
    var rest := x;
    while rest != {}
      invariant rest <= x && Elements(s) == x - rest && |s| == |x| - |rest|
      decreases |rest|
    {
      var y :| y in rest;
      assert Elements(s + [y]) == Elements(s) + {y};
      s, rest := s + [y], rest - {y};
    }
  }
}
