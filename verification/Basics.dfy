/** Small things that several modules need. */
module Basics {
  datatype Option<T> = None | Some(value: T)

  function Without<T>(s: seq<T>, i: int): seq<T>
    requires 0 <= i < |s|
  {
    s[..i] + s[i + 1..]
  }

  lemma AddOne<T>(a: multiset<T>, b: multiset<T>, c: multiset<T>, x: T)
    requires a == b + c
    ensures a + multiset{x} == b + multiset{x} + c
  {
  }

  function Map<S, T>(s: seq<S>, f: S -> T): (r: seq<T>)
    ensures |r| == |s| && forall i :: 0 <= i < |s| ==> r[i] == f(s[i])
  {
    seq(|s|, i requires 0 <= i < |s| => f(s[i]))
  }

  /** The values of `f` on the members of `m`, each as often as it is taken. */
  ghost function Image<S(!new), T>(m: multiset<S>, f: S -> T): multiset<T> {
    if m == multiset{} then multiset{}
    else
      var x :| x in m;
      multiset{f(x)} + Image(m - multiset{x}, f)
  }

  lemma {:induction false} ImageTake<S(!new), T>(m: multiset<S>, x: S, f: S -> T)
    requires x in m
    ensures Image(m, f) == multiset{f(x)} + Image(m - multiset{x}, f)
    decreases |m|
  {
    var y :| y in m && Image(m, f) == multiset{f(y)} + Image(m - multiset{y}, f);
    if y != x {
      ImageTake(m - multiset{y}, x, f);
      ImageTake(m - multiset{x}, y, f);
      var rest := m - multiset{x} - multiset{y};
      assert m - multiset{y} - multiset{x} == rest;
      Exchange(multiset{f(y)}, multiset{f(x)}, Image(rest, f));
    }
  }

  lemma Exchange<T>(a: multiset<T>, b: multiset<T>, c: multiset<T>)
    ensures a + (b + c) == b + (a + c)
  {
  }

  lemma {:induction false} ImageJoin<S(!new), T>(a: multiset<S>, b: multiset<S>, f: S -> T)
    ensures Image(a + b, f) == Image(a, f) + Image(b, f)
    decreases |b|
  {
    if b == multiset{} {
      assert a + b == a;
    } else {
      var x :| x in b;
      ImageTake(b, x, f);
      ImageTake(a + b, x, f);
      assert a + b - multiset{x} == a + (b - multiset{x});
      ImageJoin(a, b - multiset{x}, f);
      Exchange(multiset{f(x)}, Image(a, f), Image(b - multiset{x}, f));
    }
  }

  lemma {:induction false} ImageSeq<S(!new), T>(s: seq<S>, f: S -> T)
    ensures Image(multiset(s), f) == multiset(Map(s, f))
  {
    if s == [] {
      assert multiset(s) == multiset{};
      assert Map(s, f) == [];
    } else {
      var front, x := s[..|s| - 1], s[|s| - 1];
      assert s == front + [x];
      assert Map(s, f) == Map(front, f) + [f(x)];
      ImageSeq(front, f);
      ImageTake(multiset(s), x, f);
      assert multiset(s) - multiset{x} == multiset(front);
    }
  }
}
