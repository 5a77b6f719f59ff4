/** The order in which the server visits usernames and room names.
    Both `std::map<std::string, _>` and `std::set<std::string>` iterate their
    keys in ascending `std::string` order, so every fan-out loop of the server
    sends in that order. Strings here are byte strings: one `char` per byte. */
module Ordering {

  /** `a < b` for `std::string`: lexicographic by character code, and a proper
      prefix comes before its extensions. */
  predicate Below(a: string, b: string)
    decreases |a|
  {
    b != [] && (a == [] || a[0] < b[0] || (a[0] == b[0] && Below(a[1..], b[1..])))
  }

  lemma {:induction false} BelowIrreflexive(a: string)
    ensures !Below(a, a)
    decreases |a|
  {
    if a != [] {
      BelowIrreflexive(a[1..]);
    }
  }

  lemma {:induction false} BelowTransitive(a: string, b: string, c: string)
    requires Below(a, b) && Below(b, c)
    ensures Below(a, c)
    decreases |a|
  {
    if a != [] && a[0] == b[0] && b[0] == c[0] {
      BelowTransitive(a[1..], b[1..], c[1..]);
    }
  }

  lemma {:induction false} BelowTotal(a: string, b: string)
    ensures a == b || Below(a, b) || Below(b, a)
    decreases |a|
  {
    if a != [] && b != [] && a[0] == b[0] {
      BelowTotal(a[1..], b[1..]);
      if a[1..] == b[1..] {
        assert a == [a[0]] + a[1..] && b == [b[0]] + b[1..];
      }
    }
  }

  /** g is the largest element of s. */
  predicate IsGreatest(g: string, s: set<string>)
  {
    g in s && forall x :: x in s && x != g ==> Below(x, g)
  }

  lemma {:induction false} GreatestExists(s: set<string>)
    requires s != {}
    ensures exists g :: IsGreatest(g, s)
    decreases |s|
  {
    var x :| x in s;
    if s == {x} {
      assert IsGreatest(x, s);
    } else {
      GreatestExists(s - {x});
      var g :| IsGreatest(g, s - {x});
      BelowTotal(x, g);
      if Below(x, g) {
        assert IsGreatest(g, s);
      } else {
        forall y | y in s && y != x
          ensures Below(y, x)
        {
          if y != g {
            BelowTransitive(y, g, x);
          }
        }
        assert IsGreatest(x, s);
      }
    }
  }

  lemma GreatestUnique(g: string, h: string, s: set<string>)
    requires IsGreatest(g, s) && IsGreatest(h, s)
    ensures g == h
  {
    if g != h {
      BelowTransitive(g, h, g);
      BelowIrreflexive(g);
    }
  }

  ghost function Greatest(s: set<string>): (g: string)
    requires s != {}
    ensures IsGreatest(g, s)
  {
    GreatestExists(s);
    var g :| IsGreatest(g, s);
    g
  }

  /** Every element strictly below every later one (so no element repeats). */
  predicate Increasing(r: seq<string>)
  {
    forall i, j {:trigger Below(r[i], r[j])} :: 0 <= i < j < |r| ==> Below(r[i], r[j])
  }

  /** The elements of s in the order a `std::set` or the keys of a `std::map`
      are visited. */
  ghost function SortedSet(s: set<string>): (r: seq<string>)
    ensures |r| == |s|
    ensures forall x :: x in r <==> x in s
    ensures Increasing(r)
    decreases |s|
  {
    if s == {} then []
    else
      var g := Greatest(s);
      SortedSet(s - {g}) + [g]
  }

  lemma SortedSetLast(s: set<string>, g: string)
    requires IsGreatest(g, s)
    ensures SortedSet(s) == SortedSet(s - {g}) + [g]
  {
    GreatestUnique(g, Greatest(s), s);
  }

  /** Any increasing enumeration of s is the sorted one: the visiting order is
      determined by the set alone. */
  lemma {:induction false} SortedSetUnique(s: set<string>, r: seq<string>)
    requires Increasing(r)
    requires forall x :: x in r <==> x in s
    ensures r == SortedSet(s)
    decreases |r|
  {
    if r == [] {
      assert forall x :: x !in s;
      assert s == {};
    } else {
      var n := |r| - 1;
      var g, rest := r[n], r[..n];
      LastIsGreatest(s, r);
      SortedSetLast(s, g);
      FrontEnumerates(s, r);
      SortedSetUnique(s - {g}, rest);
      assert r == rest + [g];
    }
  }

  lemma LastIsGreatest(s: set<string>, r: seq<string>)
    requires r != [] && Increasing(r)
    requires forall x :: x in r <==> x in s
    ensures IsGreatest(r[|r| - 1], s)
  {
    var n := |r| - 1;
    forall x | x in s && x != r[n]
      ensures Below(x, r[n])
    {
      var i :| 0 <= i < |r| && r[i] == x;
    }
  }

  /** Dropping the last element of an increasing enumeration of s leaves an
      increasing enumeration of the rest of s. */
  lemma FrontEnumerates(s: set<string>, r: seq<string>)
    requires r != [] && Increasing(r)
    requires forall x :: x in r <==> x in s
    ensures var n := |r| - 1;
      Increasing(r[..n]) && forall x :: x in r[..n] <==> x in s - {r[n]}
  {
    var n := |r| - 1;
    var g, rest := r[n], r[..n];
    forall i, j | 0 <= i < j < n
      ensures Below(rest[i], rest[j])
    {
      assert Below(r[i], r[j]);
    }
    forall x
      ensures x in rest <==> x in s - {g}
    {
      if x in rest {
        var i :| 0 <= i < n && rest[i] == x;
        assert Below(r[i], r[n]);
        if x == g {
          BelowIrreflexive(g);
        }
      }
      if x in s - {g} {
        var i :| 0 <= i < |r| && r[i] == x;
        assert rest[i] == x;
      }
    }
  }

  /** Concatenation regrouped; stated once so that proofs with many
      quantifiers in scope need not rediscover it. */
  lemma Regroup<T>(a: seq<T>, b: seq<T>, c: seq<T>)
    ensures a + b + c == a + (b + c)
  {
  }

  /** Enumerates s in ascending order, as a range-for over a `std::set`, or
      over the keys of a `std::map`, does. */
  method InOrder(s: set<string>) returns (r: seq<string>)
    ensures r == SortedSet(s)
  {
    r := [];
    var rest := s;
    while rest != {}
      invariant rest <= s
      invariant SortedSet(rest) + r == SortedSet(s)
      decreases |rest|
    {
      GreatestExists(rest);
      var g :| g in rest && IsGreatest(g, rest);
      SortedSetLast(rest, g);
      Regroup(SortedSet(rest - {g}), [g], r);
      r := [g] + r;
      rest := rest - {g};
    }
  }
}
