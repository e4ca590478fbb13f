/**
  Python's ordering of str values (code point by code point, a proper
  prefix first) and `sorted()` of a set of strings under it.
 */
module TextOrder {

  /** `a <= b` on Python strings. */
  predicate NotAfter(a: string, b: string)
    decreases |a|
  {
    a == [] || (b != [] && (a[0] < b[0] || (a[0] == b[0] && NotAfter(a[1..], b[1..]))))
  }

  lemma {:induction false} NotAfterReflexive(a: string)
    ensures NotAfter(a, a)
    decreases |a|
  {
    if a != [] {
      NotAfterReflexive(a[1..]);
    }
  }

  lemma {:induction false} NotAfterAntisymmetric(a: string, b: string)
    requires NotAfter(a, b) && NotAfter(b, a)
    ensures a == b
    decreases |a|
  {
    if a != [] && b != [] {
      NotAfterAntisymmetric(a[1..], b[1..]);
      assert a == [a[0]] + a[1..] && b == [b[0]] + b[1..];
    }
  }

  lemma {:induction false} NotAfterTransitive(a: string, b: string, c: string)
    requires NotAfter(a, b) && NotAfter(b, c)
    ensures NotAfter(a, c)
    decreases |a|
  {
    if a != [] && a[0] == b[0] && b[0] == c[0] {
      NotAfterTransitive(a[1..], b[1..], c[1..]);
    }
  }

  lemma {:induction false} NotAfterTotal(a: string, b: string)
    ensures NotAfter(a, b) || NotAfter(b, a)
    decreases |a|
  {
    if a != [] && b != [] && a[0] == b[0] {
      NotAfterTotal(a[1..], b[1..]);
    }
  }

  lemma AntisymmetricEverywhere()
    ensures forall a, b :: NotAfter(a, b) && NotAfter(b, a) ==> a == b
  {
    forall a, b | NotAfter(a, b) && NotAfter(b, a) ensures a == b {
      NotAfterAntisymmetric(a, b);
    }
  }

  ghost predicate IsLeast(m: string, s: set<string>)
  {
    m in s && forall x | x in s :: NotAfter(m, x)
  }

  /** Every finite non-empty set of strings has a least element. */
  lemma {:induction false} LeastExists(s: set<string>)
    requires s != {}
    ensures exists m :: IsLeast(m, s)
    decreases s
  {
    var x :| x in s;
    if s == {x} {
      NotAfterReflexive(x);
      assert IsLeast(x, s);
    } else {
      LeastExists(s - {x});
      var m :| IsLeast(m, s - {x});
      NotAfterTotal(m, x);
      if NotAfter(m, x) {
        assert IsLeast(m, s);
      } else {
        NotAfterReflexive(x);
        forall y | y in s ensures NotAfter(x, y) {
          if y != x {
            NotAfterTransitive(x, m, y);
          }
        }
        assert IsLeast(x, s);
      }
    }
  }

  /** The smallest string of a non-empty set. */
  function Least(s: set<string>): (m: string)
    requires s != {}
    ensures m in s && forall x | x in s :: NotAfter(m, x)
  {
    LeastExists(s);
    AntisymmetricEverywhere();
    var m :| m in s && forall x | x in s :: NotAfter(m, x);
    m
  }

  /** `sorted(s)` for a set of strings: every element once, in ascending order. */
  function Sorted(s: set<string>): (r: seq<string>)
    ensures |r| == |s|
    ensures forall i | 0 <= i < |r| :: r[i] in s
    ensures forall x | x in s :: x in r
    ensures forall i, j | 0 <= i < j < |r| :: NotAfter(r[i], r[j]) && r[i] != r[j]
    decreases s
  {
    if s == {} then []
    else
      var m := Least(s);
      [m] + Sorted(s - {m})
  }
}
