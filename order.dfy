/**
  Python's ordering of `str` values, used by `sorted(...)`: lexicographic by
  code point, a proper prefix sorting first.
 */
module Order {

  predicate Less(a: string, b: string)
    decreases |a|
  {
    |b| > 0 && (|a| == 0 || a[0] < b[0] || (a[0] == b[0] && Less(a[1..], b[1..])))
  }

  lemma {:induction false} LessIrreflexive(a: string)
    ensures !Less(a, a)
    decreases |a|
  {
    if |a| > 0 {
      LessIrreflexive(a[1..]);
    }
  }

  lemma {:induction false} LessTransitive(a: string, b: string, c: string)
    requires Less(a, b) && Less(b, c)
    ensures Less(a, c)
    decreases |a|
  {
    if |a| > 0 && a[0] == b[0] && b[0] == c[0] {
      LessTransitive(a[1..], b[1..], c[1..]);
    }
  }

  lemma {:induction false} LessTotal(a: string, b: string)
    ensures a == b || Less(a, b) || Less(b, a)
    decreases |a|
  {
    if |a| > 0 && |b| > 0 && a[0] == b[0] {
      LessTotal(a[1..], b[1..]);
      if a[1..] == b[1..] {
        assert a == [a[0]] + a[1..] && b == [b[0]] + b[1..];
      }
    }
  }

  predicate StrictlySorted(q: seq<string>)
  {
    forall a, b :: 0 <= a < b < |q| ==> Less(q[a], q[b])
  }

  /** Every non-empty finite set of strings has a least element. */
  lemma {:induction false} LeastExists(s: set<string>)
    requires s != {}
    ensures exists m :: m in s && forall y :: y in s && y != m ==> Less(m, y)
    decreases |s|
  {
    var x :| x in s;
    var rest := s - {x};
    if rest == {} {
      assert s == {x};
    } else {
      LeastExists(rest);
      var m :| m in rest && forall y :: y in rest && y != m ==> Less(m, y);
      LessTotal(m, x);
      if Less(m, x) {
        assert forall y :: y in s && y != m ==> Less(m, y);
      } else {
        forall y | y in s && y != x ensures Less(x, y) {
          if y != m {
            LessTransitive(x, m, y);
          }
        }
      }
    }
  }

  /** `sorted(names)`: the names of a set in strictly increasing order. */
  method Sort(names: set<string>) returns (r: seq<string>)
    ensures StrictlySorted(r)
    ensures forall x :: x in r <==> x in names
  {
    r := [];
    var rest := names;
    while rest != {}
      invariant rest <= names && forall x :: x in names <==> x in r || x in rest
      invariant StrictlySorted(r)
      invariant forall a, y :: 0 <= a < |r| && y in rest ==> Less(r[a], y)
      decreases rest
    {
      LeastExists(rest);
      var m :| m in rest && forall y :: y in rest && y != m ==> Less(m, y);
      forall a | 0 <= a < |r| ensures r[a] != m {
        LessIrreflexive(m);
      }
      r := r + [m];
      rest := rest - {m};
    }
  }

  lemma LessAsymmetric(a: string, b: string)
    ensures !(Less(a, b) && Less(b, a))
  {
    if Less(a, b) && Less(b, a) {
      LessTransitive(a, b, a);
      LessIrreflexive(a);
    }
  }

  /** The elements of `q[1..]`, when `q` is strictly sorted: everything in `q` but its head. */
  lemma TailElements(q: seq<string>, x: string)
    requires StrictlySorted(q) && q != []
    ensures x in q[1..] <==> x in q && x != q[0]
  {
    if x in q[1..] {
      var b :| 1 <= b < |q| && q[b] == x;
      LessIrreflexive(x);
    }
    if x in q && x != q[0] {
      var b :| 0 <= b < |q| && q[b] == x;
      assert q[1..][b - 1] == x;
    }
  }

  /** A strictly sorted sequence is fixed by its elements: `sorted` has one answer. */
  lemma {:induction false} SortedUnique(p: seq<string>, q: seq<string>)
    requires StrictlySorted(p) && StrictlySorted(q)
    requires forall x :: x in p <==> x in q
    ensures p == q
    decreases |p|
  {
    SameEmptiness(p, q);
    if p != [] {
      assert p[0] in q && q[0] in p;
      var a :| 0 <= a < |p| && p[a] == q[0];
      var b :| 0 <= b < |q| && q[b] == p[0];
      LessAsymmetric(p[0], q[0]);
      assert p[0] == q[0];
      forall x ensures x in p[1..] <==> x in q[1..] {
        TailElements(p, x);
        TailElements(q, x);
      }
      SortedUnique(p[1..], q[1..]);
      assert p == [p[0]] + p[1..] && q == [q[0]] + q[1..];
    }
  }

  lemma SameEmptiness(p: seq<string>, q: seq<string>)
    requires forall x :: x in p <==> x in q
    ensures p == [] <==> q == []
  {
    if p != [] {
      assert p[0] in q;
    }
    if q != [] {
      assert q[0] in p;
    }
  }
}
