/** The ascending order Spark SQL uses for string columns in ORDER BY, min and max.
    Strings are compared character by character; comparing code points gives the same
    answer as comparing the bytes of their UTF-8 encodings, which is what the engine does. */
module LexOrder {

  /** Strict lexicographic order: a proper prefix comes first. */
  predicate StrLess(a: string, b: string)
    decreases |a|
  {
    if |a| == 0 then |b| != 0
    else if |b| == 0 then false
    else a[0] < b[0] || (a[0] == b[0] && StrLess(a[1..], b[1..]))
  }

  predicate StrLe(a: string, b: string)
  {
    a == b || StrLess(a, b)
  }

  lemma {:induction false} StrLessIrreflexive(a: string)
    ensures !StrLess(a, a)
    decreases |a|
  {
    if |a| > 0 {
      StrLessIrreflexive(a[1..]);
    }
  }

  lemma {:induction false} StrLessTransitive(a: string, b: string, c: string)
    requires StrLess(a, b) && StrLess(b, c)
    ensures StrLess(a, c)
    decreases |a|
  {
    if |a| > 0 && |b| > 0 && |c| > 0 && a[0] == b[0] && b[0] == c[0] {
      StrLessTransitive(a[1..], b[1..], c[1..]);
    }
  }

  /** Any two different strings are ordered one way or the other. */
  lemma {:induction false} StrLessTotal(a: string, b: string)
    ensures a == b || StrLess(a, b) || StrLess(b, a)
    decreases |a|
  {
    if |a| > 0 && |b| > 0 && a[0] == b[0] {
      StrLessTotal(a[1..], b[1..]);
      if a[1..] == b[1..] {
        assert a == [a[0]] + a[1..] && b == [b[0]] + b[1..];
      }
    }
  }

  lemma StrLessAsymmetric(a: string, b: string)
    requires StrLess(a, b)
    ensures !StrLess(b, a)
  {
    if StrLess(b, a) {
      StrLessTransitive(a, b, a);
      StrLessIrreflexive(a);
    }
  }

  /** Comparing two concatenations whose first parts have the same length compares
      the first parts, and on a tie the second parts. */
  lemma {:induction false} StrLessConcat(u: string, v: string, u': string, v': string)
    requires |u| == |u'|
    ensures StrLess(u + v, u' + v') <==> StrLess(u, u') || (u == u' && StrLess(v, v'))
    decreases |u|
  {
    if |u| == 0 {
      assert u + v == v && u' + v' == v' && u == u';
      StrLessIrreflexive(u);
    } else {
      assert (u + v)[0] == u[0] && (u' + v')[0] == u'[0];
      assert (u + v)[1..] == u[1..] + v && (u' + v')[1..] == u'[1..] + v';
      StrLessConcat(u[1..], v, u'[1..], v');
      assert u == [u[0]] + u[1..] && u' == [u'[0]] + u'[1..];
    }
  }
}
