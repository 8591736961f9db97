/** Shared vocabulary for the models: an optional value, the order in which
    a set is iterated, and cardinality facts about sets and maps. */
module Collections {

  datatype Option<T> = None | Some(value: T)

  /** `order` lists every element of `s` exactly once, in some order. */
  predicate IsEnumeration<T>(order: seq<T>, s: set<T>)
  {
    multiset(order) == multiset(s)
  }

  /** Iterating a set visits its elements in an order the program does not
      control; each call may pick any enumeration. */
  method Enumerate<T(==)>(s: set<T>) returns (order: seq<T>)
    ensures IsEnumeration(order, s)
  {
    order := [];
    var rest := s;
    while rest != {}
      invariant rest <= s
      invariant multiset(order) + multiset(rest) == multiset(s)
      decreases rest
    {
      var x :| x in rest;
      assert multiset(rest) == multiset(rest - {x}) + multiset{x};
      order := order + [x];
      rest := rest - {x};
    }
  }

  lemma EnumerationMembers<T>(order: seq<T>, s: set<T>)
    requires IsEnumeration(order, s)
    ensures forall x :: x in order <==> x in s
    ensures |order| == |s|
  {
    forall x ensures x in order <==> x in s {
      assert x in order <==> x in multiset(order);
      assert x in s <==> x in multiset(s);
    }
    assert |order| == |multiset(order)| == |multiset(s)|;
  }

  /** No element occurs twice. */
  predicate Distinct<T(==)>(s: seq<T>)
  {
    forall a, b :: 0 <= a < b < |s| ==> s[a] != s[b]
  }

  /** An enumeration of a set lists no element twice. */
  lemma EnumerationDistinct<T>(order: seq<T>, s: set<T>)
    requires IsEnumeration(order, s)
    ensures Distinct(order)
  {
    forall a, b | 0 <= a < b < |order| ensures order[a] != order[b] {
      var x := order[a];
      assert order == order[..b] + [order[b]] + order[b + 1..];
      assert order[..b][a] == x;
      assert multiset(order)[x] >= multiset(order[..b])[x] + multiset([order[b]])[x];
      assert multiset(s)[x] <= 1;
    }
  }

  /** Two lists without repeats and without a common element join into one. */
  lemma DistinctConcat<T>(a: seq<T>, b: seq<T>)
    requires Distinct(a) && Distinct(b)
    requires forall x :: x in a ==> x !in b
    ensures Distinct(a + b)
  {
    forall i, j | 0 <= i < j < |a + b| ensures (a + b)[i] != (a + b)[j] {
      if j < |a| {
        assert (a + b)[j] == a[j] && (a + b)[i] == a[i];
      } else if i < |a| {
        assert (a + b)[j] == b[j - |a|] && (a + b)[i] == a[i];
        assert a[i] in a;
      } else {
        assert (a + b)[j] == b[j - |a|] && (a + b)[i] == b[i - |a|];
      }
    }
  }

  /** A subset is no larger, and a subset of the same size is the whole set. */
  lemma SubsetCardinality<T>(a: set<T>, b: set<T>)
    requires a <= b
    ensures |a| <= |b|
    ensures |a| == |b| ==> a == b
    decreases b
  {
    if a != b {
      var x :| x in b && x !in a;
      SubsetCardinality(a, b - {x});
    }
  }

  /** A smaller subset misses some element. */
  lemma ProperSubsetMisses<T>(a: set<T>, b: set<T>)
    requires a <= b && |a| < |b|
    ensures b - a != {}
  {
    assert a + (b - a) == b;
    assert a * (b - a) == {};
  }

  /** No two keys share a value. */
  predicate Injective<K, V(==)>(m: map<K, V>)
  {
    forall a, b :: a in m && b in m && a != b ==> m[a] != m[b]
  }

  lemma {:induction false} ValuesCardinality<K, V>(m: map<K, V>)
    ensures |m.Values| <= |m|
    decreases |m|
  {
    if m != map[] {
      var k :| k in m;
      var m' := m - {k};
      assert m.Values <= m'.Values + {m[k]} by {
        forall v | v in m.Values ensures v in m'.Values + {m[k]} {
          var key :| key in m && m[key] == v;
          if key != k { assert m'[key] == v; }
        }
      }
      ValuesCardinality(m');
      SubsetCardinality(m.Values, m'.Values + {m[k]});
    }
  }

  /** The values are pairwise distinct exactly when there are as many
      distinct values as keys: the form `len(d) == len(set(d.values()))`. */
  lemma {:induction false} InjectiveIffDistinctCount<K, V>(m: map<K, V>)
    ensures Injective(m) <==> |m.Values| == |m|
    decreases |m|
  {
    if m != map[] {
      var k :| k in m;
      var m' := m - {k};
      assert m.Values == m'.Values + {m[k]} by {
        forall v | v in m.Values ensures v in m'.Values + {m[k]} {
          var key :| key in m && m[key] == v;
          if key != k { assert m'[key] == v; }
        }
        forall v | v in m'.Values ensures v in m.Values {
          var key :| key in m' && m'[key] == v;
          assert m[key] == v;
        }
      }
      if m[k] in m'.Values {
        var k2 :| k2 in m' && m'[k2] == m[k];
        assert !Injective(m) by { assert k2 != k && m[k2] == m[k]; }
        ValuesCardinality(m');
        assert m.Values == m'.Values;
      } else {
        InjectiveIffDistinctCount(m');
        assert Injective(m) <==> Injective(m') by {
          if Injective(m') {
            forall a, b | a in m && b in m && a != b ensures m[a] != m[b] {
              if a == k { assert m'[b] == m[b]; }
              else if b == k { assert m'[a] == m[a]; }
              else { assert m'[a] == m[a] && m'[b] == m[b]; }
            }
          }
        }
      }
    }
  }

  /** Some element of a non-empty set. */
  ghost function Pick<T>(s: set<T>): (x: T)
    requires s != {}
    ensures x in s
  {
    var x :| x in s; x
  }

  /** Every position moved one place to the right. */
  function Shifted(s: set<int>): set<int>
  {
    set k | k in s :: k + 1
  }

  lemma ShiftSplit(s: set<int>, x: int)
    requires x in s
    ensures Shifted(s) == Shifted(s - {x}) + {x + 1}
    ensures x + 1 !in Shifted(s - {x})
  {
    forall y | y in Shifted(s) && y != x + 1 ensures y in Shifted(s - {x}) {
      var k :| k in s && y == k + 1;
      assert k in s - {x};
    }
  }

  lemma {:induction false} ShiftedCardinality(s: set<int>)
    ensures |Shifted(s)| == |s|
    decreases s
  {
    if s != {} {
      var x := Pick(s);
      ShiftedCardinality(s - {x});
      ShiftSplit(s, x);
    }
  }
}
