/** The set extension of `ExtSet.kt`. */
module ExtSet {

  /** `a.containsNone(b)`: no element of `b` is an element of `a`, i.e. the two
      sets are disjoint. */
  function ContainsNone<T(==)>(a: set<T>, b: set<T>): (r: bool)
    ensures r <==> a * b == {}
  {
    var none := forall e :: e in b ==> e !in a;
    assert none ==> a * b == {} by {
      if none {
        assert forall e :: e !in a * b;
      }
    }
    assert !none ==> a * b != {} by {
      if !none {
        var e :| e in b && e in a;
        assert e in a * b;
      }
    }
    none
  }

  /** Every set contains none of the empty set. */
  lemma ContainsNoneOfEmpty<T>(a: set<T>)
    ensures ContainsNone(a, {})
  {
  }

  /** `containsNone` is symmetric. */
  lemma ContainsNoneSymmetric<T>(a: set<T>, b: set<T>)
    ensures ContainsNone(a, b) == ContainsNone(b, a)
  {
    assert a * b == b * a;
  }

  /** A non-empty subset is never disjoint from its superset. */
  lemma ContainsNoneOfSubset<T>(a: set<T>, b: set<T>)
    requires b != {} && b <= a
    ensures !ContainsNone(a, b)
  {
    var e :| e in b;
    assert e in a * b;
  }
}
