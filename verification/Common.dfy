/** What several modules need of optional values, sequences and whole-number arithmetic. */
module Common {

  datatype Option<T> = None | Some(value: T)

  function SetOf<T(==)>(xs: seq<T>): set<T> { set x | x in xs }

  ghost predicate Distinct<T>(xs: seq<T>) {
    forall i, j | 0 <= i < j < |xs| :: xs[i] != xs[j]
  }

  lemma {:induction false} TimesMonotone(a: nat, b: nat, r: nat)
    ensures a <= b ==> a * r <= b * r
    decreases b
  {
    if a < b {
      TimesMonotone(a, b - 1, r);
      assert b * r == (b - 1) * r + r;
    }
  }

  lemma QuotientIff(a: nat, b: nat, q: nat)
    requires b > 0
    ensures a / b == q <==> q * b <= a < (q + 1) * b
  {
    var d := a / b;
    assert d * b <= a < d * b + b;
    if d < q {
      assert (d + 1) * b <= q * b;
    } else if q < d {
      assert (q + 1) * b <= d * b;
    }
  }
}
