/** Option, and the few facts about sequences that several components share. */
module Prelude {

  datatype Option<+T> = None | Some(value: T)

  /** The names occurring in a sequence: a JavaScript `Set` kept in insertion order is a sequence here. */
  ghost function Elems<T>(s: seq<T>): set<T> {
    set x | x in s
  }

  lemma ElemsAppend<T>(s: seq<T>, x: T)
    ensures Elems(s + [x]) == Elems(s) + {x}
  {
  }

  function Concat<T>(parts: seq<seq<T>>): seq<T> {
    if parts == [] then [] else Concat(parts[..|parts| - 1]) + parts[|parts| - 1]
  }

  lemma ConcatSnoc<T>(parts: seq<seq<T>>, last: seq<T>)
    ensures Concat(parts + [last]) == Concat(parts) + last
  {
    assert (parts + [last])[..|parts|] == parts;
  }

}

/** Division by a positive number, from multiplication. */
module Division {

  lemma {:induction false} MulStep(a: nat, b: nat, k: nat)
    requires a < b
    ensures a * k + k <= b * k
  {
    if a + 1 < b {
      MulStep(a, b - 1, k);
    }
    assert b * k == (b - 1) * k + k;
  }

  lemma DivUnique(n: nat, k: nat, q: nat, r: nat)
    requires k > 0 && n == q * k + r && r < k
    ensures n / k == q
  {
    var d := n / k;
    assert d * k <= n < d * k + k by {
      assert n == d * k + n % k;
    }
    if d > q {
      MulStep(q, d, k);
    } else if d < q {
      MulStep(d, q, k);
    }
  }

  lemma DivBound(q: nat, k: nat, n: nat)
    requires k > 0 && q * k <= n
    ensures q <= n / k
  {
    var d := n / k;
    assert n < d * k + k by {
      assert n == d * k + n % k;
    }
    if d < q {
      MulStep(d, q, k);
    }
  }
}
