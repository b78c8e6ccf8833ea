/** Finite sums over a set of terms. PHP iterates a term-frequency array in
    insertion order; a sum over its keys does not depend on that order,
    which `SumRemove` states: any term can be taken out first. */
module Sums {

  /** The sum of `f` over `keys`. */
  ghost function Sum(keys: set<string>, f: string -> int): int
    decreases keys
  {
    if keys == {} then 0 else var k :| k in keys; f(k) + Sum(keys - {k}, f)
  }

  /** Any member of the set can be summed first. */
  lemma {:induction false} SumRemove(keys: set<string>, f: string -> int, k: string)
    requires k in keys
    ensures Sum(keys, f) == f(k) + Sum(keys - {k}, f)
    decreases keys
  {
    var j :| j in keys && Sum(keys, f) == f(j) + Sum(keys - {j}, f);
    if j != k {
      SumRemove(keys - {j}, f, k);
      SumRemove(keys - {k}, f, j);
      assert keys - {j} - {k} == keys - {k} - {j};
    }
  }

  /** Adding one new member adds its value. */
  lemma SumAdd(keys: set<string>, f: string -> int, k: string)
    requires k !in keys
    ensures Sum(keys + {k}, f) == f(k) + Sum(keys, f)
  {
    SumRemove(keys + {k}, f, k);
    assert keys + {k} - {k} == keys;
  }

  /** Members where `f` is zero do not change the sum. */
  lemma {:induction false} SumRestrict(keys: set<string>, sub: set<string>, f: string -> int)
    requires sub <= keys
    requires forall t :: t in keys && t !in sub ==> f(t) == 0
    ensures Sum(keys, f) == Sum(sub, f)
    decreases keys
  {
    if keys != sub {
      var k :| k in keys && k !in sub;
      SumRemove(keys, f, k);
      SumRestrict(keys - {k}, sub, f);
    }
  }

  /** Functions that agree on the set have the same sum over it. */
  lemma {:induction false} SumPointwise(keys: set<string>, f: string -> int, g: string -> int)
    requires forall t :: t in keys ==> f(t) == g(t)
    ensures Sum(keys, f) == Sum(keys, g)
    decreases keys
  {
    if keys != {} {
      var k :| k in keys;
      SumRemove(keys, f, k);
      SumRemove(keys, g, k);
      SumPointwise(keys - {k}, f, g);
    }
  }

  /** A sum of terms each at least `lo` (non-negative) is at least `lo`
      times the number of terms. */
  lemma {:induction false} SumAtLeast(keys: set<string>, f: string -> int, lo: nat)
    requires forall t :: t in keys ==> f(t) >= lo
    ensures Sum(keys, f) >= lo * |keys|
    decreases keys
  {
    if keys != {} {
      var k :| k in keys;
      SumRemove(keys, f, k);
      SumAtLeast(keys - {k}, f, lo);
      assert |keys - {k}| == |keys| - 1;
    }
  }
}
