// Three-way comparison functions, as the C code passes them around.

module Preorders {

  /** The comparison's answer. Naming the call keeps it free of any dependence on the heap. */
  function Call<T>(cmp: (T, T) -> int, x: T, y: T): int {
    cmp(x, y)
  }

  /** Exchanging the arguments exchanges the signs. */
  ghost predicate Mirrors<T>(cmp: (T, T) -> int, x: T, y: T) {
    Call(cmp, x, y) < 0 <==> Call(cmp, y, x) > 0
  }

  /** Two comparisons in the same direction chain. */
  ghost predicate Chains<T>(cmp: (T, T) -> int, x: T, y: T, z: T) {
    Call(cmp, x, y) <= 0 && Call(cmp, y, z) <= 0 ==> Call(cmp, x, z) <= 0
  }

  /** `cmp` orders its arguments. Proofs name the instances of the two laws they use. */
  ghost predicate IsPreorder<T(!new)>(cmp: (T, T) -> int) {
    (forall x, y :: Mirrors(cmp, x, y)) && (forall x, y, z :: Chains(cmp, x, y, z))
  }

  /** A strict comparison survives chaining with a weak one, and equal elements compare alike with others. */
  lemma ChainLaws<T(!new)>(cmp: (T, T) -> int, x: T, y: T, z: T)
    requires IsPreorder(cmp)
    ensures Call(cmp, x, x) == 0
    ensures Call(cmp, x, y) < 0 <==> Call(cmp, y, x) > 0
    ensures Call(cmp, x, y) == 0 <==> Call(cmp, y, x) == 0
    ensures Call(cmp, x, y) <= 0 && Call(cmp, y, z) <= 0 ==> Call(cmp, x, z) <= 0
    ensures Call(cmp, x, y) < 0 && Call(cmp, y, z) <= 0 ==> Call(cmp, x, z) < 0
    ensures Call(cmp, x, y) <= 0 && Call(cmp, y, z) < 0 ==> Call(cmp, x, z) < 0
    ensures Call(cmp, x, y) == 0 && Call(cmp, y, z) == 0 ==> Call(cmp, x, z) == 0
  {
    assert Mirrors(cmp, x, x) && Mirrors(cmp, x, y) && Mirrors(cmp, y, x);
    assert Mirrors(cmp, y, z) && Mirrors(cmp, z, y) && Mirrors(cmp, x, z) && Mirrors(cmp, z, x);
    assert Chains(cmp, x, y, z) && Chains(cmp, z, x, y) && Chains(cmp, y, z, x) && Chains(cmp, z, y, x);
  }
}
