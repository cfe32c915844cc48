/** What the comparators handed to webserver/sglib.h promise. */
module Comparators {

  predicate CompareAt<K>(cmp: (K, K) -> int, a: K, b: K, c: K) {
    && (cmp(a, b) < 0 <==> cmp(b, a) > 0)
    && (cmp(a, b) <= 0 && cmp(b, c) <= 0 ==> cmp(a, c) <= 0)
  }

  /** A total preorder of keys. */
  ghost predicate Comparator<K(!new)>(cmp: (K, K) -> int) {
    forall a, b, c :: CompareAt(cmp, a, b, c)
  }
}
