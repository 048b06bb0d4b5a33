/** The key order. The Go code takes any key type with a `Less` method
    (a strict total order); this model fixes the key type to the integers,
    as the repository's own key types (`KeyInt`, `KeyUint`) do. */
module Order {

  type Key = int

  /** The strict order every descent compares with. */
  predicate Less(a: Key, b: Key) {
    a < b
  }

  /** Equality derived from the order: neither key is less than the other.
      It stands wherever the Go code compares a found key with the target. */
  predicate SameKey(a: Key, b: Key) {
    !Less(a, b) && !Less(b, a)
  }
}
