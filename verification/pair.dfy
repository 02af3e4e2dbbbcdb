/** The key-value record stored as the payload of a list node. */
module Pairs {

  datatype Pair<K, V> = Pair(key: K, value: V)
}
