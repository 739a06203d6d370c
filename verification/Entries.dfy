/** Vocabulary shared by the two hash tables. */
module Entries {
  datatype Entry<K, V> = Entry(key: K, value: V)

  datatype Option<+T> = None | Some(value: T)
}
