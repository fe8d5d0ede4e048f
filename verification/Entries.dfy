/** The plain data stored in every table: keys compare by `==`, which stands for the
    user's equality, so equal keys have equal hashes under any hash function. */
module Entries {
  type Key(==, 0, !new)
  type Value(==, 0, !new)

  datatype Entry = Entry(key: Key, val: Value)

  /** A pointer or iterator that may be absent. */
  datatype Option<T> = None | Some(value: T)

  /** A 64-bit hash code. */
  type Hash64 = h: nat | h < 0x1_0000_0000_0000_0000
}
