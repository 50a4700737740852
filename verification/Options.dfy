// A value that may be missing: a null pointer, or a key that is not found.
module Options {
  datatype Option<+T> = None | Some(value: T)

  ghost function Lookup<K, V>(m: map<K, V>, k: K): Option<V> {
    if k in m then Some(m[k]) else None
  }
}
