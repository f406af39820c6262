/** What several modules share. */
module Common {

  type Byte = x: nat | x < 256

  datatype Option<T> = None | Some(value: T)

  function Min(a: int, b: int): int {
    if a <= b then a else b
  }

  /** The value at a key of a map to sets, where a missing key stands for the empty set. */
  function SetAt<K, V>(m: map<K, set<V>>, key: K): set<V> {
    if key in m then m[key] else {}
  }

  function Sum(xs: seq<nat>): nat {
    if xs == [] then 0 else Sum(xs[..|xs| - 1]) + xs[|xs| - 1]
  }

  /** memmove to the start of a block. */
  method MoveDown<T>(a: array<T>, from: nat, len: nat)
    requires from + len <= a.Length
    modifies a
    ensures a[..len] == old(a[from..from + len])
  {
    forall i | 0 <= i < len {
      a[i] := a[from + i];
    }
  }
}
