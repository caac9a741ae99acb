/** Values shared by the gNMI and Cisco MDT models: the Go error convention
    as Result/Option, the fixed-width integers the protobuf messages carry,
    and Go's map type as a heap object (Go maps are reference values that a
    callee updates in place, and a nil map is a null reference). */
module Common {

  datatype Option<+T> = None | Some(value: T)

  datatype Result<+T, +E> = Success(value: T) | Failure(error: E)

  type uint32 = x: int | 0 <= x < 0x1_0000_0000
  type uint64 = x: int | 0 <= x < 0x1_0000_0000_0000_0000
  type int32 = x: int | -0x8000_0000 <= x < 0x8000_0000
  type int64 = x: int | -0x8000_0000_0000_0000 <= x < 0x8000_0000_0000_0000

  /** Go's conversion uint64(x) of a signed 64-bit value: two's-complement
      reinterpretation, so a negative x wraps to x + 2^64. */
  function ToUint64(x: int64): (r: uint64)
    ensures x >= 0 ==> r == x
    ensures x < 0 ==> r == x + 0x1_0000_0000_0000_0000
  {
    x % 0x1_0000_0000_0000_0000
  }

  /** Lookup in a map value, None for an absent key (Go's `v, ok := m[k]`). */
  function Get<K, V>(m: map<K, V>, k: K): Option<V>
  {
    if k in m then Some(m[k]) else None
  }

  /** A non-empty sequence is its front followed by its last element. */
  lemma SplitLast<T>(s: seq<T>)
    requires |s| > 0
    ensures s == s[..|s| - 1] + [s[|s| - 1]]
  {
  }

  /** A Go `map[string]V` that is shared by reference. */
  class Table<V> {
    var entries: map<string, V>

    /** `make(map[string]V)` */
    constructor ()
      ensures entries == map[]
    {
      entries := map[];
    }

    /** A map literal or a map seeded by the caller. */
    constructor Of(m: map<string, V>)
      ensures entries == m
    {
      entries := m;
    }

    /** `t[k] = v` */
    method Put(k: string, v: V)
      modifies this
      ensures entries == old(entries)[k := v]
    {
      entries := entries[k := v];
    }
  }
}
