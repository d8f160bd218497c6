// Vocabulary shared by the modules.
module Types {

  newtype Byte = b: int | 0 <= b < 256

  type Hash = seq<Byte>

  // The stored content of one block; every block but a file's last has the block size.
  type Block = seq<Byte>

  type Ino = nat

  datatype BlockAddress = BlockAddress(ino: Ino, index: nat)

  // The most pairs that one scan returns.
  const MAX_TIKV_SCAN_LIMIT: nat := 10240

  datatype Option<+T> = None | Some(value: T)

  datatype Result<+T, +E> = Ok(value: T) | Err(error: E)

  function Lookup<K, V>(m: map<K, V>, k: K): Option<V> {
    if k in m then Some(m[k]) else None
  }

  lemma SameLookups<K(!new), V>(l: map<K, V>, r: map<K, V>)
    requires forall k :: Lookup(l, k) == Lookup(r, k)
    ensures l == r
  {
    forall k ensures (k in l <==> k in r) && (k in l ==> l[k] == r[k]) {
      assert Lookup(l, k) == Lookup(r, k);
    }
  }
}
