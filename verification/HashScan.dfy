// Reading the block hashes of an inode by scanning the store in chunks
// (`hb_get_block_hash_list_by_block_range` and its chunked form in
// src/fs/mini_transaction.rs).
module HashScan {
  import opened Types
  import opened Arith
  import opened ByteOrder
  import opened Keys

  // The store holds bytes under bytes.
  type Kv = map<Bytes, Bytes>

  function Scanned(kv: Kv, from: Bytes, to: Bytes): set<Bytes> {
    set k | k in kv && InScan(k, from, to)
  }

  lemma {:induction false} BeforeIsTransitive(a: Bytes, b: Bytes, c: Bytes)
    requires Before(a, b) && Before(b, c)
    ensures Before(a, c)
  {
    if a != [] && a[0] == b[0] && b[0] == c[0] {
      BeforeIsTransitive(a[1..], b[1..], c[1..]);
    }
  }

  method Least(keys: set<Bytes>) returns (least: Bytes)
    requires keys != {}
    ensures least in keys && forall k | k in keys :: !Before(k, least)
  {
    least :| least in keys;
    NeverBeforeItself(least);
    var todo := keys - {least};
    while todo != {}
      invariant todo <= keys && least in keys && forall k | k in keys - todo :: !Before(k, least)
    {
      var k :| k in todo;
      todo := todo - {k};
      if Before(k, least) {
        forall x | x in keys - todo ensures !Before(x, k) {
          if Before(x, k) {
            if x == k { NeverBeforeItself(x); } else { BeforeIsTransitive(x, k, least); }
          }
        }
        least := k;
      }
    }
  }

  predicate HasKey(r: seq<(Bytes, Bytes)>, k: Bytes) {
    exists i | 0 <= i < |r| :: r[i].0 == k
  }

  // The first `limit` pairs of the range, in key order.
  ghost predicate IsScan(kv: Kv, from: Bytes, to: Bytes, limit: nat, r: seq<(Bytes, Bytes)>) {
    && |r| <= limit
    && (forall i | 0 <= i < |r| :: r[i].0 in Scanned(kv, from, to) && r[i].1 == kv[r[i].0])
    && (forall i, j | 0 <= i < j < |r| :: r[i].0 != r[j].0 && !Before(r[j].0, r[i].0))
    && (|r| < limit ==> forall k | k in Scanned(kv, from, to) :: HasKey(r, k))
    && (forall k, i | k in Scanned(kv, from, to) && !HasKey(r, k) && 0 <= i < |r| :: !Before(k, r[i].0))
  }

  method Scan(kv: Kv, from: Bytes, to: Bytes, limit: nat) returns (r: seq<(Bytes, Bytes)>)
    ensures IsScan(kv, from, to, limit, r)
  {
    r := [];
    var todo := Scanned(kv, from, to);
    while todo != {} && |r| < limit
      invariant |r| <= limit && todo <= Scanned(kv, from, to)
      invariant forall i | 0 <= i < |r| ::
                  && r[i].0 in Scanned(kv, from, to) - todo && r[i].1 == kv[r[i].0]
                  && forall k | k in todo :: !Before(k, r[i].0)
      invariant forall i, j | 0 <= i < j < |r| :: r[i].0 != r[j].0 && !Before(r[j].0, r[i].0)
      invariant forall k | k in Scanned(kv, from, to) - todo :: HasKey(r, k)
    {
      var k := Least(todo);
      ghost var before := r;
      todo, r := todo - {k}, r + [(k, kv[k])];
      assert r[|before|].0 == k;
      assert forall i | 0 <= i < |before| :: r[i] == before[i];
      forall x | HasKey(before, x) ensures HasKey(r, x) {
        var i :| 0 <= i < |before| && before[i].0 == x;
        assert r[i].0 == x;
      }
    }
  }

  function KeyOf(prefix: Bytes, ino: U64, index: U64): Bytes {
    Build(prefix, BlockHashKey(ino, index))
  }

  // The mapping that the store holds for one inode and a range of block indices.
  function Recorded(kv: Kv, prefix: Bytes, hashLen: nat, ino: U64, from: nat, to: nat): map<nat, Hash>
    requires to <= U64_LIMIT
  {
    map i | from <= i < to && KeyOf(prefix, ino, i) in kv && |kv[KeyOf(prefix, ino, i)]| == hashLen
      :: kv[KeyOf(prefix, ino, i)]
  }

  function ScannedHashes(kv: Kv, prefix: Bytes, ino: U64, from: U64, to: U64): set<Bytes> {
    Scanned(kv, KeyOf(prefix, ino, from), KeyOf(prefix, ino, to))
  }

  // Everything that the range holds is stored under some key of this file system; other
  // keys are not looked at.
  ghost predicate WellFormed(kv: Kv, prefix: Bytes, hashLen: nat, ino: U64, from: U64, to: U64) {
    forall k | k in ScannedHashes(kv, prefix, ino, from, to) ::
      exists key :: FixedHash(key, hashLen) && k == Build(prefix, key)
  }

  lemma IndexOrder(prefix: Bytes, ino: U64, i: U64, j: U64)
    ensures Before(KeyOf(prefix, ino, i), KeyOf(prefix, ino, j)) <==> i < j
  {
    KeyOrder(prefix, BlockHashKey(ino, i), BlockHashKey(ino, j));
    AddressOrder(ino, i, ino, j);
  }

  lemma PartOfRange(kv: Kv, prefix: Bytes, ino: U64, from: U64, to: U64, start: U64, end: U64, k: Bytes)
    requires from <= start && end <= to && k in ScannedHashes(kv, prefix, ino, start, end)
    ensures k in ScannedHashes(kv, prefix, ino, from, to)
  {
    IndexOrder(prefix, ino, from, start);
    IndexOrder(prefix, ino, end, to);
    if Before(k, KeyOf(prefix, ino, from)) && from < start {
      BeforeIsTransitive(k, KeyOf(prefix, ino, from), KeyOf(prefix, ino, start));
    }
    if end < to { BeforeIsTransitive(k, KeyOf(prefix, ino, end), KeyOf(prefix, ino, to)); }
  }

  lemma PartIsWellFormed(kv: Kv, prefix: Bytes, hashLen: nat, ino: U64, from: U64, to: U64, start: U64, end: U64)
    requires from <= start && end <= to && WellFormed(kv, prefix, hashLen, ino, from, to)
    ensures WellFormed(kv, prefix, hashLen, ino, start, end)
  {
    forall k | k in ScannedHashes(kv, prefix, ino, start, end)
      ensures exists key :: FixedHash(key, hashLen) && k == Build(prefix, key)
    {
      PartOfRange(kv, prefix, ino, from, to, start, end, k);
    }
  }

  // A scanned key is the block hash key of an index in the range.
  lemma ScannedIsBlockHash(kv: Kv, prefix: Bytes, hashLen: nat, ino: U64, from: U64, to: U64, k: Bytes)
    requires WellFormed(kv, prefix, hashLen, ino, from, to)
    ensures k in ScannedHashes(kv, prefix, ino, from, to) <==>
            k in kv && exists i: U64 :: from <= i < to && k == KeyOf(prefix, ino, i)
  {
    if k in ScannedHashes(kv, prefix, ino, from, to) {
      var key :| FixedHash(key, hashLen) && k == Build(prefix, key);
      BlockHashRangeIsExact(prefix, ino, from, to, key);
      assert k == KeyOf(prefix, ino, key.index);
    }
    forall i: U64 | from <= i < to && k == KeyOf(prefix, ino, i) {
      BlockHashRangeIsExact(prefix, ino, from, to, BlockHashKey(ino, i));
    }
  }

  function IndexKeys(prefix: Bytes, ino: U64, from: nat, n: nat): set<Bytes>
    requires from + n <= U64_LIMIT
  {
    set i | from <= i < from + n :: KeyOf(prefix, ino, i)
  }

  lemma {:induction false} AsManyKeysAsIndices(prefix: Bytes, ino: U64, from: nat, n: nat)
    requires from + n <= U64_LIMIT
    ensures |IndexKeys(prefix, ino, from, n)| <= n
  {
    if n > 0 {
      AsManyKeysAsIndices(prefix, ino, from, n - 1);
      assert IndexKeys(prefix, ino, from, n) ==
             IndexKeys(prefix, ino, from, n - 1) + {KeyOf(prefix, ino, from + (n - 1))};
    } else {
      assert IndexKeys(prefix, ino, from, n) == {};
    }
  }

  function KeysSeen(r: seq<(Bytes, Bytes)>): set<Bytes> {
    set i | 0 <= i < |r| :: r[i].0
  }

  lemma {:induction false} DistinctPairs(r: seq<(Bytes, Bytes)>)
    requires forall i, j | 0 <= i < j < |r| :: r[i].0 != r[j].0
    ensures |KeysSeen(r)| == |r|
  {
    if r != [] {
      var n := |r| - 1;
      DistinctPairs(r[..n]);
      assert KeysSeen(r) == KeysSeen(r[..n]) + {r[n].0};
    }
  }

  lemma SubsetOfSameSize<T>(a: set<T>, b: set<T>)
    requires a <= b && |a| >= |b|
    ensures a == b
  {
    assert b == a + (b - a);
  }

  // A scan returns the whole range exactly when the range is not larger than the limit.
  lemma ScanIsCompleteIff(kv: Kv, from: Bytes, to: Bytes, limit: nat, r: seq<(Bytes, Bytes)>)
    requires IsScan(kv, from, to, limit, r)
    ensures (forall k | k in Scanned(kv, from, to) :: HasKey(r, k)) <==> |Scanned(kv, from, to)| <= limit
  {
    var scanned, seen := Scanned(kv, from, to), KeysSeen(r);
    DistinctPairs(r);
    assert seen <= scanned;
    assert forall k :: k in seen <==> HasKey(r, k);
    if |scanned| <= limit && |r| == limit { SubsetOfSameSize(seen, scanned); }
    if forall k | k in scanned :: HasKey(r, k) { assert scanned == seen; }
  }

  lemma ScannedIsIndexKey(kv: Kv, prefix: Bytes, hashLen: nat, ino: U64, from: U64, to: U64, k: Bytes)
    requires WellFormed(kv, prefix, hashLen, ino, from, to) && k in ScannedHashes(kv, prefix, ino, from, to)
    ensures from < to && k in IndexKeys(prefix, ino, from, to - from)
  {
    ScannedIsBlockHash(kv, prefix, hashLen, ino, from, to, k);
  }

  lemma SubsetIsNotLarger<T>(a: set<T>, b: set<T>)
    requires a <= b
    ensures |a| <= |b|
  {
    assert b == a + (b - a);
  }

  // There is at most one pair per index.
  lemma OnePairPerIndex(kv: Kv, prefix: Bytes, hashLen: nat, ino: U64, from: U64, to: U64)
    requires WellFormed(kv, prefix, hashLen, ino, from, to)
    ensures |ScannedHashes(kv, prefix, ino, from, to)| <= if from < to then to - from else 0
  {
    var n := if from < to then to - from else 0;
    var scanned, possible := ScannedHashes(kv, prefix, ino, from, to), IndexKeys(prefix, ino, from, n);
    forall k | k in scanned ensures k in possible {
      ScannedIsIndexKey(kv, prefix, hashLen, ino, from, to, k);
    }
    SubsetIsNotLarger(scanned, possible);
    AsManyKeysAsIndices(prefix, ino, from, n);
  }

  function AddressIn(prefix: Bytes, k: Bytes): Result<(U64, U64), KeyError> {
    match StartOf(k, prefix)
    case Err(e) => Err(e)
    case Ok((kind, body)) => AddressOf(kind, body)
  }

  // What a scanned key parses to.
  lemma ScannedParses(kv: Kv, prefix: Bytes, hashLen: nat, ino: U64, from: U64, to: U64, k: Bytes)
    requires WellFormed(kv, prefix, hashLen, ino, from, to) && k in ScannedHashes(kv, prefix, ino, from, to)
    ensures k in kv
    ensures exists i: U64 :: from <= i < to && k == KeyOf(prefix, ino, i) && AddressIn(prefix, k) == Ok((ino, i))
  {
    ScannedIsBlockHash(kv, prefix, hashLen, ino, from, to, k);
    var i: U64 :| from <= i < to && k == KeyOf(prefix, ino, i);
    ParseAfterBuild(prefix, BlockHashKey(ino, i), hashLen);
  }

  const U32_LIMIT: nat := 0x1_0000_0000

  // `i` is in the range and `hash` is stored for it.
  predicate Holds(kv: Kv, prefix: Bytes, hashLen: nat, ino: U64, from: nat, to: nat, i: nat, hash: Hash)
    requires to <= U64_LIMIT
  {
    from <= i < to && KeyOf(prefix, ino, i) in kv && kv[KeyOf(prefix, ino, i)] == hash && |hash| == hashLen
  }

  ghost predicate Collected(prefix: Bytes, ino: U64, hashes: map<nat, Hash>, k: Bytes) {
    exists i: U64 :: i in hashes && k == KeyOf(prefix, ino, i)
  }

  // The pairs are keys of the range with their values.
  ghost predicate FromRange(kv: Kv, prefix: Bytes, ino: U64, from: U64, to: U64, pairs: seq<(Bytes, Bytes)>) {
    forall j | 0 <= j < |pairs| ::
      pairs[j].0 in ScannedHashes(kv, prefix, ino, from, to) && kv[pairs[j].0] == pairs[j].1
  }

  ghost predicate WholeRange(kv: Kv, prefix: Bytes, ino: U64, from: U64, to: U64, pairs: seq<(Bytes, Bytes)>) {
    forall k | k in ScannedHashes(kv, prefix, ino, from, to) :: HasKey(pairs, k)
  }

  lemma RecordedIsCollected(
      kv: Kv, prefix: Bytes, hashLen: nat, ino: U64, from: U64, to: U64, pairs: seq<(Bytes, Bytes)>, hashes: map<nat,
      Hash>,
      i: nat)
    requires WellFormed(kv, prefix, hashLen, ino, from, to)
    requires FromRange(kv, prefix, ino, from, to, pairs) && WholeRange(kv, prefix, ino, from, to, pairs)
    requires forall j | 0 <= j < |pairs| && |pairs[j].1| == hashLen :: Collected(prefix, ino, hashes, pairs[j].0)
    requires i in Recorded(kv, prefix, hashLen, ino, from, to)
    ensures i in hashes
  {
    var k := KeyOf(prefix, ino, i);
    ScannedIsBlockHash(kv, prefix, hashLen, ino, from, to, k);
    assert HasKey(pairs, k);
    var j :| 0 <= j < |pairs| && pairs[j].0 == k;
    assert Collected(prefix, ino, hashes, pairs[j].0);
    var i': U64 :| i' in hashes && k == KeyOf(prefix, ino, i');
    BuildIsInjective(prefix, BlockHashKey(ino, i), BlockHashKey(ino, i'), hashLen);
  }

  type Address = Result<(U64, U64), KeyError>

  function Addresses(prefix: Bytes, pairs: seq<(Bytes, Bytes)>): (r: seq<Address>)
    ensures |r| == |pairs| && forall j | 0 <= j < |pairs| :: r[j] == AddressIn(prefix, pairs[j].0)
  {
    if pairs == [] then [] else Addresses(prefix, pairs[..|pairs| - 1]) + [AddressIn(prefix, pairs[|pairs| - 1].0)]
  }

  ghost predicate AreAddresses(prefix: Bytes, pairs: seq<(Bytes, Bytes)>, addrs: seq<Address>) {
    |addrs| == |pairs| && forall j | 0 <= j < |pairs| :: addrs[j] == AddressIn(prefix, pairs[j].0)
  }

  // The address and the value give the hash of block `i` of the inode.
  predicate GivesHash(addr: Address, value: Bytes, hashLen: nat, ino: U64, i: nat) {
    addr.Ok? && addr.value == (ino, i) && |value| == hashLen
  }

  ghost predicate GivenBySome(
      addrs: seq<Address>, pairs: seq<(Bytes, Bytes)>, hashLen: nat, ino: U64, i: nat, hash: Hash)
    requires |addrs| == |pairs|
  {
    exists j :: 0 <= j < |pairs| && GivesHash(addrs[j], pairs[j].1, hashLen, ino, i) && pairs[j].1 == hash
  }

  ghost predicate Gathered(
      addrs: seq<Address>, pairs: seq<(Bytes, Bytes)>, hashLen: nat, ino: U64, n: nat, hashes: map<nat, Hash>)
    requires |addrs| == |pairs| && n <= |pairs|
  {
    && (forall j | 0 <= j < n :: addrs[j].Ok?)
    && (forall i | i in hashes :: GivenBySome(addrs, pairs, hashLen, ino, i, hashes[i]))
    && (forall j, i | 0 <= j < n && GivesHash(addrs[j], pairs[j].1, hashLen, ino, i) :: i in hashes)
  }

  lemma GatherOne(
      addrs: seq<Address>, pairs: seq<(Bytes, Bytes)>, hashLen: nat, ino: U64, n: nat, hashes: map<nat, Hash>,
      hashes': map<nat, Hash>)
    requires |addrs| == |pairs| && n < |pairs| && Gathered(addrs, pairs, hashLen, ino, n, hashes) && addrs[n].Ok?
    requires hashes' ==
             if |pairs[n].1| == hashLen && addrs[n].value.0 == ino then hashes[addrs[n].value.1 := pairs[n].1]
             else hashes
    ensures Gathered(addrs, pairs, hashLen, ino, n + 1, hashes')
  {
    forall i | i in hashes' ensures GivenBySome(addrs, pairs, hashLen, ino, i, hashes'[i]) {
      if !(i in hashes && hashes[i] == hashes'[i]) {
        assert GivesHash(addrs[n], pairs[n].1, hashLen, ino, i);
      }
    }
  }

  // Pairs that the range should not hold are skipped; a key that cannot be parsed is
  // an error.
  method CollectHashes(prefix: Bytes, hashLen: nat, ino: U64, pairs: seq<(Bytes, Bytes)>)
    returns (result: Result<map<nat, Hash>, KeyError>, ghost addrs: seq<Address>)
    ensures AreAddresses(prefix, pairs, addrs)
    ensures result.Ok? ==> Gathered(addrs, pairs, hashLen, ino, |pairs|, result.value)
    ensures result.Err? ==> exists j | 0 <= j < |pairs| :: addrs[j] == Err(result.error)
  {
    addrs := Addresses(prefix, pairs);
    var hashes: map<nat, Hash> := map[];
    for n := 0 to |pairs|
      invariant Gathered(addrs, pairs, hashLen, ino, n, hashes)
    {
      var (k, hash) := pairs[n];
      var key := AddressIn(prefix, k);
      assert addrs[n] == key;
      if key.Err? { return Err(key.error), addrs; }
      ghost var before := hashes;
      if |hash| == hashLen && key.value.0 == ino {
        hashes := hashes[key.value.1 := hash];
      }
      GatherOne(addrs, pairs, hashLen, ino, n, before, hashes);
    }
    result := Ok(hashes);
  }

  lemma GivenIsHeld(kv: Kv, prefix: Bytes, hashLen: nat, ino: U64, from: U64, to: U64, pair: (Bytes, Bytes))
    requires WellFormed(kv, prefix, hashLen, ino, from, to)
    requires pair.0 in ScannedHashes(kv, prefix, ino, from, to) && kv[pair.0] == pair.1
    ensures AddressIn(prefix, pair.0).Ok? && AddressIn(prefix, pair.0).value.0 == ino
    ensures var i := AddressIn(prefix, pair.0).value.1;
            && pair.0 == KeyOf(prefix, ino, i)
            && (|pair.1| == hashLen ==> Holds(kv, prefix, hashLen, ino, from, to, i, pair.1))
  {
    ScannedParses(kv, prefix, hashLen, ino, from, to, pair.0);
  }

  // The gathered hashes are held by the store, and the pairs account for them.
  lemma GatheredIsHeld(
      kv: Kv, prefix: Bytes, hashLen: nat, ino: U64, from: U64, to: U64, addrs: seq<Address>,
      pairs: seq<(Bytes, Bytes)>,
      hashes: map<nat, Hash>, i: nat)
    requires WellFormed(kv, prefix, hashLen, ino, from, to) && FromRange(kv, prefix, ino, from, to, pairs)
    requires AreAddresses(prefix, pairs, addrs) && Gathered(addrs, pairs, hashLen, ino, |pairs|, hashes) && i in hashes
    ensures Holds(kv, prefix, hashLen, ino, from, to, i, hashes[i]) && HasKey(pairs, KeyOf(prefix, ino, i))
  {
    assert GivenBySome(addrs, pairs, hashLen, ino, i, hashes[i]);
    var j :| 0 <= j < |pairs| && GivesHash(addrs[j], pairs[j].1, hashLen, ino, i) && pairs[j].1 == hashes[i];
    GivenIsHeld(kv, prefix, hashLen, ino, from, to, pairs[j]);
  }

  lemma PairIsCollected(
      kv: Kv, prefix: Bytes, hashLen: nat, ino: U64, from: U64, to: U64, addrs: seq<Address>,
      pairs: seq<(Bytes, Bytes)>,
      hashes: map<nat, Hash>, j: nat)
    requires WellFormed(kv, prefix, hashLen, ino, from, to) && FromRange(kv, prefix, ino, from, to, pairs)
    requires AreAddresses(prefix, pairs, addrs) && Gathered(addrs, pairs, hashLen, ino, |pairs|, hashes)
    requires j < |pairs| && |pairs[j].1| == hashLen
    ensures Collected(prefix, ino, hashes, pairs[j].0)
  {
    GivenIsHeld(kv, prefix, hashLen, ino, from, to, pairs[j]);
    assert GivesHash(addrs[j], pairs[j].1, hashLen, ino, addrs[j].value.1);
  }

  lemma SameEntries(a: map<nat, Hash>, b: map<nat, Hash>)
    requires forall i | i in a :: i in b && a[i] == b[i]
    requires forall i | i in b :: i in a
    ensures a == b
  {
  }

  lemma {:induction false} WholeRangeIsCollected(
      kv: Kv, prefix: Bytes, hashLen: nat, ino: U64, from: U64, to: U64, addrs: seq<Address>,
      pairs: seq<(Bytes, Bytes)>,
      hashes: map<nat, Hash>, i: nat)
    requires WellFormed(kv, prefix, hashLen, ino, from, to) && FromRange(kv, prefix, ino, from, to, pairs)
    requires AreAddresses(prefix, pairs, addrs) && Gathered(addrs, pairs, hashLen, ino, |pairs|, hashes)
    requires WholeRange(kv, prefix, ino, from, to, pairs) && i in Recorded(kv, prefix, hashLen, ino, from, to)
    ensures i in hashes
  {
    forall j | 0 <= j < |pairs| && |pairs[j].1| == hashLen ensures Collected(prefix, ino, hashes, pairs[j].0) {
      PairIsCollected(kv, prefix, hashLen, ino, from, to, addrs, pairs, hashes, j);
    }
    RecordedIsCollected(kv, prefix, hashLen, ino, from, to, pairs, hashes, i);
  }

  lemma HeldIsRecorded(kv: Kv, prefix: Bytes, hashLen: nat, ino: U64, from: U64, to: U64, i: nat, hash: Hash)
    requires Holds(kv, prefix, hashLen, ino, from, to, i, hash)
    ensures var recorded := Recorded(kv, prefix, hashLen, ino, from, to); i in recorded && recorded[i] == hash
  {
  }

  // From the whole range exactly the recorded hashes are gathered.
  lemma {:induction false} GatheredIsRecorded(
      kv: Kv, prefix: Bytes, hashLen: nat, ino: U64, from: U64, to: U64, addrs: seq<Address>,
      pairs: seq<(Bytes, Bytes)>,
      hashes: map<nat, Hash>)
    requires WellFormed(kv, prefix, hashLen, ino, from, to) && FromRange(kv, prefix, ino, from, to, pairs)
    requires AreAddresses(prefix, pairs, addrs) && Gathered(addrs, pairs, hashLen, ino, |pairs|, hashes)
    requires WholeRange(kv, prefix, ino, from, to, pairs)
    ensures hashes == Recorded(kv, prefix, hashLen, ino, from, to)
  {
    var recorded := Recorded(kv, prefix, hashLen, ino, from, to);
    forall i: nat | i in recorded ensures i in hashes {
      WholeRangeIsCollected(kv, prefix, hashLen, ino, from, to, addrs, pairs, hashes, i);
    }
    forall i: nat | i in hashes ensures i in recorded && hashes[i] == recorded[i] {
      GatheredIsHeld(kv, prefix, hashLen, ino, from, to, addrs, pairs, hashes, i);
      HeldIsRecorded(kv, prefix, hashLen, ino, from, to, i, hashes[i]);
    }
    SameEntries(hashes, recorded);
  }

  // Every value in the range is a hash of the right length.
  ghost predicate RightLengths(kv: Kv, prefix: Bytes, hashLen: nat, ino: U64, from: U64, to: U64) {
    forall k | k in ScannedHashes(kv, prefix, ino, from, to) :: |kv[k]| == hashLen
  }

  // And only from the whole range.
  lemma {:induction false} RecordedNeedsWholeRange(
      kv: Kv, prefix: Bytes, hashLen: nat, ino: U64, from: U64, to: U64, addrs: seq<Address>,
      pairs: seq<(Bytes, Bytes)>,
      hashes: map<nat, Hash>)
    requires WellFormed(kv, prefix, hashLen, ino, from, to) && FromRange(kv, prefix, ino, from, to, pairs)
    requires AreAddresses(prefix, pairs, addrs) && Gathered(addrs, pairs, hashLen, ino, |pairs|, hashes)
    requires RightLengths(kv, prefix, hashLen, ino, from, to) && hashes == Recorded(kv, prefix, hashLen, ino, from, to)
    ensures WholeRange(kv, prefix, ino, from, to, pairs)
  {
    forall k | k in ScannedHashes(kv, prefix, ino, from, to) ensures HasKey(pairs, k) {
      ScannedIsBlockHash(kv, prefix, hashLen, ino, from, to, k);
      var i: U64 :| from <= i < to && k == KeyOf(prefix, ino, i);
      GatheredIsHeld(kv, prefix, hashLen, ino, from, to, addrs, pairs, hashes, i);
    }
  }

  lemma AllAddressesOk(
      kv: Kv, prefix: Bytes, hashLen: nat, ino: U64, from: U64, to: U64, pairs: seq<(Bytes, Bytes)>,
      addrs: seq<Address>)
    requires AreAddresses(prefix, pairs, addrs)
    requires WellFormed(kv, prefix, hashLen, ino, from, to) && FromRange(kv, prefix, ino, from, to, pairs)
    ensures forall j | 0 <= j < |pairs| :: addrs[j].Ok?
  {
    forall j | 0 <= j < |pairs| { GivenIsHeld(kv, prefix, hashLen, ino, from, to, pairs[j]); }
  }

  // The number of blocks, cut down to 32 bits.
  function ScanLimit(from: U64, to: U64): nat {
    if from < to then (to - from) % U32_LIMIT else 0
  }

  // The scan returns what is recorded if the range holds no more pairs than the limit,
  // and, if all values are hashes, only then.
  method HbGetBlockHashListByBlockRange(kv: Kv, prefix: Bytes, hashLen: nat, ino: U64, from: U64, to: U64)
    returns (result: Result<map<nat, Hash>, KeyError>)
    requires WellFormed(kv, prefix, hashLen, ino, from, to)
    ensures result.Ok?
    ensures |ScannedHashes(kv, prefix, ino, from, to)| <= ScanLimit(from, to) ==>
              result.value == Recorded(kv, prefix, hashLen, ino, from, to)
    ensures RightLengths(kv, prefix, hashLen, ino, from, to) ==>
            result.value == Recorded(kv, prefix, hashLen, ino, from, to) ==>
              |ScannedHashes(kv, prefix, ino, from, to)| <= ScanLimit(from, to)
  {
    var pairs := Scan(kv, KeyOf(prefix, ino, from), KeyOf(prefix, ino, to), ScanLimit(from, to));
    ghost var addrs;
    result, addrs := CollectHashes(prefix, hashLen, ino, pairs);
    RangeResult(kv, prefix, hashLen, ino, from, to, ScanLimit(from, to), addrs, pairs, result);
  }

  // For instance, a range of 2^32 blocks is scanned for no pair at all.
  lemma FullWordScansNothing(
      kv: Kv, prefix: Bytes, hashLen: nat, ino: U64, from: U64, to: U64, pairs: seq<(Bytes, Bytes)>)
    requires to == from + U32_LIMIT && KeyOf(prefix, ino, from) in kv && |kv[KeyOf(prefix, ino, from)]| == hashLen
    requires IsScan(kv, KeyOf(prefix, ino, from), KeyOf(prefix, ino, to), ScanLimit(from, to), pairs)
    ensures pairs == [] && from in Recorded(kv, prefix, hashLen, ino, from, to)
  {
    HeldIsRecorded(kv, prefix, hashLen, ino, from, to, from, kv[KeyOf(prefix, ino, from)]);
  }

  lemma RangeResult(
      kv: Kv, prefix: Bytes, hashLen: nat, ino: U64, from: U64, to: U64, limit: nat, addrs: seq<Address>,
      pairs: seq<(Bytes, Bytes)>, result: Result<map<nat, Hash>, KeyError>)
    requires WellFormed(kv, prefix, hashLen, ino, from, to)
    requires IsScan(kv, KeyOf(prefix, ino, from), KeyOf(prefix, ino, to), limit, pairs)
    requires AreAddresses(prefix, pairs, addrs)
    requires match result
             case Ok(hashes) => Gathered(addrs, pairs, hashLen, ino, |pairs|, hashes)
             case Err(e) => exists j | 0 <= j < |pairs| :: addrs[j] == Err(e)
    ensures result.Ok?
    ensures |ScannedHashes(kv, prefix, ino, from, to)| <= limit ==>
              result.value == Recorded(kv, prefix, hashLen, ino, from, to)
    ensures RightLengths(kv, prefix, hashLen, ino, from, to) ==>
            result.value == Recorded(kv, prefix, hashLen, ino, from, to) ==>
              |ScannedHashes(kv, prefix, ino, from, to)| <= limit
  {
    assert FromRange(kv, prefix, ino, from, to, pairs);
    AllAddressesOk(kv, prefix, hashLen, ino, from, to, pairs, addrs);
    ScanIsCompleteIff(kv, KeyOf(prefix, ino, from), KeyOf(prefix, ino, to), limit, pairs);
    if WholeRange(kv, prefix, ino, from, to, pairs) {
      GatheredIsRecorded(kv, prefix, hashLen, ino, from, to, addrs, pairs, result.value);
    } else if RightLengths(kv, prefix, hashLen, ino, from, to) {
      if result.value == Recorded(kv, prefix, hashLen, ino, from, to) {
        RecordedNeedsWholeRange(kv, prefix, hashLen, ino, from, to, addrs, pairs, result.value);
      }
    }
  }

  // Where the chunk number `j` starts.
  function ChunkStart(from: nat, j: nat): nat {
    from + j * MAX_TIKV_SCAN_LIMIT
  }

  // The end of every chunk that the loop starts is computed without overflow.
  ghost predicate ChunksFit(from: U64, to: U64) {
    forall j: nat | ChunkStart(from, j) < to :: ChunkStart(from, j) + MAX_TIKV_SCAN_LIMIT < U64_LIMIT
  }

  // For instance, the whole range of indices does not fit.
  lemma WholeIndexRangeDoesNotFit()
    ensures !ChunksFit(0, U64_LIMIT - 1)
  {
    var j := (U64_LIMIT - 2) / MAX_TIKV_SCAN_LIMIT;
    assert ChunkStart(0, j) < U64_LIMIT - 1 && ChunkStart(0, j) + MAX_TIKV_SCAN_LIMIT >= U64_LIMIT;
  }

  lemma ChunksFitAfter(from: U64, to: U64, n: nat)
    requires to <= ChunkStart(from, n)
    requires forall j: nat | j < n :: ChunkStart(from, j) + MAX_TIKV_SCAN_LIMIT < U64_LIMIT
    ensures ChunksFit(from, to)
  {
    forall j: nat | ChunkStart(from, j) < to ensures j < n {
      assert j >= n ==> ChunkStart(from, j) >= ChunkStart(from, n);
    }
  }

  // One chunk, with nothing left out: there is room for a pair per index.
  method ReadChunk(kv: Kv, prefix: Bytes, hashLen: nat, ino: U64, chunkStart: U64, chunkEnd: U64)
    returns (chunk: Result<map<nat, Hash>, KeyError>)
    requires WellFormed(kv, prefix, hashLen, ino, chunkStart, chunkEnd)
    requires chunkStart <= chunkEnd <= chunkStart + MAX_TIKV_SCAN_LIMIT
    ensures chunk == Ok(Recorded(kv, prefix, hashLen, ino, chunkStart, chunkEnd))
  {
    chunk := HbGetBlockHashListByBlockRange(kv, prefix, hashLen, ino, chunkStart, chunkEnd);
    OnePairPerIndex(kv, prefix, hashLen, ino, chunkStart, chunkEnd);
  }

  // Chunk by chunk, the whole range is read and nothing else. `None` is the panic of an
  // addition that overflows; it happens exactly when some chunk does not fit.
  method HbGetBlockHashListByBlockRangeChunked(kv: Kv, prefix: Bytes, hashLen: nat, ino: U64, from: U64, to: U64)
    returns (result: Option<Result<map<nat, Hash>, KeyError>>)
    requires WellFormed(kv, prefix, hashLen, ino, from, to)
    ensures ChunksFit(from, to) ==> result == Some(Ok(Recorded(kv, prefix, hashLen, ino, from, to)))
    ensures !ChunksFit(from, to) ==> result == None
  {
    var i := from;
    var hashes: map<nat, Hash> := map[];
    ghost var n: nat := 0;
    while i < to
      invariant if from <= to then from <= i <= to else i == from
      invariant i == ChunkStart(from, n) || to <= i < ChunkStart(from, n)
      invariant forall j: nat | j < n :: ChunkStart(from, j) + MAX_TIKV_SCAN_LIMIT < U64_LIMIT
      invariant hashes == Recorded(kv, prefix, hashLen, ino, from, i)
    {
      var chunkStart: U64 := i;
      if chunkStart + MAX_TIKV_SCAN_LIMIT >= U64_LIMIT { return None; }
      var chunkEnd: U64 := Min(chunkStart + MAX_TIKV_SCAN_LIMIT, to);
      i := chunkEnd;
      PartIsWellFormed(kv, prefix, hashLen, ino, from, to, chunkStart, chunkEnd);
      var chunk := ReadChunk(kv, prefix, hashLen, ino, chunkStart, chunkEnd);
      RecordedInChunks(kv, prefix, hashLen, ino, from, chunkStart, chunkEnd);
      hashes := hashes + chunk.value;
      n := n + 1;
    }
    ChunksFitAfter(from, to, n);
    RecordedOfSameRange(kv, prefix, hashLen, ino, from, i, to);
    result := Some(Ok(hashes));
  }

  lemma RecordedOfSameRange(kv: Kv, prefix: Bytes, hashLen: nat, ino: U64, from: nat, i: nat, to: nat)
    requires i <= U64_LIMIT && to <= U64_LIMIT && (i == to || (i == from && to <= from))
    ensures Recorded(kv, prefix, hashLen, ino, from, i) == Recorded(kv, prefix, hashLen, ino, from, to)
  {
  }

  lemma RecordedInChunks(kv: Kv, prefix: Bytes, hashLen: nat, ino: U64, from: nat, mid: nat, to: nat)
    requires from <= mid <= to <= U64_LIMIT
    ensures Recorded(kv, prefix, hashLen, ino, from, mid) + Recorded(kv, prefix, hashLen, ino, mid, to)
         == Recorded(kv, prefix, hashLen, ino, from, to)
  {
  }

  // ---------------------------------------------------------------------------
  // The chunk loop in a build without overflow checks

  function WrappedEnd(i: U64): U64 {
    (i + MAX_TIKV_SCAN_LIMIT) % U64_LIMIT
  }

  // Where the loop stands after `n` rounds.
  function StartAfter(from: U64, to: U64, n: nat): U64 {
    if n == 0 then from
    else
      var i := StartAfter(from, to, n - 1);
      if i < to then Min(WrappedEnd(i), to) else i
  }

  // The round that overflows reads nothing and goes on near zero.
  lemma OverflowRestarts(i: U64, to: U64)
    requires i < to && i + MAX_TIKV_SCAN_LIMIT >= U64_LIMIT
    ensures Min(WrappedEnd(i), to) == i + MAX_TIKV_SCAN_LIMIT - U64_LIMIT < MAX_TIKV_SCAN_LIMIT
    ensures ScanLimit(i, Min(WrappedEnd(i), to)) == 0
  {
  }

  // Rounds move by multiples of this, wrapped or not.
  const STRIDE: nat := 2048

  lemma {:induction false} NeverReachesEnd(from: U64, to: U64, n: nat)
    requires from < to && U64_LIMIT - STRIDE + from % STRIDE < to
    ensures StartAfter(from, to, n) < to && StartAfter(from, to, n) % STRIDE == from % STRIDE
  {
    if n > 0 {
      NeverReachesEnd(from, to, n - 1);
      WrappedKeepsResidue(StartAfter(from, to, n - 1));
      LargestOfResidue(WrappedEnd(StartAfter(from, to, n - 1)));
    }
  }

  lemma WrappedKeepsResidue(i: U64)
    ensures WrappedEnd(i) % STRIDE == i % STRIDE
  {
    assert (i + MAX_TIKV_SCAN_LIMIT) % STRIDE == i % STRIDE;
    if i + MAX_TIKV_SCAN_LIMIT >= U64_LIMIT {
      assert WrappedEnd(i) == i + MAX_TIKV_SCAN_LIMIT - U64_LIMIT;
    }
  }

  lemma LargestOfResidue(v: U64)
    ensures v <= U64_LIMIT - STRIDE + v % STRIDE
  {
  }

  lemma {:induction false} EndsOrMovesOn(from: U64, to: U64, n: nat)
    ensures StartAfter(from, to, n) >= to || StartAfter(from, to, n) == (from + n * MAX_TIKV_SCAN_LIMIT) % U64_LIMIT
  {
    if n > 0 {
      EndsOrMovesOn(from, to, n - 1);
      WrappedSum(from + (n - 1) * MAX_TIKV_SCAN_LIMIT);
    }
  }

  lemma WrappedSum(x: nat)
    ensures (x % U64_LIMIT + MAX_TIKV_SCAN_LIMIT) % U64_LIMIT == (x + MAX_TIKV_SCAN_LIMIT) % U64_LIMIT
  {
    var q := x / U64_LIMIT;
    assert x == q * U64_LIMIT + x % U64_LIMIT;
  }

  // Five strides are one chunk, and this many chunks are one stride, wrapped around.
  const CHUNKS_PER_STRIDE: nat := 3602879701896397

  lemma StrideByChunks(from: U64, t: nat)
    requires from + t * STRIDE < U64_LIMIT
    ensures (from + (t * CHUNKS_PER_STRIDE) * MAX_TIKV_SCAN_LIMIT) % U64_LIMIT == from + t * STRIDE
  {
    DivModUnique(from + (t * CHUNKS_PER_STRIDE) * MAX_TIKV_SCAN_LIMIT, U64_LIMIT, 2 * t, from + t * STRIDE);
  }

  // The loop ends exactly when the range is empty or its end does not lie beyond the last
  // number that chunks from `from` on ever reach.
  lemma {:induction false} WrappedLoopEndsIff(from: U64, to: U64)
    ensures (exists n: nat :: StartAfter(from, to, n) >= to) <==>
            to <= from || to <= U64_LIMIT - STRIDE + from % STRIDE
  {
    if to <= from {
      assert StartAfter(from, to, 0) >= to;
    } else if to <= U64_LIMIT - STRIDE + from % STRIDE {
      var last := U64_LIMIT - STRIDE + from % STRIDE;
      var t := (last - from) / STRIDE;
      assert from + t * STRIDE == last;
      StrideByChunks(from, t);
      EndsOrMovesOn(from, to, t * CHUNKS_PER_STRIDE);
      assert StartAfter(from, to, t * CHUNKS_PER_STRIDE) >= to;
    } else {
      forall n: nat ensures StartAfter(from, to, n) < to { NeverReachesEnd(from, to, n); }
    }
  }
}
