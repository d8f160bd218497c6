// Reference counting of content-addressed blocks
// (src/fs/mini_transaction.rs, src/fs/hash_fs_tikv_implementation.rs and the write
// path of src/fs/fuse_to_hashfs.rs).
//
// A write is a sequence of separate transactions: increment the counters, upload
// the blocks whose counter was zero, replace address-to-hash mappings, raise the
// file size, decrement what was displaced.  Clearing a block is a replacement by
// nothing, followed by a decrement.  `Apply` is one committed transaction of one
// of the operations in flight; an event list is any interleaving of any number of
// operations.  An operation that fails half way simply takes no further step.
module RefCount {
  import opened Types
  import opened Arith

  // Block size and hash algorithm of the file system.
  datatype Config = Config(blockSize: nat, digest: Block -> Hash)

  datatype Store = Store(
    counts: map<Hash, nat>,
    blocks: map<Hash, Block>,
    mapping: map<BlockAddress, Hash>,
    sizes: map<Ino, nat>)

  // ---------------------------------------------------------------------------
  // The transactions

  function Count(counts: map<Hash, nat>, h: Hash): nat {
    if h in counts then counts[h] else 0
  }

  function Incremented(counts: map<Hash, nat>, incs: map<Hash, nat>): map<Hash, nat> {
    map h | h in counts.Keys + incs.Keys :: Count(counts, h) + Count(incs, h)
  }

  type Targets = map<BlockAddress, Option<Hash>>

  // Hashes for blocks of one file.
  function FileTargets(ino: Ino, assign: map<nat, Hash>): Targets {
    map a | a in (set k | k in assign :: BlockAddress(ino, k)) :: Some(assign[a.index])
  }

  // `None` deletes the mapping of an address.
  function ReplacedMapping(mapping: map<BlockAddress, Hash>, targets: Targets): map<BlockAddress, Hash> {
    map a | a in mapping.Keys + targets.Keys && (a in targets ==> targets[a].Some?) ::
      if a in targets then targets[a].value else mapping[a]
  }

  function AddrsOf(mapping: map<BlockAddress, Hash>, h: Hash): set<BlockAddress> {
    set a | a in mapping && mapping[a] == h
  }

  function DisplacedAddrs(mapping: map<BlockAddress, Hash>, targets: Targets, h: Hash): set<BlockAddress> {
    set a | a in targets && a in mapping && mapping[a] == h
  }

  // How often each previous hash was displaced.
  function Displaced(mapping: map<BlockAddress, Hash>, targets: Targets): map<Hash, nat> {
    map h | h in mapping.Values && DisplacedAddrs(mapping, targets, h) != {} ::
      |DisplacedAddrs(mapping, targets, h)|
  }

  // Hashes whose counter the decrement brings to zero; a decrement is clamped at
  // the counter value.
  function Exhausted(counts: map<Hash, nat>, decs: map<Hash, nat>): set<Hash> {
    set h | h in decs && Count(counts, h) <= decs[h]
  }

  function Decremented(st: Store, decs: map<Hash, nat>): Store {
    var gone := Exhausted(st.counts, decs);
    st.(counts := map h | h in st.counts && h !in gone :: st.counts[h] - Min(Count(decs, h), st.counts[h]),
        blocks := st.blocks - gone)
  }

  // ---------------------------------------------------------------------------
  // Operations in flight

  datatype Op =
    | Prepared(ino: Ino, targets: Targets, data: map<Hash, Block>)
    | Counted(ino: Ino, targets: Targets, data: map<Hash, Block>, owed: set<Hash>)
    | Uploaded(ino: Ino, targets: Targets, data: map<Hash, Block>)
    | Clearing(addr: BlockAddress)
    | Replaced(ino: Ino, targetSize: nat, decs: map<Hash, nat>)
    | Displacing(decs: map<Hash, nat>)
    | Finished

  datatype Sys = Sys(st: Store, ops: seq<Op>, nextIno: Ino)

  const Empty := Sys(Store(map[], map[], map[], map[]), [], 0)

  datatype Event =
    | CreateFile
    | BeginWrite(ino: Ino, targets: Targets, data: map<Hash, Block>)
    | BeginClear(addr: BlockAddress)
    | Advance(op: nat)
    | DropMetadata(ino: Ino)

  function NewAddrs(targets: Targets, h: Hash): set<BlockAddress> {
    set a | a in targets && targets[a] == Some(h)
  }

  // What `hb_write_data` hands over: every address of the file gets a hash whose
  // nonempty content is at hand.
  ghost predicate WellFormedWrite(cfg: Config, ino: Ino, targets: Targets, data: map<Hash, Block>) {
    && (forall a | a in targets :: a.ino == ino && targets[a].Some? && targets[a].value in data)
    && (forall h | h in data :: cfg.digest(data[h]) == h && data[h] != [])
  }

  // One increment per address that will hold the hash.
  function Increments(targets: Targets): map<Hash, nat> {
    map h | h in (set a | a in targets && targets[a].Some? :: targets[a].value) :: |NewAddrs(targets, h)|
  }

  // File size that covers all the given addresses.
  ghost function MaxEnd(cfg: Config, addrs: set<BlockAddress>, targets: Targets, data: map<Hash, Block>): (end: nat)
    requires forall a | a in addrs :: a in targets && targets[a].Some? && targets[a].value in data
    ensures forall a | a in addrs :: a.index * cfg.blockSize + |data[targets[a].value]| <= end
    ensures addrs == {} ==> end == 0
    ensures addrs != {} ==> exists a | a in addrs :: end == a.index * cfg.blockSize + |data[targets[a].value]|
  {
    if addrs == {} then 0
    else
      var a :| a in addrs;
      var rest := MaxEnd(cfg, addrs - {a}, targets, data);
      var end := a.index * cfg.blockSize + |data[targets[a].value]|;
      assert forall b | b in addrs :: b == a || b in addrs - {a};
      if rest < end then end else rest
  }

  // The next transaction of operation `i`.
  ghost function Advanced(cfg: Config, s: Sys, i: nat): Sys
    requires i < |s.ops| && OpOk(cfg, s.ops[i])
  {
    var st := s.st;
    match s.ops[i]
    case Prepared(ino, targets, data) =>
      var incs := Increments(targets);
      var owed := set h | h in incs && Count(st.counts, h) == 0;
      s.(st := st.(counts := Incremented(st.counts, incs)), ops := s.ops[i := Counted(ino, targets, data, owed)])
    case Counted(ino, targets, data, owed) =>
      s.(st := st.(blocks := st.blocks + map h | h in owed :: data[h]), ops := s.ops[i := Uploaded(ino, targets, data)])
    case Uploaded(ino, targets, data) =>
      s.(st := st.(mapping := ReplacedMapping(st.mapping, targets)),
         ops := s.ops[i := Replaced(ino, MaxEnd(cfg, targets.Keys, targets, data), Displaced(st.mapping, targets))])
    case Clearing(addr) =>
      var targets := map[addr := None];
      s.(st := st.(mapping := ReplacedMapping(st.mapping, targets)),
         ops := s.ops[i := Displacing(Displaced(st.mapping, targets))])
    case Replaced(ino, targetSize, decs) =>
      if ino !in st.sizes then s
      else
        var size := if st.sizes[ino] < targetSize then targetSize else st.sizes[ino];
        s.(st := st.(sizes := st.sizes[ino := size]), ops := s.ops[i := Displacing(decs)])
    case Displacing(decs) =>
      s.(st := Decremented(st, decs), ops := s.ops[i := Finished])
    case Finished => s
  }

  ghost predicate OpOk(cfg: Config, op: Op) {
    match op
    case Prepared(ino, targets, data) => WellFormedWrite(cfg, ino, targets, data)
    case Counted(ino, targets, data, owed) =>
      WellFormedWrite(cfg, ino, targets, data) && owed <= Increments(targets).Keys
    case Uploaded(ino, targets, data) => WellFormedWrite(cfg, ino, targets, data)
    case Replaced(_, _, decs) => forall h | h in decs :: decs[h] > 0
    case Displacing(decs) => forall h | h in decs :: decs[h] > 0
    case Clearing(_) => true
    case Finished => true
  }

  ghost predicate OpsOk(cfg: Config, s: Sys) {
    forall i | 0 <= i < |s.ops| :: OpOk(cfg, s.ops[i])
  }

  // ---------------------------------------------------------------------------
  // Conservation

  // References an operation holds: counted but not yet mapped, or displaced but
  // not yet given back.
  function Held(op: Op, h: Hash): nat {
    match op
    case Counted(_, targets, _, _) => |NewAddrs(targets, h)|
    case Uploaded(_, targets, _) => |NewAddrs(targets, h)|
    case Replaced(_, _, decs) => Count(decs, h)
    case Displacing(decs) => Count(decs, h)
    case _ => 0
  }

  function HeldByAll(ops: seq<Op>, h: Hash): nat {
    if ops == [] then 0 else HeldByAll(ops[..|ops| - 1], h) + Held(ops[|ops| - 1], h)
  }

  ghost predicate Conserved(s: Sys) {
    forall h :: Count(s.st.counts, h) == |AddrsOf(s.st.mapping, h)| + HeldByAll(s.ops, h)
  }

  lemma {:induction false} HeldAfterUpdate(ops: seq<Op>, i: nat, op: Op, h: Hash)
    requires i < |ops|
    ensures HeldByAll(ops[i := op], h) + Held(ops[i], h) == HeldByAll(ops, h) + Held(op, h)
    ensures Held(ops[i], h) <= HeldByAll(ops, h)
  {
    var n := |ops| - 1;
    if i < n {
      HeldAfterUpdate(ops[..n], i, op, h);
      assert ops[i := op][..n] == ops[..n][i := op];
    } else {
      assert ops[i := op][..n] == ops[..n];
    }
  }

  lemma {:induction false} HeldAfterBegin(ops: seq<Op>, op: Op, h: Hash)
    ensures HeldByAll(ops + [op], h) == HeldByAll(ops, h) + Held(op, h)
  {
    assert (ops + [op])[..|ops|] == ops;
  }

  lemma IncrementsCount(targets: Targets, h: Hash)
    ensures Count(Increments(targets), h) == |NewAddrs(targets, h)|
    ensures h in Increments(targets) <==> NewAddrs(targets, h) != {}
  {
    if h in Increments(targets) {
      var a :| a in targets && targets[a].Some? && targets[a].value == h;
      assert a in NewAddrs(targets, h);
    } else {
      assert forall a | a in targets && targets[a].Some? :: targets[a].value in Increments(targets);
      assert NewAddrs(targets, h) == {};
    }
  }

  lemma DisplacedCount(mapping: map<BlockAddress, Hash>, targets: Targets, h: Hash)
    ensures Count(Displaced(mapping, targets), h) == |DisplacedAddrs(mapping, targets, h)|
  {
    if a :| a in DisplacedAddrs(mapping, targets, h) {
      assert mapping[a] == h && h in mapping.Values;
    } else {
      assert DisplacedAddrs(mapping, targets, h) == {};
    }
  }

  lemma DisplacedIsPositive(mapping: map<BlockAddress, Hash>, targets: Targets)
    ensures forall h | h in Displaced(mapping, targets) :: Displaced(mapping, targets)[h] > 0
  {
    forall h | h in Displaced(mapping, targets)
      ensures Displaced(mapping, targets)[h] > 0
    {
      var a :| a in DisplacedAddrs(mapping, targets, h);
    }
  }

  lemma AddrsAfterReplace(mapping: map<BlockAddress, Hash>, targets: Targets, h: Hash)
    ensures AddrsOf(ReplacedMapping(mapping, targets), h) == (AddrsOf(mapping, h) - targets.Keys) + NewAddrs(targets, h)
  {
    var m' := ReplacedMapping(mapping, targets);
    forall a ensures a in AddrsOf(m', h) <==> a in (AddrsOf(mapping, h) - targets.Keys) + NewAddrs(targets, h) {
      if a in targets {
        assert a in m' <==> targets[a].Some?;
      } else {
        assert a in m' <==> a in mapping;
      }
    }
  }

  lemma AddrsBeforeReplace(mapping: map<BlockAddress, Hash>, targets: Targets, h: Hash)
    ensures AddrsOf(mapping, h) == (AddrsOf(mapping, h) - targets.Keys) + DisplacedAddrs(mapping, targets, h)
  {
  }

  lemma TradeSizes<T>(before: set<T>, after: set<T>, kept: set<T>, created: set<T>, displaced: set<T>)
    requires before == kept + displaced && kept !! displaced
    requires after == kept + created && kept !! created
    ensures |after| + |displaced| == |before| + |created|
  {
  }

  // Replacing mappings trades new addresses for displaced ones.
  lemma ReplaceTrades(mapping: map<BlockAddress, Hash>, targets: Targets, h: Hash)
    ensures |AddrsOf(ReplacedMapping(mapping, targets), h)| + |DisplacedAddrs(mapping, targets, h)|
         == |AddrsOf(mapping, h)| + |NewAddrs(targets, h)|
  {
    AddrsBeforeReplace(mapping, targets, h);
    AddrsAfterReplace(mapping, targets, h);
    TradeSizes(AddrsOf(mapping, h), AddrsOf(ReplacedMapping(mapping, targets), h),
               AddrsOf(mapping, h) - targets.Keys, NewAddrs(targets, h), DisplacedAddrs(mapping, targets, h));
  }

  lemma DecrementedCount(st: Store, decs: map<Hash, nat>, h: Hash)
    requires Count(decs, h) <= Count(st.counts, h)
    ensures Count(Decremented(st, decs).counts, h) == Count(st.counts, h) - Count(decs, h)
  {
  }

  // What the counter has beyond the mapped addresses; a step keeps this in balance
  // with the references that the operation holds.
  function Excess(counts: map<Hash, nat>, mapping: map<BlockAddress, Hash>, h: Hash): int {
    Count(counts, h) - |AddrsOf(mapping, h)|
  }

  ghost predicate Balanced(s: Sys, i: nat, s': Sys, h: Hash)
    requires i < |s.ops|
  {
    && |s'.ops| == |s.ops| && s'.ops == s.ops[i := s'.ops[i]]
    && Excess(s'.st.counts, s'.st.mapping, h) - Held(s'.ops[i], h) ==
       Excess(s.st.counts, s.st.mapping, h) - Held(s.ops[i], h)
  }

  lemma IncrementBalances(cfg: Config, s: Sys, i: nat, h: Hash)
    requires i < |s.ops| && OpOk(cfg, s.ops[i]) && s.ops[i].Prepared?
    ensures Balanced(s, i, Advanced(cfg, s, i), h)
  {
    IncrementsCount(s.ops[i].targets, h);
  }

  lemma ReplaceBalances(cfg: Config, s: Sys, i: nat, h: Hash)
    requires i < |s.ops| && OpOk(cfg, s.ops[i]) && s.ops[i].Uploaded?
    ensures Balanced(s, i, Advanced(cfg, s, i), h)
  {
    ReplaceTrades(s.st.mapping, s.ops[i].targets, h);
    DisplacedCount(s.st.mapping, s.ops[i].targets, h);
  }

  lemma ClearBalances(cfg: Config, s: Sys, i: nat, h: Hash)
    requires i < |s.ops| && OpOk(cfg, s.ops[i]) && s.ops[i].Clearing?
    ensures Balanced(s, i, Advanced(cfg, s, i), h)
  {
    var targets: Targets := map[s.ops[i].addr := None];
    assert NewAddrs(targets, h) == {};
    ReplaceTrades(s.st.mapping, targets, h);
    DisplacedCount(s.st.mapping, targets, h);
  }

  lemma DecrementBalances(cfg: Config, s: Sys, i: nat, h: Hash)
    requires i < |s.ops| && OpOk(cfg, s.ops[i]) && s.ops[i].Displacing?
    requires Held(s.ops[i], h) <= Count(s.st.counts, h)
    ensures Balanced(s, i, Advanced(cfg, s, i), h)
  {
    DecrementedCount(s.st, s.ops[i].decs, h);
  }

  lemma OtherStepsBalance(cfg: Config, s: Sys, i: nat, h: Hash)
    requires i < |s.ops| && OpOk(cfg, s.ops[i])
    requires s.ops[i].Counted? || s.ops[i].Replaced? || s.ops[i].Finished?
    ensures Balanced(s, i, Advanced(cfg, s, i), h)
  {
  }

  lemma AdvanceConserves(cfg: Config, s: Sys, i: nat)
    requires OpsOk(cfg, s) && Conserved(s) && i < |s.ops|
    ensures Conserved(Advanced(cfg, s, i))
  {
    var s' := Advanced(cfg, s, i);
    forall h
      ensures Count(s'.st.counts, h) == |AddrsOf(s'.st.mapping, h)| + HeldByAll(s'.ops, h)
    {
      HeldAfterUpdate(s.ops, i, s.ops[i], h);
      if s.ops[i].Prepared? { IncrementBalances(cfg, s, i, h); }
      else if s.ops[i].Uploaded? { ReplaceBalances(cfg, s, i, h); }
      else if s.ops[i].Clearing? { ClearBalances(cfg, s, i, h); }
      else if s.ops[i].Displacing? { DecrementBalances(cfg, s, i, h); }
      else { OtherStepsBalance(cfg, s, i, h); }
      HeldAfterUpdate(s.ops, i, s'.ops[i], h);
    }
  }

  // ---------------------------------------------------------------------------
  // Block availability

  ghost predicate Owes(ops: seq<Op>, i: int, h: Hash) {
    0 <= i < |ops| && ops[i].Counted? && h in ops[i].owed
  }

  // A stored block lies under its own hash and is referenced.
  ghost predicate StoredIsReferenced(cfg: Config, s: Sys) {
    forall h | h in s.st.blocks :: cfg.digest(s.st.blocks[h]) == h && h in s.st.counts
  }

  // A referenced block is stored, or an operation in flight still owes the upload.
  ghost predicate ReferencedIsStored(s: Sys) {
    forall h | h in s.st.counts ::
      s.st.counts[h] > 0 && (h in s.st.blocks || exists i :: Owes(s.ops, i, h))
  }

  lemma OwesIsHeld(cfg: Config, s: Sys, i: nat, h: Hash)
    requires OpsOk(cfg, s) && Conserved(s) && Owes(s.ops, i, h)
    ensures h in s.st.counts && h in s.ops[i].data
  {
    IncrementsCount(s.ops[i].targets, h);
    HeldAfterUpdate(s.ops, i, Finished, h);
    var a :| a in NewAddrs(s.ops[i].targets, h);
    assert Count(s.st.counts, h) > 0;
  }

  lemma AdvanceKeepsStoredIsReferenced(cfg: Config, s: Sys, i: nat)
    requires OpsOk(cfg, s) && Conserved(s) && i < |s.ops|
    requires StoredIsReferenced(cfg, s)
    ensures StoredIsReferenced(cfg, Advanced(cfg, s, i))
  {
    if s.ops[i].Counted? {
      forall h | h in s.ops[i].owed { OwesIsHeld(cfg, s, i, h); }
    }
  }

  lemma AdvanceKeepsReferencedIsStored(cfg: Config, s: Sys, i: nat)
    requires OpsOk(cfg, s) && Conserved(s) && i < |s.ops|
    requires ReferencedIsStored(s)
    ensures ReferencedIsStored(Advanced(cfg, s, i))
  {
    var s' := Advanced(cfg, s, i);
    forall h | h in s'.st.counts
      ensures s'.st.counts[h] > 0 && (h in s'.st.blocks || exists j :: Owes(s'.ops, j, h))
    {
      if h !in s.st.counts {
        IncrementsCount(s.ops[i].targets, h);
        assert Owes(s'.ops, i, h);
      } else if h !in s'.st.blocks {
        var j :| Owes(s.ops, j, h);
        assert Owes(s'.ops, j, h);
      }
    }
  }

  // An owed upload is owed by one operation, and its block is not stored yet.
  ghost predicate OwedOnce(s: Sys) {
    && (forall i, j, h | Owes(s.ops, i, h) && Owes(s.ops, j, h) :: i == j)
    && (forall i, h | Owes(s.ops, i, h) :: h !in s.st.blocks)
  }

  lemma IncrementOwes(cfg: Config, s: Sys, i: nat, j: int, h: Hash)
    requires OpsOk(cfg, s) && Conserved(s) && StoredIsReferenced(cfg, s) && ReferencedIsStored(s)
    requires i < |s.ops| && s.ops[i].Prepared? && Owes(Advanced(cfg, s, i).ops, i, h)
    ensures h !in s.st.blocks && !Owes(s.ops, j, h)
  {
    if Owes(s.ops, j, h) { OwesIsHeld(cfg, s, j, h); }
  }

  lemma AdvanceKeepsOwedOnce(cfg: Config, s: Sys, i: nat)
    requires OpsOk(cfg, s) && Conserved(s) && StoredIsReferenced(cfg, s) && ReferencedIsStored(s)
    requires i < |s.ops| && OwedOnce(s)
    ensures OwedOnce(Advanced(cfg, s, i))
  {
    var s' := Advanced(cfg, s, i);
    forall j, h | Owes(s'.ops, j, h)
      ensures j != i ==> Owes(s.ops, j, h)
      ensures h !in s'.st.blocks
    {
      if s.ops[i].Prepared? && j == i {
        IncrementOwes(cfg, s, i, i, h);
      } else {
        assert j != i && s'.ops[j] == s.ops[j];
        assert Owes(s.ops, j, h);
        if s.ops[i].Counted? && h in s.ops[i].owed { assert Owes(s.ops, i, h); }
      }
    }
    forall j, k, h | Owes(s'.ops, j, h) && Owes(s'.ops, k, h) ensures j == k {
      if j == i && k != i { IncrementOwes(cfg, s, i, k, h); }
      if k == i && j != i { IncrementOwes(cfg, s, i, j, h); }
    }
  }

  // ---------------------------------------------------------------------------
  // File sizes

  // The size key already covers the block, or a write in flight will raise it.
  ghost predicate SizeCovers(cfg: Config, s: Sys, a: BlockAddress) {
    || (a.ino in s.st.sizes && a.index * cfg.blockSize < s.st.sizes[a.ino])
    || exists i :: WillCover(cfg, s.ops, i, a)
  }

  ghost predicate WillCover(cfg: Config, ops: seq<Op>, i: int, a: BlockAddress) {
    0 <= i < |ops| && ops[i].Replaced? && ops[i].ino == a.ino && a.index * cfg.blockSize < ops[i].targetSize
  }

  ghost predicate MappedIsCovered(cfg: Config, s: Sys) {
    forall a | a in s.st.mapping && a.ino in s.st.sizes :: SizeCovers(cfg, s, a)
  }

  // Files get their numbers from the counter, so a new file starts without mappings.
  ghost predicate InosKnown(s: Sys) {
    && (forall a | a in s.st.mapping :: a.ino < s.nextIno)
    && (forall ino | ino in s.st.sizes :: ino < s.nextIno)
    && (forall i | 0 <= i < |s.ops| ::
          s.ops[i].Prepared? || s.ops[i].Counted? || s.ops[i].Uploaded? ==> s.ops[i].ino < s.nextIno)
  }

  lemma AdvanceKeepsInosKnown(cfg: Config, s: Sys, i: nat)
    requires OpsOk(cfg, s) && i < |s.ops| && InosKnown(s)
    ensures InosKnown(Advanced(cfg, s, i))
  {
  }

  lemma AdvanceKeepsMappedIsCovered(cfg: Config, s: Sys, i: nat)
    requires OpsOk(cfg, s) && i < |s.ops| && MappedIsCovered(cfg, s)
    ensures MappedIsCovered(cfg, Advanced(cfg, s, i))
  {
    var s' := Advanced(cfg, s, i);
    forall a | a in s'.st.mapping && a.ino in s'.st.sizes
      ensures SizeCovers(cfg, s', a)
    {
      if s.ops[i].Uploaded? && a in s.ops[i].targets {
        assert WillCover(cfg, s'.ops, i, a);
      } else {
        assert SizeCovers(cfg, s, a);
        if j :| WillCover(cfg, s.ops, j, a) {
          assert j != i ==> WillCover(cfg, s'.ops, j, a);
        }
      }
    }
  }

  // ---------------------------------------------------------------------------
  // All interleavings

  ghost function Apply(cfg: Config, s: Sys, e: Event): Sys {
    match e
    case CreateFile => s.(st := s.st.(sizes := s.st.sizes[s.nextIno := 0]), nextIno := s.nextIno + 1)
    case BeginWrite(ino, targets, data) =>
      if ino < s.nextIno && WellFormedWrite(cfg, ino, targets, data)
      then s.(ops := s.ops + [Prepared(ino, targets, data)]) else s
    case BeginClear(addr) => s.(ops := s.ops + [Clearing(addr)])
    case Advance(i) => if i < |s.ops| && OpOk(cfg, s.ops[i]) then Advanced(cfg, s, i) else s
    case DropMetadata(ino) => s.(st := s.st.(sizes := s.st.sizes - {ino}))
  }

  ghost function Exec(cfg: Config, s: Sys, events: seq<Event>): Sys {
    if events == [] then s
    else Apply(cfg, Exec(cfg, s, events[..|events| - 1]), events[|events| - 1])
  }

  lemma {:induction false} ExecNext(cfg: Config, s: Sys, events: seq<Event>, e: Event)
    ensures Exec(cfg, s, events + [e]) == Apply(cfg, Exec(cfg, s, events), e)
  {
    assert (events + [e])[..|events|] == events;
  }

  lemma {:induction false} ExecInTurn(cfg: Config, s: Sys, events: seq<Event>, later: seq<Event>)
    ensures Exec(cfg, s, events + later) == Exec(cfg, Exec(cfg, s, events), later)
  {
    if later == [] {
      assert events + later == events;
    } else {
      var front, e := later[..|later| - 1], later[|later| - 1];
      ExecInTurn(cfg, s, events, front);
      assert events + later == (events + front) + [e];
      ExecNext(cfg, s, events + front, e);
    }
  }

  lemma {:induction false} FirstStep(cfg: Config, s: Sys, e: Event, later: seq<Event>)
    ensures Exec(cfg, s, [e] + later) == Exec(cfg, Apply(cfg, s, e), later)
  {
    ExecNext(cfg, s, [], e);
    assert [] + [e] == [e];
    ExecInTurn(cfg, s, [e], later);
  }

  // A run through the given states.
  lemma {:induction false} ExecThrough(cfg: Config, events: seq<Event>, states: seq<Sys>)
    requires |states| == |events| + 1
    requires forall i | 0 <= i < |events| :: Apply(cfg, states[i], events[i]) == states[i + 1]
    ensures Exec(cfg, states[0], events) == states[|events|]
  {
    if events != [] {
      var n := |events| - 1;
      ExecThrough(cfg, events[..n], states[..n + 1]);
    }
  }

  ghost predicate Inv(cfg: Config, s: Sys) {
    && OpsOk(cfg, s)
    && Conserved(s)
    && StoredIsReferenced(cfg, s)
    && ReferencedIsStored(s)
    && OwedOnce(s)
    && InosKnown(s)
    && MappedIsCovered(cfg, s)
  }

  lemma AdvancedOpOk(cfg: Config, s: Sys, i: nat)
    requires i < |s.ops| && OpOk(cfg, s.ops[i])
    ensures |Advanced(cfg, s, i).ops| == |s.ops| && OpOk(cfg, Advanced(cfg, s, i).ops[i])
  {
    match s.ops[i]
    case Uploaded(_, targets, _) => DisplacedIsPositive(s.st.mapping, targets);
    case Clearing(addr) => DisplacedIsPositive(s.st.mapping, map[addr := None]);
    case _ =>
  }

  lemma AdvanceKeepsOpsOk(cfg: Config, s: Sys, i: nat)
    requires OpsOk(cfg, s) && i < |s.ops|
    ensures OpsOk(cfg, Advanced(cfg, s, i))
  {
    AdvancedOpOk(cfg, s, i);
    forall j | 0 <= j < |s.ops| && j != i ensures Advanced(cfg, s, i).ops[j] == s.ops[j] { }
  }

  // Starting an operation changes nothing that is counted, stored or mapped.
  lemma BeginKeepsInv(cfg: Config, s: Sys, op: Op)
    requires Inv(cfg, s) && OpOk(cfg, op)
    requires op.Clearing? || (op.Prepared? && op.ino < s.nextIno)
    ensures Inv(cfg, s.(ops := s.ops + [op]))
  {
    var s' := s.(ops := s.ops + [op]);
    forall h ensures HeldByAll(s'.ops, h) == HeldByAll(s.ops, h) { HeldAfterBegin(s.ops, op, h); }
    forall i, h ensures Owes(s'.ops, i, h) <==> Owes(s.ops, i, h) { }
    forall i, a | WillCover(cfg, s.ops, i, a) ensures WillCover(cfg, s'.ops, i, a) { }
    assert forall a | SizeCovers(cfg, s, a) :: SizeCovers(cfg, s', a);
  }

  lemma ApplyKeepsInv(cfg: Config, s: Sys, e: Event)
    requires Inv(cfg, s)
    ensures Inv(cfg, Apply(cfg, s, e))
  {
    match e
    case CreateFile =>
      var s' := Apply(cfg, s, e);
      assert forall a: BlockAddress | a.ino != s.nextIno && SizeCovers(cfg, s, a) :: SizeCovers(cfg, s', a);
    case BeginWrite(ino, targets, data) =>
      if ino < s.nextIno && WellFormedWrite(cfg, ino, targets, data) {
        BeginKeepsInv(cfg, s, Prepared(ino, targets, data));
      }
    case BeginClear(addr) => BeginKeepsInv(cfg, s, Clearing(addr));
    case Advance(i) =>
      if i < |s.ops| {
        AdvanceKeepsOpsOk(cfg, s, i);
        AdvanceConserves(cfg, s, i);
        AdvanceKeepsStoredIsReferenced(cfg, s, i);
        AdvanceKeepsReferencedIsStored(cfg, s, i);
        AdvanceKeepsOwedOnce(cfg, s, i);
        AdvanceKeepsInosKnown(cfg, s, i);
        AdvanceKeepsMappedIsCovered(cfg, s, i);
      }
    case DropMetadata(ino) =>
      var s' := Apply(cfg, s, e);
      assert forall a: BlockAddress | a.ino in s'.st.sizes && SizeCovers(cfg, s, a) :: SizeCovers(cfg, s', a);
  }

  lemma {:induction false} ExecKeepsInv(cfg: Config, s: Sys, events: seq<Event>)
    requires Inv(cfg, s)
    ensures Inv(cfg, Exec(cfg, s, events))
  {
    if events != [] {
      ExecKeepsInv(cfg, s, events[..|events| - 1]);
      ApplyKeepsInv(cfg, Exec(cfg, s, events[..|events| - 1]), events[|events| - 1]);
    }
  }

  // ---------------------------------------------------------------------------
  // What holds in every reachable state

  lemma EmptyIsOk(cfg: Config)
    ensures Inv(cfg, Empty)
  {
    assert forall h :: AddrsOf(map[], h) == {};
  }

  // Every counter is the number of addresses that map to the hash plus the
  // references held by operations in flight.
  lemma {:induction false} ReferenceCountConservation(cfg: Config, events: seq<Event>, h: Hash)
    ensures var s := Exec(cfg, Empty, events);
            Count(s.st.counts, h) == |AddrsOf(s.st.mapping, h)| + HeldByAll(s.ops, h)
  {
    EmptyIsOk(cfg);
    ExecKeepsInv(cfg, Empty, events);
  }

  // So a decrement never meets a counter that is too small.
  lemma {:induction false} DecrementNeverClamped(cfg: Config, events: seq<Event>, i: nat, h: Hash)
    requires var s := Exec(cfg, Empty, events); i < |s.ops| && s.ops[i].Displacing? && h in s.ops[i].decs
    ensures var s := Exec(cfg, Empty, events); s.ops[i].decs[h] <= Count(s.st.counts, h)
  {
    var s := Exec(cfg, Empty, events);
    ReferenceCountConservation(cfg, events, h);
    HeldAfterUpdate(s.ops, i, Finished, h);
  }

  ghost predicate Quiescent(s: Sys) {
    forall i | 0 <= i < |s.ops| :: s.ops[i].Finished?
  }

  lemma {:induction false} NothingHeldWhenQuiescent(ops: seq<Op>, h: Hash)
    requires forall i | 0 <= i < |ops| :: ops[i].Finished?
    ensures HeldByAll(ops, h) == 0
  {
    if ops != [] {
      NothingHeldWhenQuiescent(ops[..|ops| - 1], h);
    }
  }

  lemma QuiescentCounts(cfg: Config, s: Sys, h: Hash)
    requires Inv(cfg, s) && Quiescent(s)
    ensures Count(s.st.counts, h) == |AddrsOf(s.st.mapping, h)|
  {
    NothingHeldWhenQuiescent(s.ops, h);
  }

  // With nothing in flight, the stored blocks are exactly the mapped hashes, each
  // under its own hash, and the counters are exact.
  lemma {:induction false} ExactReclamation(cfg: Config, events: seq<Event>)
    requires Quiescent(Exec(cfg, Empty, events))
    ensures var st := Exec(cfg, Empty, events).st;
            && st.blocks.Keys == st.mapping.Values == st.counts.Keys
            && (forall h | h in st.blocks :: cfg.digest(st.blocks[h]) == h)
            && (forall h | h in st.counts :: st.counts[h] == |AddrsOf(st.mapping, h)|)
  {
    var s := Exec(cfg, Empty, events);
    EmptyIsOk(cfg);
    ExecKeepsInv(cfg, Empty, events);
    forall h
      ensures h in s.st.counts <==> h in s.st.mapping.Values
      ensures h in s.st.counts ==> s.st.counts[h] == |AddrsOf(s.st.mapping, h)|
      ensures h in s.st.counts <==> h in s.st.blocks
    {
      QuiescentCounts(cfg, s, h);
      if h in s.st.mapping.Values {
        var a :| a in s.st.mapping && s.st.mapping[a] == h;
        assert a in AddrsOf(s.st.mapping, h);
      }
      if h in s.st.counts {
        var a :| a in AddrsOf(s.st.mapping, h);
        assert forall i :: !Owes(s.ops, i, h);
      }
    }
  }

  // A block that is stored stays stored as long as it is counted.
  lemma StoredWhileCounted(cfg: Config, s: Sys, e: Event, h: Hash)
    requires OpsOk(cfg, s) && h in s.st.blocks && h in Apply(cfg, s, e).st.counts
    ensures h in Apply(cfg, s, e).st.blocks
  {
  }

  lemma MappedIsCounted(cfg: Config, s: Sys, a: BlockAddress)
    requires Inv(cfg, s) && a in s.st.mapping
    ensures s.st.mapping[a] in s.st.counts
  {
    assert a in AddrsOf(s.st.mapping, s.st.mapping[a]);
    assert Count(s.st.counts, s.st.mapping[a]) > 0;
  }

  // A mapped hash leads to a stored block exactly when nobody owes its upload.
  lemma StoredIffNotOwed(cfg: Config, s: Sys, a: BlockAddress)
    requires Inv(cfg, s) && a in s.st.mapping
    ensures s.st.mapping[a] in s.st.blocks <==> forall i :: !Owes(s.ops, i, s.st.mapping[a])
  {
    MappedIsCounted(cfg, s, a);
  }

  // ---------------------------------------------------------------------------
  // Clearing a file

  ghost predicate Writes(op: Op, ino: Ino) {
    (op.Prepared? || op.Counted? || op.Uploaded? || op.Replaced?) && op.ino == ino
  }

  ghost predicate NoWriter(s: Sys, ino: Ino) {
    forall i | 0 <= i < |s.ops| :: !Writes(s.ops[i], ino)
  }

  predicate StartsNoWrite(events: seq<Event>, ino: Ino) {
    forall e | e in events :: e.BeginWrite? ==> e.ino != ino
  }

  // The transaction that clears address `a` is the j-th event.
  ghost predicate ClearsAt(cfg: Config, s: Sys, events: seq<Event>, j: int, a: BlockAddress) {
    && 0 <= j < |events| && events[j].Advance?
    && var s' := Exec(cfg, s, events[..j]);
       events[j].op < |s'.ops| && s'.ops[events[j].op] == Clearing(a)
  }

  ghost predicate IsCleared(cfg: Config, s: Sys, events: seq<Event>, addr: BlockAddress) {
    exists j :: ClearsAt(cfg, s, events, j, addr)
  }

  // Each block that the size read in state `s` announces is cleared during the run.
  ghost predicate EveryBlockCleared(cfg: Config, s: Sys, events: seq<Event>, ino: Ino)
    requires cfg.blockSize > 0 && ino in s.st.sizes
  {
    forall k: nat | k < CeilDiv(s.st.sizes[ino], cfg.blockSize) :: IsCleared(cfg, s, events, BlockAddress(ino, k))
  }

  // Mappings of the file only went away.
  ghost predicate OnlyShrinks(mapping: map<BlockAddress, Hash>, mapping': map<BlockAddress, Hash>, ino: Ino) {
    forall a: BlockAddress | a.ino == ino && a in mapping' :: a in mapping
  }

  lemma ReplacementKeepsAway(mapping: map<BlockAddress, Hash>, targets: Targets, ino: Ino)
    requires forall a | a in targets && a.ino == ino :: targets[a] == None
    ensures OnlyShrinks(mapping, ReplacedMapping(mapping, targets), ino)
  {
  }

  lemma AdvanceOnlyShrinks(cfg: Config, s: Sys, i: nat, ino: Ino)
    requires i < |s.ops| && OpOk(cfg, s.ops[i]) && !Writes(s.ops[i], ino)
    ensures var s' := Advanced(cfg, s, i);
            |s'.ops| == |s.ops| && s'.ops == s.ops[i := s'.ops[i]] && !Writes(s'.ops[i], ino)
    ensures OnlyShrinks(s.st.mapping, Advanced(cfg, s, i).st.mapping, ino)
  {
    match s.ops[i]
    case Uploaded(_, targets, _) => ReplacementKeepsAway(s.st.mapping, targets, ino);
    case Clearing(addr) => ReplacementKeepsAway(s.st.mapping, map[addr := None], ino);
    case _ =>
  }

  lemma StepOnlyShrinks(cfg: Config, s: Sys, e: Event, ino: Ino)
    requires OpsOk(cfg, s) && NoWriter(s, ino) && (e.BeginWrite? ==> e.ino != ino)
    ensures NoWriter(Apply(cfg, s, e), ino)
    ensures OnlyShrinks(s.st.mapping, Apply(cfg, s, e).st.mapping, ino)
  {
    if e.Advance? && e.op < |s.ops| { AdvanceOnlyShrinks(cfg, s, e.op, ino); }
  }

  lemma {:induction false} RunOnlyShrinks(cfg: Config, s: Sys, events: seq<Event>, ino: Ino)
    requires Inv(cfg, s) && NoWriter(s, ino) && StartsNoWrite(events, ino)
    ensures NoWriter(Exec(cfg, s, events), ino)
    ensures OnlyShrinks(s.st.mapping, Exec(cfg, s, events).st.mapping, ino)
  {
    if events != [] {
      var n := |events| - 1;
      RunOnlyShrinks(cfg, s, events[..n], ino);
      ExecKeepsInv(cfg, s, events[..n]);
      StepOnlyShrinks(cfg, Exec(cfg, s, events[..n]), events[n], ino);
    }
  }

  lemma ClearStepClears(cfg: Config, s: Sys, i: nat, a: BlockAddress)
    requires i < |s.ops| && s.ops[i] == Clearing(a)
    ensures a !in Apply(cfg, s, Advance(i)).st.mapping
  {
  }

  // Without a writer a cleared mapping stays away.
  lemma {:induction false} ClearedStaysCleared(cfg: Config, s: Sys, events: seq<Event>, j: int, a: BlockAddress)
    requires Inv(cfg, s) && NoWriter(s, a.ino) && StartsNoWrite(events, a.ino) && ClearsAt(cfg, s, events, j, a)
    ensures a !in Exec(cfg, s, events).st.mapping
  {
    var n := |events| - 1;
    var front := events[..n];
    if j < n {
      assert front[..j] == events[..j];
      ClearedStaysCleared(cfg, s, front, j, a);
      RunOnlyShrinks(cfg, s, front, a.ino);
      ExecKeepsInv(cfg, s, front);
      StepOnlyShrinks(cfg, Exec(cfg, s, front), events[n], a.ino);
    } else {
      ClearStepClears(cfg, Exec(cfg, s, front), events[n].op, a);
    }
  }

  // Clearing the blocks below ceil(size / block size) removes every mapping of the
  // file, whatever else runs and in whatever order the clears commit.
  lemma {:induction false} ClearRemovesEverything(cfg: Config, s: Sys, events: seq<Event>, ino: Ino)
    requires Inv(cfg, s) && cfg.blockSize > 0
    requires ino in s.st.sizes && NoWriter(s, ino) && StartsNoWrite(events, ino)
    requires EveryBlockCleared(cfg, s, events, ino)
    ensures forall a | a in Exec(cfg, s, events).st.mapping :: a.ino != ino
  {
    RunOnlyShrinks(cfg, s, events, ino);
    forall a | a in s.st.mapping && a.ino == ino
      ensures a !in Exec(cfg, s, events).st.mapping
    {
      assert SizeCovers(cfg, s, a);
      BelowCeilDiv(a.index, s.st.sizes[ino], cfg.blockSize);
      assert a == BlockAddress(ino, a.index) && IsCleared(cfg, s, events, a);
      var j :| ClearsAt(cfg, s, events, j, a);
      ClearedStaysCleared(cfg, s, events, j, a);
    }
  }

  // The step is the transaction that clears a block of the file.
  predicate ClearsFile(s: Sys, e: Event, ino: Ino) {
    e.Advance? && e.op < |s.ops| && s.ops[e.op].Clearing? && s.ops[e.op].addr.ino == ino
  }

  function DisplacedByStep(s: Sys, e: Event, ino: Ino, h: Hash): nat {
    if ClearsFile(s, e, ino) then |DisplacedAddrs(s.st.mapping, map[s.ops[e.op].addr := None], h)| else 0
  }

  // References of one hash that the clears of the file displace during a run.
  ghost function DisplacedByClears(cfg: Config, s: Sys, events: seq<Event>, ino: Ino, h: Hash): nat {
    if events == [] then 0
    else
      var n := |events| - 1;
      DisplacedByClears(cfg, s, events[..n], ino, h) + DisplacedByStep(Exec(cfg, s, events[..n]), events[n], ino, h)
  }

  lemma ClearedAddrs(mapping: map<BlockAddress, Hash>, addr: BlockAddress, h: Hash)
    ensures |FileAddrs(ReplacedMapping(mapping, map[addr := None]), addr.ino, h)| +
            |DisplacedAddrs(mapping, map[addr := None], h)| == |FileAddrs(mapping, addr.ino, h)|
  {
    var targets: Targets := map[addr := None];
    var after, gone := FileAddrs(ReplacedMapping(mapping, targets), addr.ino, h), DisplacedAddrs(mapping, targets, h);
    assert FileAddrs(mapping, addr.ino, h) == after + gone && after !! gone;
  }

  lemma OthersKeepAddrs(mapping: map<BlockAddress, Hash>, targets: Targets, ino: Ino, h: Hash)
    requires forall a | a in targets :: a.ino != ino
    ensures FileAddrs(ReplacedMapping(mapping, targets), ino, h) == FileAddrs(mapping, ino, h)
  {
  }

  lemma StepTradesAddrs(cfg: Config, s: Sys, e: Event, ino: Ino, h: Hash)
    requires OpsOk(cfg, s) && NoWriter(s, ino)
    ensures |FileAddrs(Apply(cfg, s, e).st.mapping, ino, h)| + DisplacedByStep(s, e, ino, h)
         == |FileAddrs(s.st.mapping, ino, h)|
  {
    if e.Advance? && e.op < |s.ops| {
      match s.ops[e.op]
      case Clearing(addr) =>
        if addr.ino == ino {
          ClearedAddrs(s.st.mapping, addr, h);
        } else {
          OthersKeepAddrs(s.st.mapping, map[addr := None], ino, h);
        }
      case Uploaded(_, targets, _) => OthersKeepAddrs(s.st.mapping, targets, ino, h);
      case _ =>
    }
  }

  lemma {:induction false} ClearsTradeAddrs(cfg: Config, s: Sys, events: seq<Event>, ino: Ino, h: Hash)
    requires Inv(cfg, s) && NoWriter(s, ino) && StartsNoWrite(events, ino)
    ensures |FileAddrs(Exec(cfg, s, events).st.mapping, ino, h)| + DisplacedByClears(cfg, s, events, ino, h)
         == |FileAddrs(s.st.mapping, ino, h)|
  {
    if events != [] {
      var front := events[..|events| - 1];
      ClearsTradeAddrs(cfg, s, front, ino, h);
      ExecKeepsInv(cfg, s, front);
      RunOnlyShrinks(cfg, s, front, ino);
      StepTradesAddrs(cfg, Exec(cfg, s, front), events[|events| - 1], ino, h);
    }
  }

  // Whatever other files' operations are in flight, the clears of the file displace, and
  // so give back, exactly its own references of every hash.
  lemma {:induction false} UnlinkDisplacesItsReferences(cfg: Config, s: Sys, events: seq<Event>, ino: Ino, h: Hash)
    requires Inv(cfg, s) && cfg.blockSize > 0
    requires ino in s.st.sizes && NoWriter(s, ino) && StartsNoWrite(events, ino)
    requires EveryBlockCleared(cfg, s, events, ino)
    ensures DisplacedByClears(cfg, s, events, ino, h) == |FileAddrs(s.st.mapping, ino, h)|
  {
    ClearsTradeAddrs(cfg, s, events, ino, h);
    ClearRemovesEverything(cfg, s, events, ino);
    assert FileAddrs(Exec(cfg, s, events).st.mapping, ino, h) == {};
  }

  // Nothing but clears of this file, by any number of unlinkers.
  predicate OnlyClears(events: seq<Event>, ino: Ino) {
    forall e | e in events :: e.Advance? || (e.BeginClear? && e.addr.ino == ino)
  }

  ghost predicate OnlyClearing(s: Sys, ino: Ino) {
    forall i | 0 <= i < |s.ops| ::
      s.ops[i].Finished? || s.ops[i].Displacing? || (s.ops[i].Clearing? && s.ops[i].addr.ino == ino)
  }

  function OtherFiles(mapping: map<BlockAddress, Hash>, ino: Ino): map<BlockAddress, Hash> {
    map a | a in mapping && a.ino != ino :: mapping[a]
  }

  function FileAddrs(mapping: map<BlockAddress, Hash>, ino: Ino, h: Hash): set<BlockAddress> {
    set a | a in mapping && a.ino == ino && mapping[a] == h
  }

  lemma ReplacementLeavesOthers(mapping: map<BlockAddress, Hash>, targets: Targets, ino: Ino)
    requires forall a | a in targets :: a.ino == ino
    ensures OtherFiles(ReplacedMapping(mapping, targets), ino) == OtherFiles(mapping, ino)
  {
  }

  lemma ClearStepLeavesOthers(cfg: Config, s: Sys, e: Event, ino: Ino)
    requires OpsOk(cfg, s) && OnlyClearing(s, ino) && (e.Advance? || (e.BeginClear? && e.addr.ino == ino))
    ensures OnlyClearing(Apply(cfg, s, e), ino)
    ensures OtherFiles(Apply(cfg, s, e).st.mapping, ino) == OtherFiles(s.st.mapping, ino)
  {
    if e.Advance? && e.op < |s.ops| && s.ops[e.op].Clearing? {
      ReplacementLeavesOthers(s.st.mapping, map[s.ops[e.op].addr := None], ino);
    }
  }

  lemma {:induction false} ClearsLeaveOthers(cfg: Config, s: Sys, events: seq<Event>, ino: Ino)
    requires Inv(cfg, s) && OnlyClearing(s, ino) && OnlyClears(events, ino)
    ensures OnlyClearing(Exec(cfg, s, events), ino)
    ensures OtherFiles(Exec(cfg, s, events).st.mapping, ino) == OtherFiles(s.st.mapping, ino)
  {
    if events != [] {
      var n := |events| - 1;
      ClearsLeaveOthers(cfg, s, events[..n], ino);
      ExecKeepsInv(cfg, s, events[..n]);
      assert events[n] in events;
      ClearStepLeavesOthers(cfg, Exec(cfg, s, events[..n]), events[n], ino);
    }
  }

  // Removing a quiescent file gives back exactly its own references, even if several
  // unlinkers clear the same blocks concurrently.
  lemma {:induction false} UnlinkGivesBackEverything(cfg: Config, s: Sys, events: seq<Event>, ino: Ino, h: Hash)
    requires Inv(cfg, s) && cfg.blockSize > 0 && Quiescent(s) && ino in s.st.sizes
    requires OnlyClears(events, ino) && Quiescent(Exec(cfg, s, events))
    requires EveryBlockCleared(cfg, s, events, ino)
    ensures Exec(cfg, s, events).st.mapping == OtherFiles(s.st.mapping, ino)
    ensures Count(Exec(cfg, s, events).st.counts, h) == Count(s.st.counts, h) - |FileAddrs(s.st.mapping, ino, h)|
  {
    var s' := Exec(cfg, s, events);
    assert StartsNoWrite(events, ino);
    assert NoWriter(s, ino);
    ClearRemovesEverything(cfg, s, events, ino);
    ClearsLeaveOthers(cfg, s, events, ino);
    assert s'.st.mapping == OtherFiles(s'.st.mapping, ino);
    ExecKeepsInv(cfg, s, events);
    QuiescentCounts(cfg, s, h);
    QuiescentCounts(cfg, s', h);
    SplitByFile(s.st.mapping, ino, h);
  }

  lemma SplitByFile(mapping: map<BlockAddress, Hash>, ino: Ino, h: Hash)
    ensures |AddrsOf(mapping, h)| == |AddrsOf(OtherFiles(mapping, ino), h)| + |FileAddrs(mapping, ino, h)|
  {
    var others := AddrsOf(OtherFiles(mapping, ino), h);
    assert AddrsOf(mapping, h) == others + FileAddrs(mapping, ino, h);
  }

  // ---------------------------------------------------------------------------
  // One write after another

  // A write up to the replacement, by the operation with number `n`.
  function UntilReplaced(n: nat, ino: Ino, targets: Targets, data: map<Hash, Block>): seq<Event> {
    [BeginWrite(ino, targets, data), Advance(n), Advance(n), Advance(n)]
  }

  lemma LastOp(ops: seq<Op>, op: Op, op': Op)
    ensures (ops + [op])[|ops|] == op && (ops + [op])[|ops| := op'] == ops + [op']
  {
  }

  // Begun, counted and uploaded, without an effect on mappings and sizes.
  lemma StepsBeforeReplacement(cfg: Config, s: Sys, ino: Ino, targets: Targets, data: map<Hash, Block>)
    returns (s1: Sys, s2: Sys, s3: Sys)
    requires ino < s.nextIno && WellFormedWrite(cfg, ino, targets, data)
    ensures s1 == Apply(cfg, s, BeginWrite(ino, targets, data))
    ensures s2 == Apply(cfg, s1, Advance(|s.ops|)) && s3 == Apply(cfg, s2, Advance(|s.ops|))
    ensures s3.ops == s.ops + [Uploaded(ino, targets, data)] && s3.nextIno == s.nextIno
    ensures s3.st.mapping == s.st.mapping && s3.st.sizes == s.st.sizes
  {
    s1 := Apply(cfg, s, BeginWrite(ino, targets, data));
    s2 := Apply(cfg, s1, Advance(|s.ops|));
    LastOp(s.ops, s1.ops[|s.ops|], s2.ops[|s.ops|]);
    s3 := Apply(cfg, s2, Advance(|s.ops|));
    LastOp(s.ops, s2.ops[|s.ops|], s3.ops[|s.ops|]);
  }

  // The mappings are replaced and the size is still the old one.
  lemma {:induction false} ReplacedBeforeSize(cfg: Config, s: Sys, ino: Ino, targets: Targets, data: map<Hash, Block>)
    requires ino < s.nextIno && WellFormedWrite(cfg, ino, targets, data)
    ensures var s' := Exec(cfg, s, UntilReplaced(|s.ops|, ino, targets, data));
            && |s'.ops| == |s.ops| + 1 && s'.ops[..|s.ops|] == s.ops
            && s'.ops[|s.ops|].Replaced? && s'.ops[|s.ops|].ino == ino && s'.nextIno == s.nextIno
            && s'.ops[|s.ops|].targetSize == MaxEnd(cfg, targets.Keys, targets, data)
            && s'.st.mapping == ReplacedMapping(s.st.mapping, targets) && s'.st.sizes == s.st.sizes
  {
    var s1, s2, s3 := StepsBeforeReplacement(cfg, s, ino, targets, data);
    var s4 := Apply(cfg, s3, Advance(|s.ops|));
    LastOp(s.ops, s3.ops[|s.ops|], s4.ops[|s.ops|]);
    ExecThrough(cfg, UntilReplaced(|s.ops|, ino, targets, data), [s, s1, s2, s3, s4]);
  }

  // The same as a run of its own.
  lemma {:induction false} RunUntilReplaced(cfg: Config, s: Sys, ino: Ino, targets: Targets, data: map<Hash, Block>)
    returns (events: seq<Event>)
    requires ino < s.nextIno && WellFormedWrite(cfg, ino, targets, data)
    ensures var st := Exec(cfg, s, events).st;
            st.mapping == ReplacedMapping(s.st.mapping, targets) && st.sizes == s.st.sizes
  {
    events := UntilReplaced(|s.ops|, ino, targets, data);
    ReplacedBeforeSize(cfg, s, ino, targets, data);
  }

  function WholeWrite(n: nat, ino: Ino, targets: Targets, data: map<Hash, Block>): seq<Event> {
    UntilReplaced(n, ino, targets, data) + [Advance(n), Advance(n)]
  }

  lemma SizeAndDecrement(cfg: Config, s: Sys, n: nat)
    requires n == |s.ops| - 1 && s.ops[n].Replaced? && OpOk(cfg, s.ops[n]) && s.ops[n].ino in s.st.sizes
    ensures var s' := Apply(cfg, Apply(cfg, s, Advance(n)), Advance(n));
            var size, end := s.st.sizes[s.ops[n].ino], s.ops[n].targetSize;
            && s'.ops == s.ops[..n] + [Finished] && s'.nextIno == s.nextIno
            && s'.st.mapping == s.st.mapping && s'.st.sizes == s.st.sizes[s.ops[n].ino := Max(size, end)]
  {
    var s1 := Apply(cfg, s, Advance(n));
    assert s1.ops == s.ops[n := s1.ops[n]] && s1.ops[n].Displacing?;
    var s2 := Apply(cfg, s1, Advance(n));
    assert s2.ops == s1.ops[n := Finished];
  }

  // A write that runs alone leaves the store quiescent again, with its mappings.
  lemma {:induction false} WriteRunsAlone(cfg: Config, s: Sys, ino: Ino, targets: Targets, data: map<Hash, Block>)
    requires Inv(cfg, s) && Quiescent(s)
    requires ino < s.nextIno && ino in s.st.sizes && WellFormedWrite(cfg, ino, targets, data)
    ensures var s' := Exec(cfg, s, WholeWrite(|s.ops|, ino, targets, data));
            && Quiescent(s') && |s'.ops| == |s.ops| + 1 && s'.nextIno == s.nextIno
            && s'.st.mapping == ReplacedMapping(s.st.mapping, targets)
            && s'.st.sizes == s.st.sizes[ino := Max(s.st.sizes[ino], MaxEnd(cfg, targets.Keys, targets, data))]
  {
    var n, e := |s.ops|, Advance(|s.ops|);
    var events := UntilReplaced(n, ino, targets, data);
    var s4 := Exec(cfg, s, events);
    ReplacedBeforeSize(cfg, s, ino, targets, data);
    ExecKeepsInv(cfg, s, events);
    SizeAndDecrement(cfg, s4, n);
    assert WholeWrite(n, ino, targets, data) == (events + [e]) + [e];
    ExecNext(cfg, s, events, e);
    ExecNext(cfg, s, events + [e], e);
  }

  // ---------------------------------------------------------------------------
  // One clear after another

  function OneClear(n: nat, addr: BlockAddress): seq<Event> {
    [BeginClear(addr), Advance(n), Advance(n)]
  }

  // A clear begins as an operation of its own, and its first step unmaps the address.
  lemma ClearUnmaps(cfg: Config, s: Sys, addr: BlockAddress)
    ensures var s1 := Apply(cfg, s, BeginClear(addr));
            s1.ops == s.ops + [Clearing(addr)] && s1.st == s.st && s1.nextIno == s.nextIno
    ensures var s2 := Apply(cfg, Apply(cfg, s, BeginClear(addr)), Advance(|s.ops|));
            && |s2.ops| == |s.ops| + 1 && s2.ops[..|s.ops|] == s.ops && s2.ops[|s.ops|].Displacing?
            && s2.st == s.st.(mapping := s.st.mapping - {addr}) && s2.nextIno == s.nextIno
  {
    var s1 := Apply(cfg, s, BeginClear(addr));
    var s2 := Apply(cfg, s1, Advance(|s.ops|));
    LastOp(s.ops, s1.ops[|s.ops|], s2.ops[|s.ops|]);
    assert ReplacedMapping(s.st.mapping, map[addr := None]) == s.st.mapping - {addr};
  }

  lemma DecrementFinishes(cfg: Config, s: Sys, n: nat)
    requires n == |s.ops| - 1 && s.ops[n].Displacing? && OpOk(cfg, s.ops[n])
    ensures var s' := Apply(cfg, s, Advance(n));
            && s'.ops == s.ops[..n] + [Finished] && s'.nextIno == s.nextIno
            && s'.st.mapping == s.st.mapping && s'.st.sizes == s.st.sizes
  {
    assert s.ops[n := Finished] == s.ops[..n] + [Finished];
  }

  // A clear that runs alone leaves the store quiescent again, without the address.
  lemma {:induction false} ClearRunsAlone(cfg: Config, s: Sys, addr: BlockAddress)
    requires Inv(cfg, s) && Quiescent(s)
    ensures var s' := Exec(cfg, s, OneClear(|s.ops|, addr));
            && Inv(cfg, s') && Quiescent(s') && s'.st.mapping == s.st.mapping - {addr} && s'.st.sizes == s.st.sizes
  {
    var n := |s.ops|;
    ClearUnmaps(cfg, s, addr);
    var s1 := Apply(cfg, s, BeginClear(addr));
    var s2 := Apply(cfg, s1, Advance(n));
    ApplyKeepsInv(cfg, s, BeginClear(addr));
    ApplyKeepsInv(cfg, s1, Advance(n));
    DecrementFinishes(cfg, s2, n);
    ApplyKeepsInv(cfg, s2, Advance(n));
    ExecThrough(cfg, OneClear(n, addr), [s, s1, s2, Apply(cfg, s2, Advance(n))]);
  }

  ghost predicate ClearedBelow(cfg: Config, s: Sys, events: seq<Event>, ino: Ino, n: nat) {
    forall k: nat | k < n :: IsCleared(cfg, s, events, BlockAddress(ino, k))
  }

  lemma {:induction false} StaysAmongCleared(
      cfg: Config, s: Sys, events: seq<Event>, later: seq<Event>, ino: Ino, n: nat)
    requires ClearedBelow(cfg, s, events, ino, n)
    ensures ClearedBelow(cfg, s, events + later, ino, n)
  {
    forall k: nat | k < n ensures IsCleared(cfg, s, events + later, BlockAddress(ino, k)) {
      assert IsCleared(cfg, s, events, BlockAddress(ino, k));
      var j :| ClearsAt(cfg, s, events, j, BlockAddress(ino, k));
      assert (events + later)[..j] == events[..j];
      assert ClearsAt(cfg, s, events + later, j, BlockAddress(ino, k));
    }
  }

  lemma {:induction false} OneClearClears(cfg: Config, s: Sys, events: seq<Event>, addr: BlockAddress)
    ensures IsCleared(cfg, s, events + OneClear(|Exec(cfg, s, events).ops|, addr), addr)
  {
    var s' := Exec(cfg, s, events);
    var all, j := events + OneClear(|s'.ops|, addr), |events| + 1;
    ClearUnmaps(cfg, s', addr);
    assert all[..j] == events + [BeginClear(addr)];
    ExecNext(cfg, s, events, BeginClear(addr));
    assert ClearsAt(cfg, s, all, j, addr);
  }

  lemma {:induction false} OneMoreClear(cfg: Config, s: Sys, before: seq<Event>, addr: BlockAddress)
    returns (later: seq<Event>)
    requires Inv(cfg, s) && Quiescent(Exec(cfg, s, before)) && OnlyClears(before, addr.ino)
    ensures var s' := Exec(cfg, s, before + later); Quiescent(s') && s'.st.sizes == Exec(cfg, s, before).st.sizes
    ensures OnlyClears(before + later, addr.ino) && IsCleared(cfg, s, before + later, addr)
  {
    var s' := Exec(cfg, s, before);
    ExecKeepsInv(cfg, s, before);
    later := OneClear(|s'.ops|, addr);
    ClearRunsAlone(cfg, s', addr);
    ExecInTurn(cfg, s, before, later);
    OneClearClears(cfg, s, before, addr);
  }

  lemma OneMoreBelow(cfg: Config, s: Sys, events: seq<Event>, ino: Ino, n: nat)
    requires ClearedBelow(cfg, s, events, ino, n) && IsCleared(cfg, s, events, BlockAddress(ino, n))
    ensures ClearedBelow(cfg, s, events, ino, n + 1)
  {
  }

  // The blocks below `n` of a file are cleared one after the other.
  lemma {:induction false} ClearBelow(cfg: Config, s: Sys, ino: Ino, n: nat) returns (events: seq<Event>)
    requires Inv(cfg, s) && Quiescent(s)
    ensures OnlyClears(events, ino) && Quiescent(Exec(cfg, s, events))
    ensures Exec(cfg, s, events).st.sizes == s.st.sizes
    ensures ClearedBelow(cfg, s, events, ino, n)
  {
    if n == 0 {
      events := [];
    } else {
      var before := ClearBelow(cfg, s, ino, n - 1);
      var last := OneMoreClear(cfg, s, before, BlockAddress(ino, n - 1));
      events := before + last;
      StaysAmongCleared(cfg, s, before, last, ino, n - 1);
      OneMoreBelow(cfg, s, events, ino, n - 1);
    }
  }

  // So every file of a quiescent store can be cleared, by such a run.
  lemma {:induction false} ClearingRunExists(cfg: Config, s: Sys, ino: Ino) returns (events: seq<Event>)
    requires Inv(cfg, s) && cfg.blockSize > 0 && Quiescent(s) && ino in s.st.sizes
    ensures OnlyClears(events, ino) && EveryBlockCleared(cfg, s, events, ino) && Quiescent(Exec(cfg, s, events))
    ensures Exec(cfg, s, events).st.sizes == s.st.sizes
  {
    events := ClearBelow(cfg, s, ino, CeilDiv(s.st.sizes[ino], cfg.blockSize));
  }

  // Clearing a file and dropping its metadata leaves the other files, and exactly the
  // blocks that they need.
  lemma {:induction false} UnlinkedFileIsGone(cfg: Config, s: Sys, ino: Ino) returns (events: seq<Event>)
    requires Inv(cfg, s) && cfg.blockSize > 0 && Quiescent(s) && ino in s.st.sizes
    ensures var s' := Exec(cfg, s, events);
            && Inv(cfg, s') && Quiescent(s')
            && s'.st.mapping == OtherFiles(s.st.mapping, ino) && s'.st.sizes == s.st.sizes - {ino}
            && (forall h :: Count(s'.st.counts, h) == Count(s.st.counts, h) - |FileAddrs(s.st.mapping, ino, h)|)
            && (forall h :: h in s'.st.blocks <==> h in OtherFiles(s.st.mapping, ino).Values)
  {
    var clears := ClearingRunExists(cfg, s, ino);
    events := clears + [DropMetadata(ino)];
    ExecNext(cfg, s, clears, DropMetadata(ino));
    ExecKeepsInv(cfg, s, events);
    forall h
      ensures Count(Exec(cfg, s, events).st.counts, h) == Count(s.st.counts, h) - |FileAddrs(s.st.mapping, ino, h)|
    {
      UnlinkGivesBackEverything(cfg, s, clears, ino, h);
    }
    UnlinkGivesBackEverything(cfg, s, clears, ino, []);
    forall h { QuiescentBlocks(cfg, Exec(cfg, s, events), h); }
  }

  lemma QuiescentBlocks(cfg: Config, s: Sys, h: Hash)
    requires Inv(cfg, s) && Quiescent(s)
    ensures h in s.st.blocks <==> h in s.st.mapping.Values
  {
    QuiescentCounts(cfg, s, h);
    if h in s.st.mapping.Values {
      var a :| a in s.st.mapping && s.st.mapping[a] == h;
      StoredIffNotOwed(cfg, s, a);
    }
    if h in s.st.blocks {
      assert Count(s.st.counts, h) > 0;
      var a :| a in AddrsOf(s.st.mapping, h);
    }
  }

  // ---------------------------------------------------------------------------
  // A write whose file has no size

  // The size was dropped and the number is never given out again.
  ghost predicate WithoutSize(s: Sys, w: nat, ino: Ino) {
    w < |s.ops| && s.ops[w].Replaced? && s.ops[w].ino == ino && ino < s.nextIno && ino !in s.st.sizes
  }

  lemma StaysWithoutSize(cfg: Config, s: Sys, e: Event, w: nat, ino: Ino)
    requires WithoutSize(s, w, ino)
    ensures WithoutSize(Apply(cfg, s, e), w, ino) && Apply(cfg, s, e).ops[w] == s.ops[w]
  {
  }

  // It stops after the replacement for good, and its displaced references stay counted.
  lemma {:induction false} NeverGivesBackWithoutSize(
      cfg: Config, s: Sys, events: seq<Event>, w: nat, ino: Ino, h: Hash)
    requires Inv(cfg, s) && WithoutSize(s, w, ino)
    ensures var s' := Exec(cfg, s, events);
            && WithoutSize(s', w, ino) && s'.ops[w] == s.ops[w]
            && Count(s'.st.counts, h) >= |AddrsOf(s'.st.mapping, h)| + Count(s.ops[w].decs, h)
  {
    if events != [] {
      var n := |events| - 1;
      NeverGivesBackWithoutSize(cfg, s, events[..n], w, ino, h);
      StaysWithoutSize(cfg, Exec(cfg, s, events[..n]), events[n], w, ino);
    }
    ExecKeepsInv(cfg, s, events);
    HeldAfterUpdate(Exec(cfg, s, events).ops, w, Finished, h);
  }
}
