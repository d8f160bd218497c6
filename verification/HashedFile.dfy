// Files as lists of block hashes: the write path of src/fs/fuse_to_hashfs.rs and
// src/fs/hash_block/helpers.rs down to the hashes it assigns.
module HashedFile {
  import opened Types
  import opened Arith
  import opened BlockSplitter
  import opened FlatFile
  import opened RefCount
  import opened WritePath

  // The contents that the hashes of a file stand for.
  function Resolve(hashes: map<nat, Hash>, blocks: map<Hash, Block>): Content {
    map k | k in hashes && hashes[k] in blocks :: blocks[hashes[k]]
  }

  function HashesOf(cfg: Config, u: Content): map<nat, Hash> {
    map k | k in u :: cfg.digest(u[k])
  }

  // New hashes that differ from the ones already recorded.
  function Changed(prev: map<nat, Hash>, next: map<nat, Hash>): map<nat, Hash> {
    map k | k in next && !(k in prev && prev[k] == next[k]) :: next[k]
  }

  // Among these contents, equal hashes mean equal contents.
  ghost predicate NoCollision(cfg: Config, contents: set<Block>) {
    forall a, b | a in contents && b in contents :: cfg.digest(a) == cfg.digest(b) ==> a == b
  }

  ghost predicate UnderOwnHash(cfg: Config, blocks: map<Hash, Block>) {
    forall h | h in blocks :: cfg.digest(blocks[h]) == h
  }

  // ---------------------------------------------------------------------------
  // Irregular blocks

  // What is remembered about one irregular block between the two remote reads.
  datatype UpdateIrregularBlock = UpdateIrregularBlock(
    index: nat,
    data: seq<Byte>,
    position: nat,
    original: Option<Hash>)

  method GetAndAddOriginalBlockHash(
      index: nat, data: seq<Byte>, position: nat, prev: map<nat, Hash>, request: set<Hash>)
    returns (handler: UpdateIrregularBlock, request': set<Hash>)
    ensures handler == Handler(index, data, position, prev)
    ensures request' == request + Requested(handler)
  {
    var original: Option<Hash> := None;
    request' := request;
    if |data| > 0 {
      if index in prev {
        request' := request' + {prev[index]};
        original := Some(prev[index]);
      }
    }
    handler := UpdateIrregularBlock(index, data, position, original);
  }

  function Handler(index: nat, data: seq<Byte>, position: nat, prev: map<nat, Hash>): UpdateIrregularBlock {
    UpdateIrregularBlock(index, data, position, if data != [] && index in prev then Some(prev[index]) else None)
  }

  function Requested(handler: UpdateIrregularBlock): set<Hash> {
    if handler.original.Some? then {handler.original.value} else {}
  }

  function Modified(handler: UpdateIrregularBlock, preData: map<Hash, Block>): Content {
    if handler.data == [] then map[]
    else
      var original :=
        if handler.original.Some? && handler.original.value in preData then preData[handler.original.value] else [];
      map[handler.index := UpdateRange(original, handler.position, handler.data)]
  }

  // The handlers of one job: its irregular first and last block.
  function JobHandlers(s: Split, prev: map<nat, Hash>): (UpdateIrregularBlock, UpdateIrregularBlock) {
    (Handler(s.firstIndex, s.first, s.firstStart, prev), Handler(s.lastIndex, s.last, 0, prev))
  }

  function ModifiedByJob(handlers: (UpdateIrregularBlock, UpdateIrregularBlock), preData: map<Hash, Block>): Content {
    Modified(handlers.0, preData) + Modified(handlers.1, preData)
  }

  lemma HandlerSeesOldContent(
      index: nat, data: seq<Byte>, position: nat,
      recorded: map<nat, Hash>, prev: map<nat, Hash>, stored: map<Hash, Block>, preData: map<Hash, Block>)
    requires data != [] ==> Lookup(prev, index) == Lookup(recorded, index)
    requires forall h | h in Requested(Handler(index, data, position, prev)) :: Lookup(preData, h) == Lookup(stored, h)
    ensures Modified(Handler(index, data, position, prev), preData) ==
            if data == [] then map[]
            else map[index := UpdateRange(Get(Resolve(recorded, stored), index), position, data)]
  {
    if data != [] && index in prev {
      assert prev[index] in Requested(Handler(index, data, position, prev));
      assert Lookup(preData, prev[index]) == Lookup(stored, prev[index]);
      assert recorded[index] == prev[index];
    }
  }

  // Looking up the hashes first and their blocks later gives the old contents.
  lemma HandlersSeeOldContent(
      s: Split, recorded: map<nat, Hash>, prev: map<nat, Hash>, stored: map<Hash, Block>, preData: map<Hash, Block>)
    requires s.first != [] ==> Lookup(prev, s.firstIndex) == Lookup(recorded, s.firstIndex)
    requires s.last != [] ==> Lookup(prev, s.lastIndex) == Lookup(recorded, s.lastIndex)
    requires var (first, last) := JobHandlers(s, prev);
             forall h | h in Requested(first) + Requested(last) :: Lookup(preData, h) == Lookup(stored, h)
    ensures ModifiedByJob(JobHandlers(s, prev), preData) == IrregularUpdates(Resolve(recorded, stored), s)
  {
    HandlerSeesOldContent(s.firstIndex, s.first, s.firstStart, recorded, prev, stored, preData);
    HandlerSeesOldContent(s.lastIndex, s.last, 0, recorded, prev, stored, preData);
  }

  // `before` with the first `n` whole blocks of the split.
  function WithMids(before: Content, s: Split, blockSize: nat, n: nat): Content
    requires blockSize > 0
  {
    if n == 0 then before
    else WithMids(before, s, blockSize, n - 1)[s.midIndex + (n - 1) := MidChunk(s, blockSize, s.midIndex + (n - 1))]
  }

  lemma {:induction false} WithMidsAt(before: Content, s: Split, blockSize: nat, n: nat, k: nat)
    requires blockSize > 0
    ensures Lookup(WithMids(before, s, blockSize, n), k) ==
            if s.midIndex <= k < s.midIndex + n then Some(MidChunk(s, blockSize, k)) else Lookup(before, k)
  {
    if n > 0 { WithMidsAt(before, s, blockSize, n - 1, k); }
  }

  lemma {:induction false} WithAllMids(before: Content, s: Split, blockSize: nat)
    requires blockSize > 0
    ensures WithMids(before, s, blockSize, |s.mid| / blockSize) == before + MidUpdates(s, blockSize)
  {
    var l, r := WithMids(before, s, blockSize, |s.mid| / blockSize), before + MidUpdates(s, blockSize);
    forall k: nat ensures Lookup(l, k) == Lookup(r, k) { WithMidsAt(before, s, blockSize, |s.mid| / blockSize, k); }
    SameLookups(l, r);
  }

  lemma MidIsNonempty(s: Split, blockSize: nat, i: nat)
    requires blockSize > 0 && i < |s.mid| / blockSize
    ensures MidChunk(s, blockSize, s.midIndex + i) != []
  {
    BaseIsNat(i, blockSize);
    MulMono(i + 1, |s.mid| / blockSize, blockSize);
    assert (i + 1) * blockSize == i * blockSize + blockSize;
  }

  // The hash maps that `hb_write_data` fills.
  class NewBlocks {
    const cfg: Config
    var blocks: map<Hash, Block>
    var hashes: map<nat, Hash>
    ghost var contents: Content

    // `hashes` are the hashes of `contents`, and every one of them leads to a
    // nonempty block with that hash.
    ghost predicate Valid()
      reads this
    {
      && hashes == HashesOf(cfg, contents)
      && UnderOwnHash(cfg, blocks)
      && (forall k | k in contents :: hashes[k] in blocks)
      && (forall h | h in blocks :: blocks[h] != [])
    }

    constructor (cfg: Config)
      ensures Valid() && this.cfg == cfg && contents == map[]
    {
      this.cfg := cfg;
      blocks, hashes, contents := map[], map[], map[];
    }

    // A whole block replaces an entry of the same hash, a merged block does not.
    method Publish(index: nat, block: Block, replace: bool)
      requires Valid() && block != []
      modifies this
      ensures Valid() && contents == old(contents)[index := block]
    {
      var hash := cfg.digest(block);
      if replace || hash !in blocks {
        blocks := blocks[hash := block];
      }
      hashes := hashes[index := hash];
      contents := contents[index := block];
    }

    method GetAndModifyBlockAndPublishHash(handler: UpdateIrregularBlock, preData: map<Hash, Block>)
      requires Valid()
      modifies this
      ensures Valid() && contents == old(contents) + Modified(handler, preData)
    {
      if |handler.data| > 0 {
        var original: Block := [];
        if handler.original.Some? && handler.original.value in preData {
          original := preData[handler.original.value];
        }
        Publish(handler.index, UpdateRange(original, handler.position, handler.data), false);
      }
    }

    method PublishMid(s: Split)
      requires Valid() && cfg.blockSize > 0
      modifies this
      ensures Valid() && contents == old(contents) + MidUpdates(s, cfg.blockSize)
    {
      var n := |s.mid| / cfg.blockSize;
      ghost var before := contents;
      for i := 0 to n
        invariant Valid() && contents == WithMids(before, s, cfg.blockSize, i)
      {
        MidIsNonempty(s, cfg.blockSize, i);
        Publish(s.midIndex + i, MidChunk(s, cfg.blockSize, s.midIndex + i), true);
      }
      WithAllMids(before, s, cfg.blockSize);
    }
  }

  // ---------------------------------------------------------------------------
  // The whole flush

  // Some job's block range contains block `k`.
  predicate InRanges(splits: seq<Split>, k: nat) {
    exists i | 0 <= i < |splits| :: splits[i].firstIndex <= k < splits[i].RangeEnd()
  }

  function Splits(blockSize: nat, jobs: seq<Job>): (r: seq<Split>)
    requires blockSize > 0
    ensures |r| == |jobs| && forall i | 0 <= i < |jobs| :: r[i] == SplitJob(blockSize, jobs[i])
  {
    if jobs == [] then [] else Splits(blockSize, jobs[..|jobs| - 1]) + [SplitJob(blockSize, jobs[|jobs| - 1])]
  }

  function AllHandlers(splits: seq<Split>, prev: map<nat, Hash>): (r: seq<(UpdateIrregularBlock, UpdateIrregularBlock)>)
    ensures |r| == |splits| && forall i | 0 <= i < |splits| :: r[i] == JobHandlers(splits[i], prev)
  {
    if splits == [] then [] else AllHandlers(splits[..|splits| - 1], prev) + [JobHandlers(splits[|splits| - 1], prev)]
  }

  ghost predicate RequestedBySome(handlers: seq<(UpdateIrregularBlock, UpdateIrregularBlock)>, h: Hash) {
    exists i | 0 <= i < |handlers| :: h in Requested(handlers[i].0) + Requested(handlers[i].1)
  }

  method CollectHandlers(splits: seq<Split>, prev: map<nat, Hash>)
    returns (handlers: seq<(UpdateIrregularBlock, UpdateIrregularBlock)>, request: set<Hash>)
    ensures handlers == AllHandlers(splits, prev)
    ensures forall i | 0 <= i < |splits| :: Requested(handlers[i].0) + Requested(handlers[i].1) <= request
    ensures forall h | h in request :: RequestedBySome(handlers, h)
  {
    handlers, request := [], {};
    for i := 0 to |splits|
      invariant handlers == AllHandlers(splits[..i], prev)
      invariant forall j | 0 <= j < i :: Requested(handlers[j].0) + Requested(handlers[j].1) <= request
      invariant forall h | h in request :: RequestedBySome(handlers, h)
    {
      ghost var before, asked := handlers, request;
      var s := splits[i];
      var first, last;
      first, request := GetAndAddOriginalBlockHash(s.firstIndex, s.first, s.firstStart, prev, request);
      last, request := GetAndAddOriginalBlockHash(s.lastIndex, s.last, 0, prev, request);
      handlers := handlers + [(first, last)];
      assert handlers[i] == (first, last);
      forall h | h in asked ensures RequestedBySome(handlers, h) {
        var j :| 0 <= j < |before| && h in Requested(before[j].0) + Requested(before[j].1);
        assert handlers[j] == before[j];
      }
      assert splits[..i + 1][..i] == splits[..i];
    }
    assert splits[..|splits|] == splits;
  }

  method FilterUnchanged(prev: map<nat, Hash>, hashes: map<nat, Hash>) returns (changed: map<nat, Hash>)
    ensures changed == Changed(prev, hashes)
    ensures forall k :: k in changed <==> k in hashes && Lookup(prev, k) != Some(hashes[k])
    ensures forall k | k in changed :: changed[k] == hashes[k]
  {
    changed := hashes;
    var todo := prev.Keys;
    while todo != {}
      invariant todo <= prev.Keys
      invariant forall k :: k in changed <==> k in hashes && (k in prev && k !in todo ==> prev[k] != hashes[k])
      invariant forall k | k in changed :: changed[k] == hashes[k]
    {
      var k :| k in todo;
      if k in changed && prev[k] == changed[k] {
        changed := changed - {k};
      }
      todo := todo - {k};
    }
  }

  lemma Associate<K, V>(a: map<K, V>, b: map<K, V>, c: map<K, V>)
    ensures (a + b) + c == a + (b + c)
  {
  }

  lemma {:induction false} BatchMidsNext(before: Content, blockSize: nat, jobs: seq<Job>, i: nat)
    requires blockSize > 0 && i < |jobs|
    ensures before + BatchMids(blockSize, jobs[..i + 1]) ==
            (before + BatchMids(blockSize, jobs[..i])) + MidUpdates(SplitJob(blockSize, jobs[i]), blockSize)
  {
    assert jobs[..i + 1][..i] == jobs[..i];
    Associate(before, BatchMids(blockSize, jobs[..i]), MidUpdates(SplitJob(blockSize, jobs[i]), blockSize));
  }

  method ModifyIrregular(
      news: NewBlocks, jobs: seq<Job>, handlers: seq<(UpdateIrregularBlock, UpdateIrregularBlock)>,
      preData: map<Hash, Block>, ghost m: Content)
    requires news.Valid() && news.contents == map[] && news.cfg.blockSize > 0 && |handlers| == |jobs|
    requires forall i | 0 <= i < |jobs| ::
               ModifiedByJob(handlers[i], preData) == IrregularUpdates(m, SplitJob(news.cfg.blockSize, jobs[i]))
    modifies news
    ensures news.Valid() && news.contents == BatchIrregular(m, news.cfg.blockSize, jobs)
  {
    for i := 0 to |jobs|
      invariant news.Valid() && news.contents == BatchIrregular(m, news.cfg.blockSize, jobs[..i])
    {
      var (first, last) := handlers[i];
      Associate(news.contents, Modified(first, preData), Modified(last, preData));
      BatchIrregularNext(m, news.cfg.blockSize, jobs, i);
      news.GetAndModifyBlockAndPublishHash(first, preData);
      news.GetAndModifyBlockAndPublishHash(last, preData);
    }
    assert jobs[..|jobs|] == jobs;
  }

  method PublishMids(news: NewBlocks, jobs: seq<Job>)
    requires news.Valid() && news.cfg.blockSize > 0
    modifies news
    ensures news.Valid() && news.contents == old(news.contents) + BatchMids(news.cfg.blockSize, jobs)
  {
    ghost var before := news.contents;
    assert before + BatchMids(news.cfg.blockSize, []) == before;
    for i := 0 to |jobs|
      invariant news.Valid() && news.contents == before + BatchMids(news.cfg.blockSize, jobs[..i])
    {
      BatchMidsNext(before, news.cfg.blockSize, jobs, i);
      news.PublishMid(SplitJob(news.cfg.blockSize, jobs[i]));
    }
    assert jobs[..|jobs|] == jobs;
  }

  function InRangesOnly(recorded: map<nat, Hash>, splits: seq<Split>): map<nat, Hash> {
    map k | k in recorded && InRanges(splits, k) :: recorded[k]
  }

  // Everything the flush computes between reading the recorded hashes and counting
  // references: the new hash of every block it changes, and the blocks to upload.
  method ComputeNewBlocks(cfg: Config, jobs: seq<Job>, recorded: map<nat, Hash>, stored: map<Hash, Block>)
    returns (assign: map<nat, Hash>, news: NewBlocks)
    requires cfg.blockSize > 0
    ensures news.Valid() && news.cfg == cfg
    ensures news.contents == BatchUpdates(Resolve(recorded, stored), cfg.blockSize, jobs)
    ensures assign == Changed(recorded, news.hashes)
    ensures forall k :: k in assign <==>
                        k in news.contents && Lookup(recorded, k) != Some(cfg.digest(news.contents[k]))
    ensures forall k | k in assign :: assign[k] == cfg.digest(news.contents[k])
    ensures forall ino :: WellFormedWrite(cfg, ino, FileTargets(ino, assign), news.blocks)
  {
    ghost var m := Resolve(recorded, stored);
    var splits := Splits(cfg.blockSize, jobs);
    var prev := InRangesOnly(recorded, splits);
    var handlers, preData := ReadOriginals(cfg, jobs, recorded, stored);
    news := new NewBlocks(cfg);
    ModifyIrregular(news, jobs, handlers, preData, m);
    PublishMids(news, jobs);
    assign := FilterUnchanged(prev, news.hashes);
    OnlyRangesMatter(cfg, m, jobs, recorded);
    AssignedIff(cfg, recorded, news.contents);
  }

  // The handlers, and the blocks that they asked for.
  method ReadOriginals(cfg: Config, jobs: seq<Job>, recorded: map<nat, Hash>, stored: map<Hash, Block>)
    returns (handlers: seq<(UpdateIrregularBlock, UpdateIrregularBlock)>, preData: map<Hash, Block>)
    requires cfg.blockSize > 0
    ensures |handlers| == |jobs|
    ensures forall i | 0 <= i < |jobs| ::
              ModifiedByJob(handlers[i], preData) ==
              IrregularUpdates(Resolve(recorded, stored), SplitJob(cfg.blockSize, jobs[i]))
    ensures forall h | h in preData :: RequestedBySome(handlers, h)
  {
    var splits := Splits(cfg.blockSize, jobs);
    var request;
    handlers, request := CollectHandlers(splits, InRangesOnly(recorded, splits));
    preData := map h | h in request && h in stored :: stored[h];
    HandlersFit(cfg, jobs, recorded, stored, handlers, request, preData);
  }

  lemma AssignedIff(cfg: Config, recorded: map<nat, Hash>, contents: Content)
    ensures var assign := Changed(recorded, HashesOf(cfg, contents));
            && (forall k :: k in assign <==> k in contents && Lookup(recorded, k) != Some(cfg.digest(contents[k])))
            && (forall k | k in assign :: assign[k] == cfg.digest(contents[k]))
  {
  }

  lemma {:induction false} HandlersFit(
      cfg: Config, jobs: seq<Job>, recorded: map<nat, Hash>, stored: map<Hash, Block>,
      handlers: seq<(UpdateIrregularBlock, UpdateIrregularBlock)>, request: set<Hash>, preData: map<Hash, Block>)
    requires cfg.blockSize > 0
    requires handlers == AllHandlers(Splits(cfg.blockSize, jobs), InRangesOnly(recorded, Splits(cfg.blockSize, jobs)))
    requires forall i | 0 <= i < |handlers| :: Requested(handlers[i].0) + Requested(handlers[i].1) <= request
    requires preData == map h | h in request && h in stored :: stored[h]
    ensures forall i | 0 <= i < |jobs| ::
              ModifiedByJob(handlers[i], preData) ==
              IrregularUpdates(Resolve(recorded, stored), SplitJob(cfg.blockSize, jobs[i]))
  {
    var splits := Splits(cfg.blockSize, jobs);
    forall i | 0 <= i < |jobs|
      ensures ModifiedByJob(handlers[i], preData) == IrregularUpdates(Resolve(recorded, stored), splits[i])
    {
      IrregularInRange(cfg.blockSize, jobs, i);
      assert handlers[i] == JobHandlers(splits[i], InRangesOnly(recorded, splits));
      HandlersSeeOldContent(splits[i], recorded, InRangesOnly(recorded, splits), stored, preData);
    }
  }

  lemma {:induction false} IrregularInRange(blockSize: nat, jobs: seq<Job>, i: nat)
    requires blockSize > 0 && i < |jobs|
    ensures var s := SplitJob(blockSize, jobs[i]);
      && (s.first != [] ==> InRanges(Splits(blockSize, jobs), s.firstIndex))
      && (s.last != [] ==> InRanges(Splits(blockSize, jobs), s.lastIndex))
  {
    var s := SplitJob(blockSize, jobs[i]);
    assert Splits(blockSize, jobs)[i] == s;
    SplitCoversRange(blockSize, jobs[i].start, jobs[i].data, s.firstIndex);
    SplitCoversRange(blockSize, jobs[i].start, jobs[i].data, s.lastIndex);
  }

  lemma {:induction false} UpdatesInRanges(m: Content, blockSize: nat, jobs: seq<Job>, k: nat)
    requires blockSize > 0 && k in BatchUpdates(m, blockSize, jobs)
    ensures InRanges(Splits(blockSize, jobs), k)
  {
    BatchKeys(m, blockSize, jobs, k);
    var i :| 0 <= i < |jobs| && TouchedBy(blockSize, jobs[i], k);
    TouchesIffInRange(blockSize, jobs[i].start, jobs[i].data, k);
    assert Splits(blockSize, jobs)[i] == SplitJob(blockSize, jobs[i]);
  }

  lemma ChangedLooksAtKeys(prev: map<nat, Hash>, recorded: map<nat, Hash>, next: map<nat, Hash>)
    requires forall k | k in next :: Lookup(prev, k) == Lookup(recorded, k)
    ensures Changed(prev, next) == Changed(recorded, next)
  {
    forall k | k in next ensures k in Changed(prev, next) <==> k in Changed(recorded, next) {
      assert Lookup(prev, k) == Lookup(recorded, k);
    }
  }

  lemma {:induction false} OnlyRangesMatter(cfg: Config, m: Content, jobs: seq<Job>, recorded: map<nat, Hash>)
    requires cfg.blockSize > 0
    ensures var next := HashesOf(cfg, BatchUpdates(m, cfg.blockSize, jobs));
            Changed(InRangesOnly(recorded, Splits(cfg.blockSize, jobs)), next) == Changed(recorded, next)
  {
    var u := BatchUpdates(m, cfg.blockSize, jobs);
    forall k | k in u { UpdatesInRanges(m, cfg.blockSize, jobs, k); }
    ChangedLooksAtKeys(InRangesOnly(recorded, Splits(cfg.blockSize, jobs)), recorded, HashesOf(cfg, u));
  }

  // ---------------------------------------------------------------------------
  // What the flush means for the file

  // The file has content `f`: its blocks are those of the dense file, and each is
  // found under the hash recorded for it.
  ghost predicate Holds(cfg: Config, hashes: map<nat, Hash>, stored: map<Hash, Block>, f: seq<Byte>)
    requires cfg.blockSize > 0
  {
    hashes.Keys == Cut(f, cfg.blockSize).Keys && Resolve(hashes, stored) == Cut(f, cfg.blockSize)
  }

  // The blocks that occur in this run: stored before, stored after, written.
  ghost predicate Occurring(contents: set<Block>, stored: map<Hash, Block>, stored': map<Hash, Block>, u: Content) {
    && (forall h | h in stored :: stored[h] in contents)
    && (forall h | h in stored' :: stored'[h] in contents)
    && (forall k | k in u :: u[k] in contents)
  }

  // Blocks that are not rewritten stay stored, rewritten ones get stored.
  ghost predicate KeepsWhatIsNeeded(cfg: Config, recorded: map<nat, Hash>, stored': map<Hash, Block>, u: Content) {
    && (forall k | k in recorded && k !in u :: recorded[k] in stored')
    && (forall k | k in u :: cfg.digest(u[k]) in stored')
  }

  lemma RecordedAt(cfg: Config, recorded: map<nat, Hash>, u: Content, k: nat)
    ensures Lookup(recorded + Changed(recorded, HashesOf(cfg, u)), k) ==
            if k in u then Some(cfg.digest(u[k])) else Lookup(recorded, k)
  {
  }

  lemma ResolvedAt(
      cfg: Config, contents: set<Block>,
      recorded: map<nat, Hash>, stored: map<Hash, Block>, stored': map<Hash, Block>, u: Content, k: nat)
    requires UnderOwnHash(cfg, stored) && UnderOwnHash(cfg, stored')
    requires NoCollision(cfg, contents) && Occurring(contents, stored, stored', u)
    requires forall k | k in recorded :: recorded[k] in stored
    requires KeepsWhatIsNeeded(cfg, recorded, stored', u)
    ensures Lookup(Resolve(recorded + Changed(recorded, HashesOf(cfg, u)), stored'), k) ==
            Lookup(Resolve(recorded, stored) + u, k)
  {
    RecordedAt(cfg, recorded, u, k);
    if k in u {
      assert stored'[cfg.digest(u[k])] == u[k];
    } else if k in recorded {
      assert stored'[recorded[k]] == stored[recorded[k]];
    }
  }

  // The unchanged blocks are left alone and the changed ones are found under their
  // new hashes, provided the blocks of this run do not collide.
  lemma RecordedChangesResolve(
      cfg: Config, contents: set<Block>,
      recorded: map<nat, Hash>, stored: map<Hash, Block>, stored': map<Hash, Block>, u: Content)
    requires UnderOwnHash(cfg, stored) && UnderOwnHash(cfg, stored')
    requires NoCollision(cfg, contents) && Occurring(contents, stored, stored', u)
    requires forall k | k in recorded :: recorded[k] in stored
    requires KeepsWhatIsNeeded(cfg, recorded, stored', u)
    ensures Resolve(recorded + Changed(recorded, HashesOf(cfg, u)), stored') == Resolve(recorded, stored) + u
  {
    forall k { ResolvedAt(cfg, contents, recorded, stored, stored', u, k); }
    SameLookups(Resolve(recorded + Changed(recorded, HashesOf(cfg, u)), stored'), Resolve(recorded, stored) + u);
  }

  // Flushing disjoint jobs turns a file with content `f` into the file with the
  // overwritten and extended content.
  lemma {:induction false} FlushKeepsHolding(
      cfg: Config, contents: set<Block>, jobs: seq<Job>, f: seq<Byte>,
      recorded: map<nat, Hash>, stored: map<Hash, Block>, stored': map<Hash, Block>)
    requires cfg.blockSize > 0 && NoGaps(f, jobs) && DisjointBlocks(cfg.blockSize, jobs)
    requires Holds(cfg, recorded, stored, f)
    requires UnderOwnHash(cfg, stored) && UnderOwnHash(cfg, stored') && NoCollision(cfg, contents)
    requires var u := BatchUpdates(Cut(f, cfg.blockSize), cfg.blockSize, jobs);
             Occurring(contents, stored, stored', u) && KeepsWhatIsNeeded(cfg, recorded, stored', u)
    ensures var u := BatchUpdates(Cut(f, cfg.blockSize), cfg.blockSize, jobs);
            Holds(cfg, recorded + Changed(recorded, HashesOf(cfg, u)), stored', FlatWrites(f, jobs))
  {
    var m := Cut(f, cfg.blockSize);
    var u := BatchUpdates(m, cfg.blockSize, jobs);
    assert forall k | k in recorded :: k in Resolve(recorded, stored);
    FlushRefinesFlat(f, cfg.blockSize, jobs);
    RecordedChangesResolve(cfg, contents, recorded, stored, stored', u);
    RecordedKeys(cfg, recorded, u, m);
  }

  lemma RecordedKeys(cfg: Config, recorded: map<nat, Hash>, u: Content, m: Content)
    requires recorded.Keys == m.Keys
    ensures (recorded + Changed(recorded, HashesOf(cfg, u))).Keys == (m + u).Keys
  {
    forall k ensures k in recorded + Changed(recorded, HashesOf(cfg, u)) <==> k in m + u {
      RecordedAt(cfg, recorded, u, k);
    }
  }

  // Every recorded block that the job merges into was found as it is stored.
  ghost predicate MergedAreFound(
      s: Split, recorded: map<nat, Hash>, stored: map<Hash, Block>, found: map<Hash, Block>) {
    forall k | k in recorded && IsMerged(s, k) :: Lookup(found, recorded[k]) == Lookup(stored, recorded[k])
  }

  lemma FoundAgrees(
      cfg: Config, s: Split, recorded: map<nat, Hash>, stored: map<Hash, Block>, found: map<Hash, Block>, f: seq<Byte>)
    requires cfg.blockSize > 0 && Holds(cfg, recorded, stored, f) && MergedAreFound(s, recorded, stored, found)
    ensures AgreeOnMerged(Resolve(recorded, found), Cut(f, cfg.blockSize), s)
  {
    forall k: nat | IsMerged(s, k) ensures Get(Resolve(recorded, found), k) == Get(Cut(f, cfg.blockSize), k) {
      if k in recorded {
        assert Lookup(found, recorded[k]) == Lookup(stored, recorded[k]);
        assert k in Resolve(recorded, stored);
      }
    }
  }

  // If this holds for all jobs, the flush computes the same blocks as on the whole file.
  lemma {:induction false} FoundIsEnough(
      cfg: Config, jobs: seq<Job>, recorded: map<nat, Hash>, stored: map<Hash, Block>, found: map<Hash, Block>,
      f: seq<Byte>)
    requires cfg.blockSize > 0 && Holds(cfg, recorded, stored, f)
    requires forall i | 0 <= i < |jobs| :: MergedAreFound(SplitJob(cfg.blockSize, jobs[i]), recorded, stored, found)
    ensures BatchUpdates(Resolve(recorded, found), cfg.blockSize, jobs) ==
            BatchUpdates(Cut(f, cfg.blockSize), cfg.blockSize, jobs)
  {
    var m, m' := Resolve(recorded, found), Cut(f, cfg.blockSize);
    forall i | 0 <= i < |jobs| ensures AgreeOnMerged(m, m', SplitJob(cfg.blockSize, jobs[i])) {
      FoundAgrees(cfg, SplitJob(cfg.blockSize, jobs[i]), recorded, stored, found, f);
    }
    BatchLooksAtMerged(m, m', cfg.blockSize, jobs);
  }

  lemma SecondByteOnly(blockSize: nat, d: Byte)
    requires blockSize >= 2
    ensures SplitWrite(blockSize, 1, [d]) == Split(0, 1, [d], 1, [], 0, [])
  {
    DivModUnique(1, blockSize, 0, 1);
    DivModUnique(0, blockSize, 0, 0);
  }

  // For instance, one byte written behind the first byte of a block that is recorded and
  // not found: the byte before it becomes zero.
  lemma {:induction false} LostBlockIsZeroFilled(cfg: Config, block: Block, d: Byte)
    requires cfg.blockSize >= 2 && block != [] && block[0] != 0
    ensures var recorded, jobs := map[0 := cfg.digest(block)], [Job(1, [d])];
            && BatchUpdates(Resolve(recorded, map[]), cfg.blockSize, jobs) == map[0 := [0, d]]
            && BatchUpdates(map[0 := block], cfg.blockSize, jobs) == map[0 := UpdateRange(block, 1, [d])]
            && UpdateRange(block, 1, [d]) != [0, d]
  {
    NothingResolves(map[0 := cfg.digest(block)]);
    OneByteJob(map[], cfg.blockSize, d);
    OneByteJob(map[0 := block], cfg.blockSize, d);
    ZeroBeforeByte(d);
    ByteBeforeIsKept(block, d);
  }

  lemma NothingResolves(recorded: map<nat, Hash>)
    ensures Resolve(recorded, map[]) == map[]
  {
  }

  lemma ByteBeforeIsKept(block: Block, d: Byte)
    requires block != [] && block[0] != 0
    ensures UpdateRange(block, 1, [d]) != [0, d]
  {
    MergeWithoutOldIff(block, 1, [d]);
    ZeroBeforeByte(d);
  }

  lemma {:induction false} OneByteJob(m: Content, blockSize: nat, d: Byte)
    requires blockSize >= 2
    ensures BatchUpdates(m, blockSize, [Job(1, [d])]) == map[0 := UpdateRange(Get(m, 0), 1, [d])]
  {
    OneJob(m, blockSize, Job(1, [d]));
    SecondByteOnly(blockSize, d);
    OnlyFirstPiece(m, blockSize, Split(0, 1, [d], 1, [], 0, []));
  }

  lemma ZeroBeforeByte(d: Byte)
    ensures UpdateRange([], 1, [d]) == [0, d]
  {
    assert Zeros(2) == [0, 0];
  }

  lemma OnlyFirstPiece(m: Content, blockSize: nat, s: Split)
    requires blockSize > 0 && s.first != [] && s.mid == [] && s.last == []
    ensures Updates(m, s, blockSize) == map[s.firstIndex := UpdateRange(Get(m, s.firstIndex), s.firstStart, s.first)]
  {
    DivModUnique(0, blockSize, 0, 0);
    assert MidUpdates(s, blockSize) == map[];
  }

  // Leaving out addresses that already have their hash changes neither the mapping
  // nor what the operation adds to any counter.
  lemma FilterChangesNothing(mapping: map<BlockAddress, Hash>, targets: Targets, kept: Targets, h: Hash)
    requires kept.Keys <= targets.Keys
    requires forall a | a in kept :: kept[a] == targets[a]
    requires forall a | a in targets && a !in kept :: a in mapping && targets[a] == Some(mapping[a])
    ensures ReplacedMapping(mapping, kept) == ReplacedMapping(mapping, targets)
    ensures |NewAddrs(kept, h)| - |DisplacedAddrs(mapping, kept, h)|
         == |NewAddrs(targets, h)| - |DisplacedAddrs(mapping, targets, h)|
  {
    SameReplacement(mapping, targets, kept);
    ReplaceTrades(mapping, targets, h);
    ReplaceTrades(mapping, kept, h);
  }

  lemma SameReplacement(mapping: map<BlockAddress, Hash>, targets: Targets, kept: Targets)
    requires kept.Keys <= targets.Keys
    requires forall a | a in kept :: kept[a] == targets[a]
    requires forall a | a in targets && a !in kept :: a in mapping && targets[a] == Some(mapping[a])
    ensures ReplacedMapping(mapping, kept) == ReplacedMapping(mapping, targets)
  {
  }
}
