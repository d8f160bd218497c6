// Runs of the whole system: the reference-counted store, and any number of clients with
// a block cache each (src/fs/fuse_to_hashfs.rs on top of src/fs/mini_transaction.rs).
//
// A client caches the blocks that it computes for a write and the answers that it got
// from the store at any moment before; entries vanish at any time.
module ClientRuns {
  import opened Types
  import opened Arith
  import opened BlockSplitter
  import opened FlatFile
  import opened RefCount
  import opened HashedFile
  import opened ReadPath
  import opened BlockCache
  import opened FileContent

  type Client = nat

  // `past` are the stored blocks as they were at any moment up to now.
  datatype World = World(sys: Sys, past: set<Blocks>, caches: map<Client, Blocks>)

  datatype WorldEvent =
    | Commit(step: Event)
    | Cached(client: Client, change: CacheEvent)

  const Start := World(Empty, {map[]}, map[])

  function CacheOf(w: World, c: Client): Blocks {
    if c in w.caches then w.caches[c] else map[]
  }

  // The server answered from the store of some moment; what it sent may be cached later.
  predicate Possible(w: World, change: CacheEvent) {
    change.Fetched? ==> change.stored in w.past
  }

  ghost function After(cfg: Config, w: World, e: WorldEvent): World {
    match e
    case Commit(step) =>
      var sys := Apply(cfg, w.sys, step);
      w.(sys := sys, past := w.past + {sys.st.blocks})
    case Cached(c, change) =>
      if Possible(w, change) then w.(caches := w.caches[c := AfterEvent(cfg, CacheOf(w, c), change)]) else w
  }

  ghost function Run(cfg: Config, events: seq<WorldEvent>): World {
    if events == [] then Start else After(cfg, Run(cfg, events[..|events| - 1]), events[|events| - 1])
  }

  // The blocks that clients have computed so far.
  function ComputedBy(e: WorldEvent): set<Block> {
    match e
    case Commit(step) => if step.BeginWrite? then step.data.Values else {}
    case Cached(_, change) => if change.Wrote? then {change.block} else {}
  }

  function Computed(events: seq<WorldEvent>): set<Block> {
    if events == [] then {} else Computed(events[..|events| - 1]) + ComputedBy(events[|events| - 1])
  }

  // ---------------------------------------------------------------------------
  // What every run keeps

  predicate Within(blocks: Blocks, contents: set<Block>) {
    forall h | h in blocks :: blocks[h] in contents
  }

  function DataOf(op: Op): Blocks {
    if op.Prepared? || op.Counted? || op.Uploaded? then op.data else map[]
  }

  // Everything stored or about to be stored was computed by a client.
  predicate StoreWithin(s: Sys, contents: set<Block>) {
    Within(s.st.blocks, contents) && forall i | 0 <= i < |s.ops| :: Within(DataOf(s.ops[i]), contents)
  }

  ghost predicate CachesOk(cfg: Config, w: World, contents: set<Block>) {
    forall c | c in w.caches :: UnderOwnHash(cfg, w.caches[c]) && Within(w.caches[c], contents)
  }

  ghost predicate PastOk(cfg: Config, w: World, contents: set<Block>) {
    && w.sys.st.blocks in w.past
    && forall blocks | blocks in w.past :: UnderOwnHash(cfg, blocks) && Within(blocks, contents)
  }

  ghost predicate WorldOk(cfg: Config, w: World, contents: set<Block>) {
    Inv(cfg, w.sys) && StoreWithin(w.sys, contents) && CachesOk(cfg, w, contents) && PastOk(cfg, w, contents)
  }

  lemma AdvanceStaysWithin(cfg: Config, s: Sys, i: nat, contents: set<Block>)
    requires OpsOk(cfg, s) && i < |s.ops| && StoreWithin(s, contents)
    ensures StoreWithin(Advanced(cfg, s, i), contents)
  {
    var s' := Advanced(cfg, s, i);
    if s.ops[i].Counted? {
      forall h | h in s.ops[i].owed ensures h in s.ops[i].data { IncrementsCount(s.ops[i].targets, h); }
      assert Within(DataOf(s.ops[i]), contents);
    }
    forall j | 0 <= j < |s'.ops| ensures Within(DataOf(s'.ops[j]), contents) {
      assert Within(DataOf(s.ops[j]), contents);
    }
  }

  lemma CommitStaysWithin(cfg: Config, s: Sys, step: Event, contents: set<Block>)
    requires OpsOk(cfg, s) && StoreWithin(s, contents)
    ensures StoreWithin(Apply(cfg, s, step), contents + ComputedBy(Commit(step)))
  {
    var s', more := Apply(cfg, s, step), contents + ComputedBy(Commit(step));
    if step.Advance? && step.op < |s.ops| { AdvanceStaysWithin(cfg, s, step.op, contents); }
    forall j | 0 <= j < |s'.ops| ensures Within(DataOf(s'.ops[j]), more) {
      if step.BeginWrite? && j >= |s.ops| {
        assert forall h | h in step.data :: step.data[h] in step.data.Values;
      } else if !step.Advance? && j < |s.ops| {
        assert Within(DataOf(s.ops[j]), contents);
      }
    }
  }

  lemma CachedStaysOk(cfg: Config, w: World, c: Client, change: CacheEvent, contents: set<Block>)
    requires WorldOk(cfg, w, contents)
    ensures CachesOk(cfg, After(cfg, w, Cached(c, change)), contents + ComputedBy(Cached(c, change)))
  {
  }

  lemma AfterIsOk(cfg: Config, w: World, e: WorldEvent, contents: set<Block>)
    requires WorldOk(cfg, w, contents)
    ensures WorldOk(cfg, After(cfg, w, e), contents + ComputedBy(e))
  {
    match e
    case Commit(step) =>
      ApplyKeepsInv(cfg, w.sys, step);
      CommitStaysWithin(cfg, w.sys, step, contents);
    case Cached(c, change) =>
      CachedStaysOk(cfg, w, c, change, contents);
      forall i | 0 <= i < |w.sys.ops| ensures Within(DataOf(w.sys.ops[i]), contents + ComputedBy(e)) {
        assert Within(DataOf(w.sys.ops[i]), contents);
      }
  }

  // In every run every client's cache and the store hold only blocks that clients
  // computed, each under its own hash.
  lemma {:induction false} RunIsOk(cfg: Config, events: seq<WorldEvent>)
    ensures WorldOk(cfg, Run(cfg, events), Computed(events))
  {
    if events == [] {
      EmptyIsOk(cfg);
    } else {
      var n := |events| - 1;
      RunIsOk(cfg, events[..n]);
      AfterIsOk(cfg, Run(cfg, events[..n]), events[n], Computed(events[..n]));
    }
  }

  lemma {:induction false} ComputedOnlyGrows(events: seq<WorldEvent>, k: nat)
    requires k <= |events|
    ensures Computed(events[..k]) <= Computed(events)
  {
    if k < |events| {
      var front := events[..|events| - 1];
      ComputedOnlyGrows(front, k);
      assert front[..k] == events[..k];
    } else {
      assert events[..k] == events;
    }
  }

  lemma HonestWithin(cfg: Config, stored: Blocks, cache: Blocks, contents: set<Block>)
    requires UnderOwnHash(cfg, stored) && UnderOwnHash(cfg, cache) && NoCollision(cfg, contents)
    requires Within(stored, contents) && Within(cache, contents)
    ensures Honest(cfg, stored, cache)
  {
    assert stored.Values + cache.Values <= contents;
  }

  // What a client found in its cache at one time and what the store has later fit
  // together.
  lemma {:induction false} AlwaysHonest(cfg: Config, events: seq<WorldEvent>, k: nat, c: Client)
    requires k <= |events| && NoCollision(cfg, Computed(events))
    ensures Honest(cfg, Run(cfg, events).sys.st.blocks, CacheOf(Run(cfg, events[..k]), c))
  {
    RunIsOk(cfg, events);
    RunIsOk(cfg, events[..k]);
    ComputedOnlyGrows(events, k);
    HonestWithin(cfg, Run(cfg, events).sys.st.blocks, CacheOf(Run(cfg, events[..k]), c), Computed(events));
  }

  // Whatever the server answered at any moment can still be cached now.
  lemma {:induction false} AnswersCanBeCached(
      cfg: Config, events: seq<WorldEvent>, k: nat, c: Client, hashes: set<Hash>)
    requires k <= |events|
    ensures var stored := Run(cfg, events[..k]).sys.st.blocks;
            CacheOf(Run(cfg, events + [Cached(c, Fetched(stored, hashes))]), c) ==
            CacheOf(Run(cfg, events), c) + Found(stored, hashes)
  {
    var e := Cached(c, Fetched(Run(cfg, events[..k]).sys.st.blocks, hashes));
    PastKeepsAll(cfg, events, k);
    assert (events + [e])[..|events|] == events;
  }

  lemma {:induction false} PastKeepsAll(cfg: Config, events: seq<WorldEvent>, k: nat)
    requires k <= |events|
    ensures Run(cfg, events[..k]).sys.st.blocks in Run(cfg, events).past
  {
    RunIsOk(cfg, events);
    if k < |events| {
      var front := events[..|events| - 1];
      PastKeepsAll(cfg, front, k);
      assert front[..k] == events[..k];
    } else {
      assert events[..k] == events;
    }
  }

  // ---------------------------------------------------------------------------
  // Transparency in every run

  // Whenever a client looked into its cache, and whenever the store answered after that,
  // the fetch succeeds, returns every block under its own hash, and returns the store's
  // bytes for every stored hash.
  lemma {:induction false} EveryFetchIsHonest(
      cfg: Config, events: seq<WorldEvent>, k: nat, c: Client, hits: set<Hash>, hashes: set<Hash>, validate: bool)
    requires k <= |events| && NoCollision(cfg, Computed(events))
    requires hits <= hashes * CacheOf(Run(cfg, events[..k]), c).Keys
    ensures var cache, stored := CacheOf(Run(cfg, events[..k]), c), Run(cfg, events).sys.st.blocks;
            var r := FetchResult(cfg, cache, hits, hashes, stored, validate);
            && r.Some? && UnderOwnHash(cfg, r.value)
            && (forall h | h in hashes && h in stored :: h in r.value && r.value[h] == stored[h])
  {
    var cache, stored := CacheOf(Run(cfg, events[..k]), c), Run(cfg, events).sys.st.blocks;
    AlwaysHonest(cfg, events, k, c);
    HonestFetch(cfg, cache, hits, hashes, stored, validate);
  }

  lemma SameUnderHash(cfg: Config, a: Blocks, b: Blocks, contents: set<Block>, h: Hash)
    requires UnderOwnHash(cfg, a) && UnderOwnHash(cfg, b) && NoCollision(cfg, contents)
    requires Within(a, contents) && Within(b, contents) && h in a && h in b
    ensures a[h] == b[h]
  {
  }

  // At every moment, store and caches hold blocks of the whole run.
  lemma {:induction false} PrefixIsOk(cfg: Config, events: seq<WorldEvent>, k: nat, c: Client)
    requires k <= |events|
    ensures var w := Run(cfg, events[..k]);
            && UnderOwnHash(cfg, w.sys.st.blocks) && Within(w.sys.st.blocks, Computed(events))
            && UnderOwnHash(cfg, CacheOf(w, c)) && Within(CacheOf(w, c), Computed(events))
  {
    RunIsOk(cfg, events[..k]);
    ComputedOnlyGrows(events, k);
  }

  // A fetch returns what was cached or is stored now, and for every hash the bytes that
  // any other moment's store has for it.
  lemma {:induction false} FetchAgrees(
      cfg: Config, events: seq<WorldEvent>, j: nat, k: nat, c: Client, hits: set<Hash>, hashes: set<Hash>,
      validate: bool)
    requires j <= |events| && k <= |events| && NoCollision(cfg, Computed(events))
    requires hits <= hashes * CacheOf(Run(cfg, events[..k]), c).Keys
    ensures var cache, stored := CacheOf(Run(cfg, events[..k]), c), Run(cfg, events).sys.st.blocks;
            var r := FetchResult(cfg, cache, hits, hashes, stored, validate);
            && r.Some? && r.value.Keys == hits + hashes * stored.Keys
            && forall h | h in r.value && h in Run(cfg, events[..j]).sys.st.blocks ::
                 r.value[h] == Run(cfg, events[..j]).sys.st.blocks[h]
  {
    var cache, stored := CacheOf(Run(cfg, events[..k]), c), Run(cfg, events).sys.st.blocks;
    var earlier := Run(cfg, events[..j]).sys.st.blocks;
    EveryFetchIsHonest(cfg, events, k, c, hits, hashes, validate);
    PrefixIsOk(cfg, events, |events|, c);
    assert events[..|events|] == events;
    PrefixIsOk(cfg, events, j, c);
    PrefixIsOk(cfg, events, k, c);
    var found := FetchResult(cfg, cache, hits, hashes, stored, validate).value;
    forall h | h in found && h in earlier ensures found[h] == earlier[h] {
      if h in stored {
        SameUnderHash(cfg, stored, earlier, Computed(events), h);
      } else {
        SameUnderHash(cfg, cache, earlier, Computed(events), h);
      }
    }
  }

  // Every block of the range was found in the cache or is stored when the store answers.
  predicate Available(hashes: map<nat, Hash>, hits: set<Hash>, stored: Blocks) {
    forall h | h in hashes.Values :: h in hits || h in stored
  }

  // A client learns the hashes of a file at one moment, looks into its cache at another,
  // and asks the store for the rest at a third.  If every block of the range is available
  // it reads the slice of the content that the file had when the hashes were learnt,
  // whatever was written, reclaimed, cached or evicted in between.
  lemma {:induction false} EveryReadReturnsSlice(
      cfg: Config, events: seq<WorldEvent>, j: nat, k: nat, c: Client, hits: set<Hash>, recorded: map<nat, Hash>,
      validate: bool, f: seq<Byte>, start: nat, size: nat)
    requires cfg.blockSize > 0 && j <= |events| && k <= |events| && NoCollision(cfg, Computed(events))
    requires Holds(cfg, recorded, Run(cfg, events[..j]).sys.st.blocks, f)
    requires hits <= ServerRange(cfg.blockSize, recorded, start, size).Values * CacheOf(Run(cfg, events[..k]), c).Keys
    requires Available(ServerRange(cfg.blockSize, recorded, start, size), hits, Run(cfg, events).sys.st.blocks)
    ensures ReadThrough(cfg, CacheOf(Run(cfg, events[..k]), c), hits, recorded, Run(cfg, events).sys.st.blocks,
                        validate, start, size) == Some(Piece(f, start, size))
  {
    var hashes := ServerRange(cfg.blockSize, recorded, start, size);
    var cache, stored := CacheOf(Run(cfg, events[..k]), c), Run(cfg, events).sys.st.blocks;
    FetchAgrees(cfg, events, j, k, c, hits, hashes.Values, validate);
    var found := FetchResult(cfg, cache, hits, hashes.Values, stored, validate).value;
    CachedReadIsSlice(cfg, recorded, Run(cfg, events[..j]).sys.st.blocks, found, f, start, size);
  }

  lemma RangeWasStored(
      cfg: Config, recorded: map<nat, Hash>, stored: Blocks, f: seq<Byte>, start: nat, size: nat, h: Hash)
    requires cfg.blockSize > 0 && Holds(cfg, recorded, stored, f)
    requires h in ServerRange(cfg.blockSize, recorded, start, size).Values
    ensures h in stored
  {
    var k :| k in recorded && recorded[k] == h;
    assert k in Resolve(recorded, stored);
  }

  // For a read that starts at the beginning of a block the condition is exact: without
  // one of the blocks it comes out short.
  lemma {:induction false} EveryAlignedReadIff(
      cfg: Config, events: seq<WorldEvent>, j: nat, k: nat, c: Client, hits: set<Hash>, recorded: map<nat, Hash>,
      validate: bool, f: seq<Byte>, start: nat, size: nat)
    requires cfg.blockSize > 0 && j <= |events| && k <= |events| && NoCollision(cfg, Computed(events))
    requires Holds(cfg, recorded, Run(cfg, events[..j]).sys.st.blocks, f) && start % cfg.blockSize == 0
    requires hits <= ServerRange(cfg.blockSize, recorded, start, size).Values * CacheOf(Run(cfg, events[..k]), c).Keys
    ensures ReadThrough(cfg, CacheOf(Run(cfg, events[..k]), c), hits, recorded, Run(cfg, events).sys.st.blocks,
                        validate, start, size) == Some(Piece(f, start, size)) <==>
            Available(ServerRange(cfg.blockSize, recorded, start, size), hits, Run(cfg, events).sys.st.blocks)
  {
    var hashes, earlier := ServerRange(cfg.blockSize, recorded, start, size), Run(cfg, events[..j]).sys.st.blocks;
    var cache, stored := CacheOf(Run(cfg, events[..k]), c), Run(cfg, events).sys.st.blocks;
    FetchAgrees(cfg, events, j, k, c, hits, hashes.Values, validate);
    var found := FetchResult(cfg, cache, hits, hashes.Values, stored, validate).value;
    forall h | h in hashes.Values ensures h in earlier { RangeWasStored(cfg, recorded, earlier, f, start, size, h); }
    AlignedReadIsSliceIff(cfg, recorded, earlier, found, f, start, size);
    assert hashes.Values <= found.Keys <==> Available(hashes, hits, stored);
  }

  // ---------------------------------------------------------------------------
  // A block reclaimed between the two requests of a read

  function Commits(steps: seq<Event>): (events: seq<WorldEvent>)
    ensures |events| == |steps|
  {
    if steps == [] then [] else Commits(steps[..|steps| - 1]) + [Commit(steps[|steps| - 1])]
  }

  // A run of the store alone.
  lemma {:induction false} CommitsRun(cfg: Config, steps: seq<Event>)
    ensures var w := Run(cfg, Commits(steps)); w.sys == Exec(cfg, Empty, steps) && w.caches == map[]
  {
    if steps != [] { CommitsRun(cfg, steps[..|steps| - 1]); }
  }

  lemma {:induction false} CommitsPrefix(steps: seq<Event>, later: seq<Event>)
    ensures Commits(steps + later)[..|steps|] == Commits(steps)
  {
    if later == [] {
      assert steps + later == steps;
    } else {
      var front := later[..|later| - 1];
      CommitsPrefix(steps, front);
      assert (steps + later)[..|steps + later| - 1] == steps + front;
    }
  }

  function TwoBlocks(cfg: Config, a: Block, b: Block): map<nat, Hash> {
    map[0 := cfg.digest(a), 1 := cfg.digest(b)]
  }

  // The hashes that the store needs are those of its only file.
  lemma StoredIsRecorded(cfg: Config, s: Sys, h: Hash)
    requires Inv(cfg, s) && Quiescent(s) && forall a | a in s.st.mapping :: a.ino == 0
    ensures h in s.st.blocks <==> h in FileHashes(s.st.mapping, 0).Values
  {
    QuiescentCounts(cfg, s, h);
    if a :| a in s.st.mapping && s.st.mapping[a] == h {
      FileHashAt(s.st.mapping, 0, a.index);
      assert FileHashes(s.st.mapping, 0)[a.index] == h;
      StoredIffNotOwed(cfg, s, a);
    }
    if h in s.st.blocks {
      var a :| a in AddrsOf(s.st.mapping, h);
    }
    if h in FileHashes(s.st.mapping, 0).Values {
      var k :| k in FileHashes(s.st.mapping, 0) && FileHashes(s.st.mapping, 0)[k] == h;
      FileHashAt(s.st.mapping, 0, k);
    }
  }

  // A store with one file, nothing in flight.
  ghost predicate OneFile(cfg: Config, s: Sys, n: nat, hashes: map<nat, Hash>) {
    && Inv(cfg, s) && Quiescent(s) && |s.ops| == n && 0 < s.nextIno && 0 in s.st.sizes
    && (forall a | a in s.st.mapping :: a.ino == 0) && FileHashes(s.st.mapping, 0) == hashes
  }

  // The blocks that are written are among these.
  predicate WritesOnly(steps: seq<Event>, contents: set<Block>) {
    forall e | e in steps && e.BeginWrite? :: e.data.Values <= contents
  }

  lemma {:induction false} CreatesFile(cfg: Config) returns (steps: seq<Event>)
    ensures OneFile(cfg, Exec(cfg, Empty, steps), 0, map[]) && WritesOnly(steps, {})
  {
    steps := [CreateFile];
    ExecNext(cfg, Empty, [], CreateFile);
    assert [] + [CreateFile] == [CreateFile];
    EmptyIsOk(cfg);
    ApplyKeepsInv(cfg, Empty, CreateFile);
  }

  lemma WholeWriteOnly(n: nat, ino: Ino, targets: Targets, data: map<Hash, Block>)
    ensures WritesOnly(WholeWrite(n, ino, targets, data), data.Values)
  {
  }

  // Blocks that one client writes, each under its hash.
  ghost predicate Publishable(cfg: Config, assign: map<nat, Hash>, data: map<Hash, Block>) {
    (forall k | k in assign :: assign[k] in data) && (forall h | h in data :: cfg.digest(data[h]) == h && data[h] != [])
  }

  lemma {:induction false} WriteKeepsOneFile(
      cfg: Config, s: Sys, n: nat, hashes: map<nat, Hash>, assign: map<nat, Hash>, data: map<Hash, Block>)
    requires OneFile(cfg, s, n, hashes) && Publishable(cfg, assign, data)
    ensures OneFile(cfg, Exec(cfg, s, WholeWrite(n, 0, FileTargets(0, assign), data)), n + 1, hashes + assign)
  {
    FileTargetsAssign(0, assign);
    WriteRunsAlone(cfg, s, 0, FileTargets(0, assign), data);
    ExecKeepsInv(cfg, s, WholeWrite(n, 0, FileTargets(0, assign), data));
    FileHashesAfterReplace(s.st.mapping, FileTargets(0, assign), 0, assign);
  }

  // One client's write after the steps before.
  lemma {:induction false} WritesFile(
      cfg: Config, steps: seq<Event>, n: nat, hashes: map<nat, Hash>, assign: map<nat, Hash>, data: map<Hash, Block>,
      contents: set<Block>)
    returns (later: seq<Event>)
    requires OneFile(cfg, Exec(cfg, Empty, steps), n, hashes) && WritesOnly(steps, contents)
    requires Publishable(cfg, assign, data) && data.Values <= contents
    ensures OneFile(cfg, Exec(cfg, Empty, steps + later), n + 1, hashes + assign) && WritesOnly(steps + later, contents)
  {
    later := WholeWrite(n, 0, FileTargets(0, assign), data);
    WriteKeepsOneFile(cfg, Exec(cfg, Empty, steps), n, hashes, assign, data);
    ExecInTurn(cfg, Empty, steps, later);
    WholeWriteOnly(n, 0, FileTargets(0, assign), data);
  }

  lemma {:induction false} ComputedByCommits(steps: seq<Event>, contents: set<Block>)
    requires WritesOnly(steps, contents)
    ensures Computed(Commits(steps)) <= contents
  {
    if steps != [] {
      var n := |steps| - 1;
      assert steps[n] in steps;
      ComputedByCommits(steps[..n], contents);
    }
  }

  lemma CutInTwo(a: Block, c: Block)
    requires |a| == |c| > 0
    ensures Cut(a + c, |a|) == map[0 := a, 1 := c]
  {
    var d := |a|;
    DivModUnique(|a + c| + d - 1, d, 2, d - 1);
    assert CeilDiv(|a + c|, d) == 2;
    assert Chunk(a + c, 0, d) == a && Chunk(a + c, d, d) == c;
  }

  // The file holds both blocks, each under its hash.
  lemma TwoBlocksHold(cfg: Config, a: Block, c: Block, stored: Blocks)
    requires |a| == |c| == cfg.blockSize > 0
    requires Lookup(stored, cfg.digest(a)) == Some(a) && Lookup(stored, cfg.digest(c)) == Some(c)
    ensures Holds(cfg, TwoBlocks(cfg, a, c), stored, a + c)
  {
    CutInTwo(a, c);
    assert Resolve(TwoBlocks(cfg, a, c), stored) == map[0 := a, 1 := c];
  }

  // A read of two bytes, the last of the first block and the first of the second, when
  // the first block is gone.
  lemma ReadsPastLostBlock(cfg: Config, a: Block, c: Block, found: Blocks)
    requires |c| == cfg.blockSize >= 2
    requires cfg.digest(a) !in found && Lookup(found, cfg.digest(c)) == Some(c)
    ensures var start := cfg.blockSize - 1;
            var hashes := ServerRange(cfg.blockSize, TwoBlocks(cfg, a, c), start, 2);
            hashes == TwoBlocks(cfg, a, c) && ReadFound(cfg.blockSize, hashes, found, start, 2) == c[..2]
  {
    var d, start, recorded := cfg.blockSize, cfg.blockSize - 1, TwoBlocks(cfg, a, c);
    DivModUnique(start, d, 0, start);
    DivModUnique(start + 2 + d - 1, d, 2, 0);
    DivModUnique(1, d, 0, 1);
    var rs := SplitRead(d, start, 2);
    var hashes := ServerRange(d, recorded, start, 2);
    assert hashes == recorded;
    var m := Resolve(hashes, found);
    assert Get(m, 0) == [] && Get(m, 1) == c;
    assert rs.endIndex - rs.firstIndex == 2;
    ReadUpToStep(rs, m, 0);
    assert ReadUpTo(rs, m, 1) == [];
    ReadUpToStep(rs, m, 1);
  }

  lemma TwoBlocksFacts(cfg: Config, a: Block, b: Block, c: Block)
    ensures TwoBlocks(cfg, a, c).Values == {cfg.digest(a), cfg.digest(c)}
    ensures map[] + TwoBlocks(cfg, a, c) == TwoBlocks(cfg, a, c)
    ensures TwoBlocks(cfg, a, c) + map[0 := cfg.digest(b)] == TwoBlocks(cfg, b, c)
  {
    var r := TwoBlocks(cfg, a, c);
    assert r[0] in r.Values && r[1] in r.Values;
  }

  lemma TwoBlocksPublishable(cfg: Config, a: Block, c: Block)
    requires a != [] && c != []
    ensures Publishable(cfg, TwoBlocks(cfg, a, c), map[cfg.digest(a) := a] + map[cfg.digest(c) := c])
    ensures (map[cfg.digest(a) := a] + map[cfg.digest(c) := c]).Values <= {a, c}
  {
  }

  // A file of two blocks is written.
  lemma {:induction false} WriteTwoBlocks(
      cfg: Config, a: Block, c: Block, contents: set<Block>)
    returns (steps: seq<Event>)
    requires a != [] && c != [] && {a, c} <= contents
    ensures OneFile(cfg, Exec(cfg, Empty, steps), 1, TwoBlocks(cfg, a, c)) && WritesOnly(steps, contents)
  {
    var creation := CreatesFile(cfg);
    var data := map[cfg.digest(a) := a] + map[cfg.digest(c) := c];
    TwoBlocksPublishable(cfg, a, c);
    TwoBlocksFacts(cfg, a, a, c);
    var first := WritesFile(cfg, creation, 0, map[], TwoBlocks(cfg, a, c), data, contents);
    steps := creation + first;
  }

  // Its first block is overwritten.
  lemma {:induction false} OverwriteFirst(
      cfg: Config, steps: seq<Event>, a: Block, b: Block, c: Block, contents: set<Block>)
    returns (later: seq<Event>)
    requires OneFile(cfg, Exec(cfg, Empty, steps), 1, TwoBlocks(cfg, a, c)) && WritesOnly(steps, contents)
    requires b != [] && b in contents
    ensures OneFile(cfg, Exec(cfg, Empty, steps + later), 2, TwoBlocks(cfg, b, c))
    ensures WritesOnly(steps + later, contents)
  {
    TwoBlocksFacts(cfg, a, b, c);
    later := WritesFile(
      cfg, steps, 1, TwoBlocks(cfg, a, c), map[0 := cfg.digest(b)], map[cfg.digest(b) := b], contents);
  }

  // A block of the run is stored exactly when the file records its hash.
  lemma {:induction false} HoldsExactly(
      cfg: Config, steps: seq<Event>, contents: set<Block>, n: nat, hashes: map<nat, Hash>, block: Block)
    requires OneFile(cfg, Exec(cfg, Empty, steps), n, hashes)
    requires WritesOnly(steps, contents) && NoCollision(cfg, contents) && block in contents
    ensures Lookup(Run(cfg, Commits(steps)).sys.st.blocks, cfg.digest(block)) ==
            if cfg.digest(block) in hashes.Values then Some(block) else None
  {
    ComputedByCommits(steps, contents);
    CommitsRun(cfg, steps);
    RunIsOk(cfg, Commits(steps));
    StoredIsRecorded(cfg, Exec(cfg, Empty, steps), cfg.digest(block));
  }

  // Without a block the condition on availability fails, and so does the read: a client
  // that learnt the hashes before the overwrite and asks for the blocks after it gets two
  // bytes of the second block for the last byte of the first and the first of the second.
  lemma {:induction false} ReclaimedBetweenRequests(
      cfg: Config, a: Block, b: Block, c: Block, client: Client, validate: bool)
    returns (events: seq<WorldEvent>, j: nat)
    requires |a| == |c| == cfg.blockSize >= 2 && b != [] && NoCollision(cfg, {a, b, c})
    requires cfg.digest(a) != cfg.digest(b) && cfg.digest(a) != cfg.digest(c)
    ensures j <= |events| && NoCollision(cfg, Computed(events))
    ensures var recorded, start := TwoBlocks(cfg, a, c), cfg.blockSize - 1;
            && Holds(cfg, recorded, Run(cfg, events[..j]).sys.st.blocks, a + c)
            && ReadThrough(cfg, CacheOf(Run(cfg, events), client), {}, recorded, Run(cfg, events).sys.st.blocks,
                           validate, start, 2) == Some(c[..2])
            && Piece(a + c, start, 2) == [a[start], c[0]]
  {
    events, j := ReclaimingRun(cfg, a, b, c, {a, b, c});
    ReadsAfterReclaim(cfg, events, a, c, client, validate);
    AcrossTheBorder(a, c);
  }

  lemma {:induction false} ReclaimingRun(cfg: Config, a: Block, b: Block, c: Block, contents: set<Block>)
    returns (events: seq<WorldEvent>, j: nat)
    requires |a| == |c| == cfg.blockSize > 0 && b != []
    requires NoCollision(cfg, contents) && a in contents && b in contents && c in contents
    requires cfg.digest(a) != cfg.digest(b) && cfg.digest(a) != cfg.digest(c)
    ensures j <= |events| && NoCollision(cfg, Computed(events))
    ensures Holds(cfg, TwoBlocks(cfg, a, c), Run(cfg, events[..j]).sys.st.blocks, a + c)
    ensures cfg.digest(a) !in Run(cfg, events).sys.st.blocks
    ensures Lookup(Run(cfg, events).sys.st.blocks, cfg.digest(c)) == Some(c)
  {
    var steps := WriteTwoBlocks(cfg, a, c, contents);
    var later := OverwriteFirst(cfg, steps, a, b, c, contents);
    events, j := Commits(steps + later), |steps|;
    CommitsPrefix(steps, later);
    ComputedByCommits(steps + later, contents);
    FileWasThere(cfg, steps, contents, a, c);
    FirstIsGone(cfg, steps + later, contents, a, b, c);
  }

  lemma AcrossTheBorder(a: Block, c: Block)
    requires |a| == |c| >= 2
    ensures var start := |a| - 1; Piece(a + c, start, 2) == [a[start], c[0]]
  {
    var start := |a| - 1;
    assert (a + c)[start..start + 2] == [(a + c)[start], (a + c)[start + 1]];
  }

  lemma {:induction false} FirstIsGone(
      cfg: Config, steps: seq<Event>, contents: set<Block>, a: Block, b: Block, c: Block)
    requires OneFile(cfg, Exec(cfg, Empty, steps), 2, TwoBlocks(cfg, b, c)) && WritesOnly(steps, contents)
    requires NoCollision(cfg, contents) && a in contents && c in contents
    requires cfg.digest(a) != cfg.digest(b) && cfg.digest(a) != cfg.digest(c)
    ensures cfg.digest(a) !in Run(cfg, Commits(steps)).sys.st.blocks
    ensures Lookup(Run(cfg, Commits(steps)).sys.st.blocks, cfg.digest(c)) == Some(c)
  {
    TwoBlocksFacts(cfg, b, b, c);
    HoldsExactly(cfg, steps, contents, 2, TwoBlocks(cfg, b, c), a);
    HoldsExactly(cfg, steps, contents, 2, TwoBlocks(cfg, b, c), c);
  }

  lemma {:induction false} FileWasThere(cfg: Config, steps: seq<Event>, contents: set<Block>, a: Block, c: Block)
    requires |a| == |c| == cfg.blockSize > 0 && NoCollision(cfg, contents) && {a, c} <= contents
    requires OneFile(cfg, Exec(cfg, Empty, steps), 1, TwoBlocks(cfg, a, c)) && WritesOnly(steps, contents)
    ensures Holds(cfg, TwoBlocks(cfg, a, c), Run(cfg, Commits(steps)).sys.st.blocks, a + c)
  {
    TwoBlocksFacts(cfg, a, a, c);
    HoldsExactly(cfg, steps, contents, 1, TwoBlocks(cfg, a, c), a);
    HoldsExactly(cfg, steps, contents, 1, TwoBlocks(cfg, a, c), c);
    TwoBlocksHold(cfg, a, c, Run(cfg, Commits(steps)).sys.st.blocks);
  }

  lemma {:induction false} ReadsAfterReclaim(
      cfg: Config, events: seq<WorldEvent>, a: Block, c: Block, client: Client, validate: bool)
    requires |a| == |c| == cfg.blockSize >= 2 && NoCollision(cfg, Computed(events))
    requires cfg.digest(a) !in Run(cfg, events).sys.st.blocks
    requires Lookup(Run(cfg, events).sys.st.blocks, cfg.digest(c)) == Some(c)
    ensures ReadThrough(cfg, CacheOf(Run(cfg, events), client), {}, TwoBlocks(cfg, a, c),
                        Run(cfg, events).sys.st.blocks, validate, cfg.blockSize - 1, 2) == Some(c[..2])
  {
    var recorded := TwoBlocks(cfg, a, c);
    var hashes, stored := recorded.Values, Run(cfg, events).sys.st.blocks;
    assert events[..|events|] == events;
    EveryFetchIsHonest(cfg, events, |events|, client, {}, hashes, validate);
    var found := Found(stored, hashes);
    assert hashes - {} == hashes && Found(CacheOf(Run(cfg, events), client), {}) + found == found;
    assert recorded[1] in hashes;
    ReadsPastLostBlock(cfg, a, c, found);
  }

  // ---------------------------------------------------------------------------
  // The caches of a run are caches

  // What happened to one client's cache.
  ghost function ChangesOf(cfg: Config, events: seq<WorldEvent>, c: Client): seq<CacheEvent> {
    if events == [] then []
    else
      var n := |events| - 1;
      var before, e := ChangesOf(cfg, events[..n], c), events[n];
      if e.Cached? && e.client == c && Possible(Run(cfg, events[..n]), e.change) then before + [e.change] else before
  }

  // A client's cache in a run is what its own history makes of an empty cache, which is
  // what the object's history says of the object.
  lemma {:induction false} CacheHasHistory(cfg: Config, events: seq<WorldEvent>, c: Client)
    ensures CacheOf(Run(cfg, events), c) == CacheAfter(cfg, ChangesOf(cfg, events, c))
  {
    if events != [] {
      var n := |events| - 1;
      CacheHasHistory(cfg, events[..n], c);
      if events[n].Cached? { CacheAfterNext(cfg, ChangesOf(cfg, events[..n], c), events[n].change); }
    }
  }
}
