// The client's block cache (`hb_get_block_data_by_hashes_cached`, the cache inserts of
// `hb_write_data`, and `hb_read_data`, all in src/fs/fuse_to_hashfs.rs).
module BlockCache {
  import opened Types
  import opened Arith
  import opened BlockSplitter
  import opened FlatFile
  import opened RefCount
  import opened HashedFile
  import opened ReadPath

  type Blocks = map<Hash, Block>

  // The blocks that the server sends for the requested hashes.
  function Found(stored: Blocks, hashes: set<Hash>): Blocks {
    map h | h in hashes && h in stored :: stored[h]
  }

  predicate SomeMismatch(cfg: Config, blocks: Blocks) {
    exists h | h in blocks :: cfg.digest(blocks[h]) != h
  }

  // What one fetch returns, given which of the hashes it found in the cache.
  function FetchResult(cfg: Config, cache: Blocks, hits: set<Hash>, hashes: set<Hash>, stored: Blocks, validate: bool)
    : Option<Blocks>
  {
    var fetched := Found(stored, hashes - hits);
    if validate && SomeMismatch(cfg, fetched) then None else Some(Found(cache, hits) + fetched)
  }

  // ---------------------------------------------------------------------------
  // What can happen to a cache

  datatype CacheEvent =
    | Wrote(block: Block)
    | Fetched(stored: Blocks, uncached: set<Hash>)
    | Evicted(victims: set<Hash>)

  function AfterEvent(cfg: Config, cache: Blocks, e: CacheEvent): Blocks {
    match e
    case Wrote(block) => cache[cfg.digest(block) := block]
    case Fetched(stored, uncached) => cache + Found(stored, uncached)
    case Evicted(victims) => cache - victims
  }

  function CacheAfter(cfg: Config, events: seq<CacheEvent>): Blocks {
    if events == [] then map[] else AfterEvent(cfg, CacheAfter(cfg, events[..|events| - 1]), events[|events| - 1])
  }

  lemma {:induction false} CacheAfterNext(cfg: Config, events: seq<CacheEvent>, e: CacheEvent)
    ensures CacheAfter(cfg, events + [e]) == AfterEvent(cfg, CacheAfter(cfg, events), e)
  {
    assert (events + [e])[..|events|] == events;
  }

  // Since then the cache only dropped entries.
  predicate OnlyEvicted(before: seq<CacheEvent>, after: seq<CacheEvent>) {
    before <= after && forall i | |before| <= i < |after| :: after[i].Evicted?
  }

  // Since then the cache only dropped entries and took up answers of this server for
  // these hashes.
  predicate OnlyFetched(before: seq<CacheEvent>, after: seq<CacheEvent>, stored: Blocks, uncached: set<Hash>) {
    && before <= after
    && forall i | |before| <= i < |after| ::
         after[i].Evicted? || (after[i].Fetched? && after[i].stored == stored && after[i].uncached <= uncached)
  }

  // Since then the cache only dropped entries and took up these blocks.
  predicate OnlyWrote(before: seq<CacheEvent>, after: seq<CacheEvent>, news: set<Block>) {
    && before <= after
    && forall i | |before| <= i < |after| :: after[i].Evicted? || (after[i].Wrote? && after[i].block in news)
  }

  // Since then the entry was dropped at some time.
  ghost predicate DroppedSince(before: seq<CacheEvent>, after: seq<CacheEvent>, h: Hash) {
    exists i :: |before| <= i < |after| && after[i].Evicted? && h in after[i].victims
  }

  // Since then every one of these blocks was put into the cache.
  ghost predicate AllFetched(before: seq<CacheEvent>, after: seq<CacheEvent>, stored: Blocks, hashes: set<Hash>) {
    forall h | h in hashes :: PutSince(before, after, Fetched(stored, {h}))
  }

  ghost predicate AllWrote(before: seq<CacheEvent>, after: seq<CacheEvent>, news: Blocks, hashes: set<Hash>) {
    forall h | h in hashes && h in news :: PutSince(before, after, Wrote(news[h]))
  }

  ghost predicate PutSince(before: seq<CacheEvent>, after: seq<CacheEvent>, e: CacheEvent) {
    exists i :: |before| <= i < |after| && after[i] == e
  }

  lemma StillPut(before: seq<CacheEvent>, after: seq<CacheEvent>, later: seq<CacheEvent>, e: CacheEvent)
    requires PutSince(before, after, e) && after <= later
    ensures PutSince(before, later, e)
  {
    var i :| |before| <= i < |after| && after[i] == e;
    assert later[i] == e;
  }

  ghost predicate WereDropped(before: seq<CacheEvent>, after: seq<CacheEvent>, hashes: set<Hash>) {
    forall h | h in hashes :: DroppedSince(before, after, h)
  }

  // Nothing that is left was altered.
  predicate Remains(before: Blocks, after: Blocks) {
    forall h | h in after :: h in before && after[h] == before[h]
  }

  lemma MoreDropped(before: seq<CacheEvent>, after: seq<CacheEvent>, later: seq<CacheEvent>, hashes: set<Hash>)
    requires WereDropped(before, after, hashes) && after <= later
    ensures WereDropped(before, later, hashes)
  {
    forall h | h in hashes ensures DroppedSince(before, later, h) {
      var i :| |before| <= i < |after| && after[i].Evicted? && h in after[i].victims;
      assert later[i] == after[i];
    }
  }

  lemma DroppedLater(before: seq<CacheEvent>, middle: seq<CacheEvent>, after: seq<CacheEvent>, hashes: set<Hash>)
    requires WereDropped(middle, after, hashes) && |before| <= |middle|
    ensures WereDropped(before, after, hashes)
  {
    forall h | h in hashes ensures DroppedSince(before, after, h) {
      assert DroppedSince(middle, after, h);
    }
  }

  lemma PutNext(before: seq<CacheEvent>, middle: seq<CacheEvent>, after: seq<CacheEvent>, e: CacheEvent)
    requires before <= middle && middle + [e] <= after
    ensures PutSince(before, after, e)
  {
    assert after[|middle|] == (middle + [e])[|middle|];
  }

  lemma FetchedNext(
      before: seq<CacheEvent>, middle: seq<CacheEvent>, after: seq<CacheEvent>, stored: Blocks, hashes: set<Hash>,
      h: Hash)
    requires before <= middle && OnlyEvicted(middle + [Fetched(stored, {h})], after)
    requires AllFetched(before, middle, stored, hashes)
    ensures AllFetched(before, after, stored, hashes + {h})
  {
    PutNext(before, middle, after, Fetched(stored, {h}));
    forall g | g in hashes ensures PutSince(before, after, Fetched(stored, {g})) {
      StillPut(before, middle, after, Fetched(stored, {g}));
    }
  }

  lemma WroteNext(
      before: seq<CacheEvent>, middle: seq<CacheEvent>, after: seq<CacheEvent>, news: Blocks, hashes: set<Hash>,
      h: Hash)
    requires before <= middle && h in news && OnlyEvicted(middle + [Wrote(news[h])], after)
    requires AllWrote(before, middle, news, hashes)
    ensures AllWrote(before, after, news, hashes + {h})
  {
    PutNext(before, middle, after, Wrote(news[h]));
    forall g | g in hashes && g in news ensures PutSince(before, after, Wrote(news[g])) {
      StillPut(before, middle, after, Wrote(news[g]));
    }
  }

  lemma FetchedSince(
      before: seq<CacheEvent>, middle: seq<CacheEvent>, after: seq<CacheEvent>, stored: Blocks, hashes: set<Hash>)
    requires |before| <= |middle| && AllFetched(middle, after, stored, hashes)
    ensures AllFetched(before, after, stored, hashes)
  {
    forall h | h in hashes ensures PutSince(before, after, Fetched(stored, {h})) {
      assert PutSince(middle, after, Fetched(stored, {h}));
    }
  }

  class Cache {
    const cfg: Config
    const validate: bool
    var blocks: Blocks
    ghost var history: seq<CacheEvent>

    ghost predicate Valid()
      reads this
    {
      blocks == CacheAfter(cfg, history)
    }

    constructor (cfg: Config, validate: bool)
      ensures Valid() && this.cfg == cfg && this.validate == validate && history == []
    {
      this.cfg, this.validate, blocks, history := cfg, validate, map[], [];
    }

    // The cache may drop anything at any time.
    method Evict()
      requires Valid()
      modifies this
      ensures Valid() && OnlyEvicted(old(history), history)
      ensures Remains(old(blocks), blocks) && WereDropped(old(history), history, old(blocks).Keys - blocks.Keys)
    {
      var victims: set<Hash> :| victims <= blocks.Keys;
      blocks := blocks - victims;
      CacheAfterNext(cfg, history, Evicted(victims));
      history := history + [Evicted(victims)];
      assert history[|old(history)|] == Evicted(victims);
    }

    // The same, seen from an earlier moment.
    method EvictSince(ghost before: seq<CacheEvent>, ghost had: Blocks, ghost missed: set<Hash>)
      requires Valid() && OnlyEvicted(before, history) && Remains(had, blocks)
      requires WereDropped(before, history, had.Keys - blocks.Keys) && WereDropped(before, history, missed)
      modifies this
      ensures Valid() && OnlyEvicted(before, history) && Remains(had, blocks)
      ensures WereDropped(before, history, had.Keys - blocks.Keys) && WereDropped(before, history, missed)
    {
      ghost var middle, rest := history, blocks;
      Evict();
      MoreDropped(before, middle, history, missed);
      MoreDropped(before, middle, history, had.Keys - rest.Keys);
      DroppedLater(before, middle, history, rest.Keys - blocks.Keys);
      assert had.Keys - blocks.Keys <= (had.Keys - rest.Keys) + (rest.Keys - blocks.Keys);
    }

    // Lookups and evictions alternate; `hits` are the lookups that succeeded.
    method LookUp(hashes: set<Hash>) returns (result: Blocks, uncached: set<Hash>, ghost hits: set<Hash>)
      requires Valid()
      modifies this
      ensures Valid() && OnlyEvicted(old(history), history)
      ensures hits <= hashes * old(blocks).Keys && uncached == hashes - hits
      ensures result == Found(old(blocks), hits)
      ensures WereDropped(old(history), history, (hashes - hits) * old(blocks).Keys)
    {
      result, uncached, hits := map[], {}, {};
      var todo := hashes;
      while todo != {}
        invariant Valid() && OnlyEvicted(old(history), history)
        invariant todo <= hashes && hits <= hashes - todo && hits <= old(blocks).Keys
        invariant uncached == (hashes - todo) - hits
        invariant result == Found(old(blocks), hits)
        invariant Remains(old(blocks), blocks)
        invariant WereDropped(old(history), history, old(blocks).Keys - blocks.Keys)
        invariant WereDropped(old(history), history, uncached * old(blocks).Keys)
      {
        var h :| h in todo;
        todo := todo - {h};
        if h in blocks {
          result := result[h := blocks[h]];
          hits := hits + {h};
        } else {
          uncached := uncached + {h};
        }
        EvictSince(old(history), old(blocks), uncached * old(blocks).Keys);
      }
    }

    // One entry; others may vanish right away.
    method InsertOne(h: Hash, block: Block, ghost e: CacheEvent)
      requires Valid() && AfterEvent(cfg, blocks, e) == blocks[h := block]
      modifies this
      ensures Valid() && OnlyEvicted(old(history) + [e], history)
    {
      blocks := blocks[h := block];
      CacheAfterNext(cfg, history, e);
      history := history + [e];
      Evict();
    }

    // What was fetched goes into the cache before anything is validated.
    method InsertFetched(fetched: Blocks, ghost stored: Blocks, ghost uncached: set<Hash>)
      requires Valid() && fetched == Found(stored, uncached)
      modifies this
      ensures Valid() && OnlyFetched(old(history), history, stored, uncached)
      ensures AllFetched(old(history), history, stored, fetched.Keys)
    {
      var todo := fetched.Keys;
      while todo != {}
        invariant todo <= fetched.Keys
        invariant Valid() && OnlyFetched(old(history), history, stored, uncached)
        invariant AllFetched(old(history), history, stored, fetched.Keys - todo)
      {
        var h :| h in todo;
        ghost var before := history;
        InsertOne(h, fetched[h], Fetched(stored, {h}));
        FetchedNext(old(history), before, history, stored, fetched.Keys - todo, h);
        todo := todo - {h};
        assert fetched.Keys - todo <= (fetched.Keys - (todo + {h})) + {h};
      }
    }

    // The blocks of a write are cached under their hashes before they are uploaded.
    method InsertNewBlocks(news: Blocks)
      requires Valid() && UnderOwnHash(cfg, news)
      modifies this
      ensures Valid() && OnlyWrote(old(history), history, news.Values)
      ensures AllWrote(old(history), history, news, news.Keys)
    {
      var todo := news.Keys;
      while todo != {}
        invariant todo <= news.Keys
        invariant Valid() && OnlyWrote(old(history), history, news.Values)
        invariant AllWrote(old(history), history, news, news.Keys - todo)
      {
        var h :| h in todo;
        ghost var before := history;
        InsertOne(h, news[h], Wrote(news[h]));
        WroteNext(old(history), before, history, news, news.Keys - todo, h);
        todo := todo - {h};
        assert news.Keys - todo <= (news.Keys - (todo + {h})) + {h};
      }
    }

    method HasMismatch(fetched: Blocks) returns (mismatch: bool)
      ensures mismatch == SomeMismatch(cfg, fetched)
    {
      mismatch := false;
      var todo := fetched.Keys;
      while todo != {}
        invariant todo <= fetched.Keys
        invariant mismatch ==> SomeMismatch(cfg, fetched)
        invariant !mismatch ==> forall h | h in fetched.Keys - todo :: cfg.digest(fetched[h]) == h
      {
        var h :| h in todo;
        todo := todo - {h};
        if cfg.digest(fetched[h]) != h { mismatch := true; }
      }
    }

    method HbGetBlockDataByHashesCached(hashes: set<Hash>, stored: Blocks)
      returns (result: Option<Blocks>, ghost hits: set<Hash>)
      requires Valid()
      modifies this
      ensures Valid() && OnlyFetched(old(history), history, stored, hashes - hits)
      ensures hits <= hashes * old(blocks).Keys
      ensures WereDropped(old(history), history, (hashes - hits) * old(blocks).Keys)
      ensures AllFetched(old(history), history, stored, (hashes - hits) * stored.Keys)
      ensures result == FetchResult(cfg, old(blocks), hits, hashes, stored, validate)
    {
      var found, uncached;
      found, uncached, hits := LookUp(hashes);
      if uncached == {} {
        assert Found(stored, hashes - hits) == map[] && found + map[] == found;
        return Some(found), hits;
      }
      var fetched := Found(stored, uncached);
      ghost var middle := history;
      InsertFetched(fetched, stored, uncached);
      FetchedSince(old(history), middle, history, stored, fetched.Keys);
      MoreDropped(old(history), middle, history, (hashes - hits) * old(blocks).Keys);
      if validate {
        var mismatch := HasMismatch(fetched);
        if mismatch { return None, hits; }
      }
      result := Some(found + fetched);
    }

    // Reading a range of a file: the server names the hashes, the cache finds the blocks.
    method HbReadData(recorded: map<nat, Hash>, stored: Blocks, start: nat, size: nat)
      returns (result: Option<seq<Byte>>, ghost hits: set<Hash>)
      requires Valid() && cfg.blockSize > 0
      modifies this
      ensures Valid()
      ensures hits <= ServerRange(cfg.blockSize, recorded, start, size).Values * old(blocks).Keys
      ensures var hashes := ServerRange(cfg.blockSize, recorded, start, size).Values;
              OnlyFetched(old(history), history, stored, hashes - hits)
      ensures result == ReadThrough(cfg, old(blocks), hits, recorded, stored, validate, start, size)
    {
      var hashes := ServerRange(cfg.blockSize, recorded, start, size);
      var found;
      found, hits := HbGetBlockDataByHashesCached(hashes.Values, stored);
      if found.None? { return None, hits; }
      var data := ReadRange(cfg.blockSize, hashes, found.value, start, size);
      result := Some(data);
    }
  }

  method ReadRange(blockSize: nat, hashes: map<nat, Hash>, found: Blocks, start: nat, size: nat)
    returns (data: seq<Byte>)
    requires blockSize > 0
    ensures data == ReadFound(blockSize, hashes, found, start, size)
  {
    data := HbReadFromBlocks(SplitRead(blockSize, start, size), hashes, found);
  }

  // The server's floor/ceiling range.
  function ServerRange(blockSize: nat, recorded: map<nat, Hash>, start: nat, size: nat): map<nat, Hash>
    requires blockSize > 0
  {
    map k | k in recorded && start / blockSize <= k < CeilDiv(start + size, blockSize) :: recorded[k]
  }

  // The bytes that the found blocks give.
  function ReadFound(blockSize: nat, hashes: map<nat, Hash>, found: Blocks, start: nat, size: nat): seq<Byte>
    requires blockSize > 0
  {
    var rs := SplitRead(blockSize, start, size);
    ReadUpTo(rs, Resolve(hashes, found), rs.endIndex - rs.firstIndex)
  }

  // What a read returns when `hits` were found in the cache.
  function ReadThrough(
      cfg: Config, cache: Blocks, hits: set<Hash>, recorded: map<nat, Hash>, stored: Blocks, validate: bool,
      start: nat, size: nat): Option<seq<Byte>>
    requires cfg.blockSize > 0
  {
    var hashes := ServerRange(cfg.blockSize, recorded, start, size);
    match FetchResult(cfg, cache, hits, hashes.Values, stored, validate)
    case None => None
    case Some(found) => Some(ReadFound(cfg.blockSize, hashes, found, start, size))
  }

  // A fetch fails exactly when it validates and something that it fetched lies under a
  // wrong hash; it returns what it found in the cache and, for everything else, what the
  // server has.
  lemma FetchFailsIff(cfg: Config, cache: Blocks, hits: set<Hash>, hashes: set<Hash>, stored: Blocks, validate: bool)
    requires hits <= hashes * cache.Keys
    ensures var r := FetchResult(cfg, cache, hits, hashes, stored, validate);
            && (r.None? <==> validate && exists h | h in hashes - hits && h in stored :: cfg.digest(stored[h]) != h)
            && (r.Some? ==> forall h :: Lookup(r.value, h) ==
                              if h in hits then Some(cache[h]) else if h in hashes then Lookup(stored, h) else None)
  {
    var fetched := Found(stored, hashes - hits);
    assert forall h :: h in fetched <==> h in hashes - hits && h in stored;
  }

  // ---------------------------------------------------------------------------
  // Transparency

  // Stored and cached blocks lie under their own hashes, and the two do not collide.
  ghost predicate Honest(cfg: Config, stored: Blocks, cache: Blocks) {
    UnderOwnHash(cfg, stored) && UnderOwnHash(cfg, cache) && NoCollision(cfg, stored.Values + cache.Values)
  }

  // With honest blocks a fetch never fails, everything it returns has the hash it is
  // returned for, and what the store has is returned as it is stored.
  lemma HonestFetch(cfg: Config, cache: Blocks, hits: set<Hash>, hashes: set<Hash>, stored: Blocks, validate: bool)
    requires Honest(cfg, stored, cache) && hits <= hashes * cache.Keys
    ensures FetchResult(cfg, cache, hits, hashes, stored, validate).Some?
    ensures var r := FetchResult(cfg, cache, hits, hashes, stored, validate).value;
            && UnderOwnHash(cfg, r)
            && (forall h | h in hashes && h in stored :: h in r && r[h] == stored[h])
            && (forall h | h in r :: h in hashes && (h in stored || h in cache))
  {
    forall h | h in hits && h in stored
      ensures cache[h] == stored[h]
    {
      assert cache[h] in cache.Values && stored[h] in stored.Values;
    }
  }

  lemma {:induction false} ReadUpToLooksAtRange(rs: ReadSplit, m: Content, m': Content, n: nat)
    requires rs.bytesFirst <= rs.size
    requires forall k: nat | rs.firstIndex <= k < rs.firstIndex + n :: Get(m, k) == Get(m', k)
    ensures ReadUpTo(rs, m, n) == ReadUpTo(rs, m', n)
  {
    if n > 0 {
      ReadUpToLooksAtRange(rs, m, m', n - 1);
      assert Get(m, rs.firstIndex + (n - 1)) == Get(m', rs.firstIndex + (n - 1));
    }
  }

  // What is stored under the hashes was found.
  ghost predicate FoundAsStored(hashes: map<nat, Hash>, stored: Blocks, found: Blocks) {
    forall h | h in hashes.Values && h in stored :: h in found && found[h] == stored[h]
  }

  lemma BlockAsInFile(
      cfg: Config, recorded: map<nat, Hash>, stored: Blocks, found: Blocks, f: seq<Byte>, start: nat, size: nat, k: nat)
    requires cfg.blockSize > 0 && Holds(cfg, recorded, stored, f)
    requires FoundAsStored(ServerRange(cfg.blockSize, recorded, start, size), stored, found)
    requires start / cfg.blockSize <= k < CeilDiv(start + size, cfg.blockSize)
    ensures Get(Resolve(ServerRange(cfg.blockSize, recorded, start, size), found), k) == Get(Cut(f, cfg.blockSize), k)
  {
    var hashes := ServerRange(cfg.blockSize, recorded, start, size);
    if k in recorded {
      assert hashes[k] in hashes.Values && k in Resolve(recorded, stored);
    }
  }

  // A read through the cache is a read of the file.
  lemma CachedReadIsSlice(
      cfg: Config, recorded: map<nat, Hash>, stored: Blocks, found: Blocks, f: seq<Byte>, start: nat, size: nat)
    requires cfg.blockSize > 0 && Holds(cfg, recorded, stored, f)
    requires FoundAsStored(ServerRange(cfg.blockSize, recorded, start, size), stored, found)
    ensures var hashes := ServerRange(cfg.blockSize, recorded, start, size);
            ReadFound(cfg.blockSize, hashes, found, start, size) == Piece(f, start, size)
  {
    var rs := SplitRead(cfg.blockSize, start, size);
    var m := Resolve(ServerRange(cfg.blockSize, recorded, start, size), found);
    SplitReadEnd(cfg.blockSize, start, size);
    forall k: nat | rs.firstIndex <= k < rs.endIndex ensures Get(m, k) == Get(Cut(f, cfg.blockSize), k) {
      BlockAsInFile(cfg, recorded, stored, found, f, start, size, k);
    }
    ReadUpToLooksAtRange(rs, m, Cut(f, cfg.blockSize), rs.endIndex - rs.firstIndex);
    ReadReturnsSlice(f, cfg.blockSize, start, size);
  }

  // What was found is what is stored, as far as anything was found.
  ghost predicate NothingElseFound(hashes: map<nat, Hash>, stored: Blocks, found: Blocks) {
    forall h | h in hashes.Values && h in found :: h in stored && found[h] == stored[h]
  }

  lemma OnlyBlocksOfFile(
      cfg: Config, recorded: map<nat, Hash>, stored: Blocks, found: Blocks, f: seq<Byte>, start: nat, size: nat, k: nat)
    requires cfg.blockSize > 0 && Holds(cfg, recorded, stored, f)
    requires Get(Resolve(ServerRange(cfg.blockSize, recorded, start, size), found), k) != []
    ensures k < CeilDiv(|f|, cfg.blockSize)
  {
    assert k in recorded && k in Cut(f, cfg.blockSize);
  }

  // A read that starts at the beginning of a block returns the slice exactly when every
  // block of its range was found.
  lemma AlignedReadIsSliceIff(
      cfg: Config, recorded: map<nat, Hash>, stored: Blocks, found: Blocks, f: seq<Byte>, start: nat, size: nat)
    requires cfg.blockSize > 0 && Holds(cfg, recorded, stored, f) && start % cfg.blockSize == 0
    requires NothingElseFound(ServerRange(cfg.blockSize, recorded, start, size), stored, found)
    ensures var hashes := ServerRange(cfg.blockSize, recorded, start, size);
            ReadFound(cfg.blockSize, hashes, found, start, size) == Piece(f, start, size) <==>
            hashes.Values <= found.Keys
  {
    var hashes := ServerRange(cfg.blockSize, recorded, start, size);
    if hashes.Values <= found.Keys {
      CachedReadIsSlice(cfg, recorded, stored, found, f, start, size);
    } else {
      var h :| h in hashes.Values && h !in found;
      var k :| k in hashes && hashes[k] == h;
      LostBlockShortens(cfg, recorded, stored, found, f, start, size, k);
    }
  }

  lemma LostBlockShortens(
      cfg: Config, recorded: map<nat, Hash>, stored: Blocks, found: Blocks, f: seq<Byte>, start: nat, size: nat, k: nat)
    requires cfg.blockSize > 0 && Holds(cfg, recorded, stored, f) && start % cfg.blockSize == 0
    requires k in ServerRange(cfg.blockSize, recorded, start, size) && recorded[k] !in found
    ensures var hashes := ServerRange(cfg.blockSize, recorded, start, size);
            |ReadFound(cfg.blockSize, hashes, found, start, size)| < |Piece(f, start, size)|
  {
    var rs := SplitRead(cfg.blockSize, start, size);
    var m := Resolve(ServerRange(cfg.blockSize, recorded, start, size), found);
    SplitReadEnd(cfg.blockSize, start, size);
    if size == 0 { CeilDivIs(start, cfg.blockSize); }
    forall i: nat | Get(m, i) != [] ensures i < CeilDiv(|f|, cfg.blockSize) {
      OnlyBlocksOfFile(cfg, recorded, stored, found, f, start, size, i);
    }
    assert k in Cut(f, cfg.blockSize);
    MissingBlockShortens(f, m, rs, k - rs.firstIndex);
  }

  // Whatever was cached or evicted, a read of a file returns the requested slice of its
  // content, cut off at the end of the file.
  lemma ReadIsTransparent(
      cfg: Config, cache: Blocks, hits: set<Hash>, recorded: map<nat, Hash>, stored: Blocks, validate: bool,
      f: seq<Byte>, start: nat, size: nat)
    requires cfg.blockSize > 0 && Holds(cfg, recorded, stored, f) && Honest(cfg, stored, cache)
    requires hits <= ServerRange(cfg.blockSize, recorded, start, size).Values * cache.Keys
    ensures ReadThrough(cfg, cache, hits, recorded, stored, validate, start, size) == Some(Piece(f, start, size))
  {
    var hashes := ServerRange(cfg.blockSize, recorded, start, size);
    HonestFetch(cfg, cache, hits, hashes.Values, stored, validate);
    var found := FetchResult(cfg, cache, hits, hashes.Values, stored, validate).value;
    CachedReadIsSlice(cfg, recorded, stored, found, f, start, size);
  }

  // ---------------------------------------------------------------------------
  // A server that answers with wrong blocks

  // With validation on, a fetch fails or returns only blocks under their own hashes
  // exactly when something fetched is wrong or everything found in the cache is right.
  lemma ValidatedFetchIff(cfg: Config, cache: Blocks, hits: set<Hash>, hashes: set<Hash>, stored: Blocks)
    requires hits <= hashes * cache.Keys
    ensures var r := FetchResult(cfg, cache, hits, hashes, stored, true);
            (r.None? || UnderOwnHash(cfg, r.value)) <==>
            SomeMismatch(cfg, Found(stored, hashes - hits)) || UnderOwnHash(cfg, Found(cache, hits))
  {
    var found, fetched := Found(cache, hits), Found(stored, hashes - hits);
    if !SomeMismatch(cfg, fetched) {
      forall h | h in found ensures (found + fetched)[h] == found[h] { assert h !in fetched; }
    }
  }

  // The event puts a wrong block under the hash.
  predicate Spoils(cfg: Config, e: CacheEvent, h: Hash) {
    e.Fetched? && h in e.uncached && h in e.stored && cfg.digest(e.stored[h]) != h
  }

  // The event drops the entry or puts the right block there.
  predicate Mends(cfg: Config, e: CacheEvent, h: Hash) {
    match e
    case Wrote(block) => cfg.digest(block) == h
    case Fetched(stored, uncached) => h in uncached && h in stored && cfg.digest(stored[h]) == h
    case Evicted(victims) => h in victims
  }

  // A wrong block was fetched for the hash and nothing has mended it since.
  ghost predicate Spoilt(cfg: Config, events: seq<CacheEvent>, h: Hash) {
    exists i :: 0 <= i < |events| && Spoils(cfg, events[i], h)
                && forall j | i < j < |events| :: !Mends(cfg, events[j], h)
  }

  ghost predicate WrongAt(cfg: Config, cache: Blocks, h: Hash) {
    h in cache && cfg.digest(cache[h]) != h
  }

  lemma SpoiltLater(cfg: Config, events: seq<CacheEvent>, e: CacheEvent, h: Hash)
    ensures Spoilt(cfg, events + [e], h) <==> Spoils(cfg, e, h) || (Spoilt(cfg, events, h) && !Mends(cfg, e, h))
  {
    var all, n := events + [e], |events|;
    assert all[n] == e;
    if Spoilt(cfg, all, h) {
      var i :| 0 <= i < |all| && Spoils(cfg, all[i], h) && forall j | i < j < |all| :: !Mends(cfg, all[j], h);
      if i < n {
        assert all[i] == events[i] && !Mends(cfg, all[n], h);
        assert forall j | i < j < n :: events[j] == all[j];
      }
    }
    if Spoilt(cfg, events, h) && !Mends(cfg, e, h) {
      var i :| 0 <= i < n && Spoils(cfg, events[i], h) && forall j | i < j < n :: !Mends(cfg, events[j], h);
      assert all[i] == events[i];
      assert forall j | i < j < |all| :: !Mends(cfg, all[j], h) by {
        assert forall j | i < j < n :: all[j] == events[j];
      }
    }
  }

  // In any run a cached block is wrong exactly when a wrong one was fetched, validated or
  // not, and neither an eviction nor a right block has mended it since.
  lemma {:induction false} WrongIffSpoilt(cfg: Config, events: seq<CacheEvent>, h: Hash)
    ensures WrongAt(cfg, CacheAfter(cfg, events), h) <==> Spoilt(cfg, events, h)
  {
    if events != [] {
      var front, e := events[..|events| - 1], events[|events| - 1];
      assert events == front + [e];
      WrongIffSpoilt(cfg, front, h);
      SpoiltLater(cfg, front, e, h);
    }
  }

  // So a validated fetch is right in a run exactly when it fetches something wrong itself
  // or none of its hits is spoilt.
  lemma {:induction false} ValidatedFetchInRun(
      cfg: Config, events: seq<CacheEvent>, hits: set<Hash>, hashes: set<Hash>, stored: Blocks)
    requires hits <= hashes * CacheAfter(cfg, events).Keys
    ensures var r := FetchResult(cfg, CacheAfter(cfg, events), hits, hashes, stored, true);
            (r.None? || UnderOwnHash(cfg, r.value)) <==>
            SomeMismatch(cfg, Found(stored, hashes - hits)) || forall h | h in hits :: !Spoilt(cfg, events, h)
  {
    var cache := CacheAfter(cfg, events);
    ValidatedFetchIff(cfg, cache, hits, hashes, stored);
    forall h | h in hits ensures Spoilt(cfg, events, h) <==> cfg.digest(Found(cache, hits)[h]) != h {
      WrongIffSpoilt(cfg, events, h);
    }
  }

  // For instance, a block that validation has just rejected is served the next time.
  lemma RejectedBlockIsServedNextTime(cfg: Config, cache: Blocks, stored: Blocks, h: Hash)
    requires h !in cache && h in stored && cfg.digest(stored[h]) != h
    ensures FetchResult(cfg, cache, {}, {h}, stored, true) == None
    ensures var cache' := AfterEvent(cfg, cache, Fetched(stored, {h}));
            FetchResult(cfg, cache', {h}, {h}, stored, true) == Some(map[h := stored[h]])
  {
    var none: set<Hash> := {};
    var first := Found(stored, {h} - none);
    assert h in first && cfg.digest(first[h]) != h;
    var cache' := AfterEvent(cfg, cache, Fetched(stored, {h}));
    assert Found(stored, {h} - {h}) == map[];
    assert Found(cache', {h}) + Found(stored, {h} - {h}) == map[h := stored[h]];
  }
}
