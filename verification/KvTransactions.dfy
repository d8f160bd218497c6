// The transactions on counters, blocks, mappings and sizes as the code runs them
// (src/fs/mini_transaction.rs), each proved equal to the function that the
// protocol in module RefCount is built from.
module KvTransactions {
  import opened Types
  import opened RefCount

  predicate DistinctAddrs(addresses: seq<(BlockAddress, Option<Hash>)>) {
    forall i, j | 0 <= i < j < |addresses| :: addresses[i].0 != addresses[j].0
  }

  // The last entry of an address wins, as it does for a list of mutations.
  function AsTargets(addresses: seq<(BlockAddress, Option<Hash>)>): Targets {
    if addresses == [] then map[]
    else
      var n := |addresses| - 1;
      AsTargets(addresses[..n])[addresses[n].0 := addresses[n].1]
  }

  function AsIncrements(blocks: seq<(Hash, nat)>): map<Hash, nat> {
    if blocks == [] then map[]
    else
      var n := |blocks| - 1;
      AsIncrements(blocks[..n])[blocks[n].0 := blocks[n].1]
  }

  predicate Listed(blocks: seq<(Hash, nat)>, h: Hash) {
    exists i | 0 <= i < |blocks| :: blocks[i].0 == h
  }

  lemma ListedInFront(blocks: seq<(Hash, nat)>, h: Hash)
    requires blocks != []
    ensures var n := |blocks| - 1; Listed(blocks, h) <==> blocks[n].0 == h || Listed(blocks[..n], h)
  {
    var n := |blocks| - 1;
    if i :| 0 <= i < n && blocks[i].0 == h { assert blocks[..n][i].0 == h; }
    if i :| 0 <= i < n && blocks[..n][i].0 == h { assert blocks[i].0 == h; }
  }

  lemma {:induction false} AsIncrementsKeys(blocks: seq<(Hash, nat)>, h: Hash)
    ensures h in AsIncrements(blocks) <==> Listed(blocks, h)
  {
    if blocks != [] {
      AsIncrementsKeys(blocks[..|blocks| - 1], h);
      ListedInFront(blocks, h);
    }
  }

  // The next element of the list.
  lemma AsIncrementsStep(blocks: seq<(Hash, nat)>, i: nat)
    requires i < |blocks|
    ensures AsIncrements(blocks[..i + 1]) == AsIncrements(blocks[..i])[blocks[i].0 := blocks[i].1]
  {
    assert blocks[..i + 1][..i] == blocks[..i];
  }

  lemma {:induction false} AsTargetsKeys(addresses: seq<(BlockAddress, Option<Hash>)>, a: BlockAddress)
    ensures a in AsTargets(addresses) <==> exists i | 0 <= i < |addresses| :: addresses[i].0 == a
  {
    if addresses != [] {
      var n := |addresses| - 1;
      AsTargetsKeys(addresses[..n], a);
    }
  }

  // ---------------------------------------------------------------------------
  // Increment lists

  predicate DistinctHashes(blocks: seq<(Hash, nat)>) {
    forall i, j | 0 <= i < j < |blocks| :: blocks[i].0 != blocks[j].0
  }

  // All that the caller asked to add for one hash.
  function Requested(blocks: seq<(Hash, nat)>, h: Hash): nat {
    if blocks == [] then 0
    else
      var n := |blocks| - 1;
      Requested(blocks[..n], h) + if blocks[n].0 == h then blocks[n].1 else 0
  }

  lemma {:induction false} RequestedIffListed(blocks: seq<(Hash, nat)>, h: Hash)
    requires forall i | 0 <= i < |blocks| :: blocks[i].1 > 0
    ensures Requested(blocks, h) > 0 <==> Listed(blocks, h)
  {
    if blocks != [] {
      RequestedIffListed(blocks[..|blocks| - 1], h);
      ListedInFront(blocks, h);
    }
  }

  lemma DistinctIffLastIsNew(blocks: seq<(Hash, nat)>)
    requires blocks != []
    ensures var n := |blocks| - 1;
            DistinctHashes(blocks) <==> DistinctHashes(blocks[..n]) && !Listed(blocks[..n], blocks[n].0)
  {
    var n := |blocks| - 1;
    var front := blocks[..n];
    if Listed(front, blocks[n].0) {
      var i :| 0 <= i < n && front[i].0 == blocks[n].0;
      assert blocks[i].0 == blocks[n].0;
    }
    if DistinctHashes(front) && !Listed(front, blocks[n].0) {
      forall i, j | 0 <= i < j < |blocks| ensures blocks[i].0 != blocks[j].0 {
        assert front[i].0 == blocks[i].0;
        if j < n { assert front[j].0 == blocks[j].0; }
      }
    }
  }

  predicate AddsRequestedFor(blocks: seq<(Hash, nat)>, h: Hash) {
    Count(AsIncrements(blocks), h) == Requested(blocks, h)
  }

  ghost predicate AddsRequested(blocks: seq<(Hash, nat)>) {
    forall h :: AddsRequestedFor(blocks, h)
  }

  // The last entry keeps all other sums and takes the place of its own.
  lemma LastTakesEffect(blocks: seq<(Hash, nat)>, h: Hash)
    requires blocks != [] && forall i | 0 <= i < |blocks| :: blocks[i].1 > 0
    ensures var n := |blocks| - 1;
            if h == blocks[n].0 then AddsRequestedFor(blocks, h) <==> !Listed(blocks[..n], h)
            else AddsRequestedFor(blocks, h) <==> AddsRequestedFor(blocks[..n], h)
    ensures var n := |blocks| - 1; !Listed(blocks[..n], h) ==> AddsRequestedFor(blocks[..n], h)
  {
    var n := |blocks| - 1;
    RequestedIffListed(blocks[..n], h);
    AsIncrementsKeys(blocks[..n], h);
  }

  // The increment transaction adds what was requested exactly when no hash is listed
  // twice: of two entries for one hash only the last takes effect.
  lemma {:induction false} IncrementAddsRequestedIffDistinct(blocks: seq<(Hash, nat)>)
    requires forall i | 0 <= i < |blocks| :: blocks[i].1 > 0
    ensures AddsRequested(blocks) <==> DistinctHashes(blocks)
  {
    if blocks != [] {
      var n := |blocks| - 1;
      IncrementAddsRequestedIffDistinct(blocks[..n]);
      DistinctIffLastIsNew(blocks);
      LastTakesEffect(blocks, blocks[n].0);
      if AddsRequested(blocks) {
        forall h ensures AddsRequestedFor(blocks[..n], h) { LastTakesEffect(blocks, h); }
      }
      if DistinctHashes(blocks) {
        forall h ensures AddsRequestedFor(blocks, h) { LastTakesEffect(blocks, h); }
      }
    }
  }

  // For instance, of one reference asked for twice only one is added.
  lemma {:induction false} RepeatedHashIsAddedOnce(h: Hash)
    ensures var blocks := [(h, 1), (h, 1)]; Requested(blocks, h) == 2 && Count(AsIncrements(blocks), h) == 1
  {
    var blocks := [(h, 1), (h, 1)];
    assert blocks[..1] == [(h, 1)] && [(h, 1)][..0] == [];
    assert Requested([(h, 1)], h) == 1 && AsIncrements([(h, 1)]) == map[h := 1];
  }

  // What the write path passes: every new hash once, with its number of addresses.
  ghost predicate Lists(blocks: seq<(Hash, nat)>, targets: Targets) {
    && (forall i | 0 <= i < |blocks| :: blocks[i].1 == |NewAddrs(targets, blocks[i].0)|)
    && (forall h :: Listed(blocks, h) <==> h in Increments(targets))
  }

  lemma {:induction false} ListedIncrements(blocks: seq<(Hash, nat)>, targets: Targets)
    requires Lists(blocks, targets)
    ensures AsIncrements(blocks) == Increments(targets)
  {
    forall h ensures h in AsIncrements(blocks) <==> h in Increments(targets) { AsIncrementsKeys(blocks, h); }
    AsIncrementsValues(blocks, targets);
  }

  lemma {:induction false} AsIncrementsValues(blocks: seq<(Hash, nat)>, targets: Targets)
    requires forall i | 0 <= i < |blocks| :: blocks[i].1 == |NewAddrs(targets, blocks[i].0)|
    ensures forall h | h in AsIncrements(blocks) :: AsIncrements(blocks)[h] == |NewAddrs(targets, h)|
  {
    if blocks != [] {
      AsIncrementsValues(blocks[..|blocks| - 1], targets);
    }
  }

  // ---------------------------------------------------------------------------
  // One more element

  lemma IncrementedStep(counts: map<Hash, nat>, incs: map<Hash, nat>, h: Hash, c: nat)
    ensures Incremented(counts, incs[h := c]) == Incremented(counts, incs)[h := c + Count(counts, h)]
  {
  }

  // The listed counters as they were before the first write, and no others.
  ghost predicate AreCounters(prev: map<Hash, nat>, counts: map<Hash, nat>, incs: seq<(Hash, nat)>) {
    forall h :: Count(prev, h) == if h in AsIncrements(incs) then Count(counts, h) else 0
  }

  lemma IncrementListedStep(counts: map<Hash, nat>, prev: map<Hash, nat>, incs: seq<(Hash, nat)>, i: nat)
    requires AreCounters(prev, counts, incs) && i < |incs|
    ensures Incremented(counts, AsIncrements(incs[..i + 1])) ==
            Incremented(counts, AsIncrements(incs[..i]))[incs[i].0 := incs[i].1 + Count(prev, incs[i].0)]
  {
    AsIncrementsStep(incs, i);
    AsIncrementsKeys(incs, incs[i].0);
    IncrementedStep(counts, AsIncrements(incs[..i]), incs[i].0, incs[i].1);
  }

  lemma ReplacedStep(mapping: map<BlockAddress, Hash>, targets: Targets, a: BlockAddress, v: Option<Hash>)
    ensures var before := ReplacedMapping(mapping, targets);
            ReplacedMapping(mapping, targets[a := v]) == if v.Some? then before[a := v.value] else before - {a}
  {
  }

  lemma SamePositiveCounts(m: map<Hash, nat>, m': map<Hash, nat>)
    requires forall h | h in m :: m[h] > 0
    requires forall h | h in m' :: m'[h] > 0
    requires forall h :: Count(m, h) == Count(m', h)
    ensures m == m'
  {
    assert forall h :: (h in m <==> Count(m, h) > 0) && (h in m' <==> Count(m', h) > 0);
  }

  lemma DisplacedAddrsStep(
      mapping: map<BlockAddress, Hash>, targets: Targets, a: BlockAddress, v: Option<Hash>, h: Hash)
    requires a !in targets
    ensures |DisplacedAddrs(mapping, targets[a := v], h)| ==
            |DisplacedAddrs(mapping, targets, h)| + if a in mapping && mapping[a] == h then 1 else 0
  {
    var before, after := DisplacedAddrs(mapping, targets, h), DisplacedAddrs(mapping, targets[a := v], h);
    if a in mapping && mapping[a] == h {
      assert after == before + {a};
    } else {
      assert after == before;
    }
  }

  // One more address displaces at most one more hash.
  lemma DisplacedStep(mapping: map<BlockAddress, Hash>, targets: Targets, a: BlockAddress, v: Option<Hash>)
    requires a !in targets
    ensures var before := Displaced(mapping, targets);
            Displaced(mapping, targets[a := v]) ==
            if a in mapping then before[mapping[a] := Count(before, mapping[a]) + 1] else before
  {
    var before, after := Displaced(mapping, targets), Displaced(mapping, targets[a := v]);
    var expected := if a in mapping then before[mapping[a] := Count(before, mapping[a]) + 1] else before;
    DisplacedIsPositive(mapping, targets);
    DisplacedIsPositive(mapping, targets[a := v]);
    forall h ensures Count(after, h) == Count(expected, h) {
      DisplacedAddrsStep(mapping, targets, a, v, h);
      DisplacedCount(mapping, targets, h);
      DisplacedCount(mapping, targets[a := v], h);
    }
    SamePositiveCounts(after, expected);
  }

  // What a decrement leaves under one key.
  function DecrementedAt(counts: map<Hash, nat>, decs: map<Hash, nat>, k: Hash): Option<nat> {
    if k !in counts || (k in decs && counts[k] <= decs[k]) then None
    else Some(counts[k] - Count(decs, k))
  }

  lemma DecrementedLookup(st: Store, decs: map<Hash, nat>, k: Hash)
    ensures Lookup(Decremented(st, decs).counts, k) == DecrementedAt(st.counts, decs, k)
    ensures Lookup(Decremented(st, decs).blocks, k) ==
            if k in decs && Count(st.counts, k) <= decs[k] then None else Lookup(st.blocks, k)
  {
  }

  lemma DecrementedCountsStep(st: Store, done: map<Hash, nat>, h: Hash, dec: nat)
    requires h !in done
    ensures var cur, prev := Decremented(st, done), Count(st.counts, h);
            Decremented(st, done[h := dec]).counts ==
            if prev <= dec then cur.counts - {h} else cur.counts[h := prev - dec]
  {
    var cur, next, prev := Decremented(st, done), Decremented(st, done[h := dec]), Count(st.counts, h);
    var expected := if prev <= dec then cur.counts - {h} else cur.counts[h := prev - dec];
    forall k ensures Lookup(next.counts, k) == Lookup(expected, k) {
      DecrementedLookup(st, done, k);
      DecrementedLookup(st, done[h := dec], k);
    }
    SameLookups(next.counts, expected);
  }

  lemma DecrementedBlocksStep(st: Store, done: map<Hash, nat>, h: Hash, dec: nat)
    requires h !in done
    ensures Decremented(st, done[h := dec]).blocks ==
            if Count(st.counts, h) <= dec then Decremented(st, done).blocks - {h} else Decremented(st, done).blocks
  {
    var cur, next := Decremented(st, done), Decremented(st, done[h := dec]);
    var expected := if Count(st.counts, h) <= dec then cur.blocks - {h} else cur.blocks;
    forall k ensures Lookup(next.blocks, k) == Lookup(expected, k) {
      DecrementedLookup(st, done, k);
      DecrementedLookup(st, done[h := dec], k);
    }
    SameLookups(next.blocks, expected);
  }

  // One counter lowered, its block deleted when it reaches zero.
  function LowerOne(st: Store, h: Hash, dec: nat): Store {
    var prev := Count(st.counts, h);
    if prev <= dec then st.(counts := st.counts - {h}, blocks := st.blocks - {h})
    else st.(counts := st.counts[h := prev - dec])
  }

  // The counters may be lowered one after the other, in any order.
  lemma DecrementedStep(st: Store, done: map<Hash, nat>, h: Hash, dec: nat)
    requires h !in done
    ensures Decremented(st, done[h := dec]) == LowerOne(Decremented(st, done), h, dec)
  {
    DecrementedLookup(st, done, h);
    DecrementedCountsStep(st, done, h, dec);
    DecrementedBlocksStep(st, done, h, dec);
  }

  // Some hash to be displaced does not have the length of the file system's hashes.
  predicate SomeWrongLength(mapping: map<BlockAddress, Hash>, targets: Targets, hashLen: nat) {
    exists a | a in mapping && a in targets :: |mapping[a]| != hashLen
  }

  // The keys that the transactions read and write.
  class KvStore {
    var counts: map<Hash, nat>
    var blocks: map<Hash, Block>
    var mapping: map<BlockAddress, Hash>
    var sizes: map<Ino, nat>

    function View(): Store
      reads this
    {
      Store(counts, blocks, mapping, sizes)
    }

    constructor ()
      ensures View() == Empty.st
    {
      counts, blocks, mapping, sizes := map[], map[], map[], map[];
    }

    method ReadCounters(incs: seq<(Hash, nat)>) returns (prev: map<Hash, nat>)
      ensures AreCounters(prev, counts, incs)
    {
      prev := map[];
      var i := 0;
      while i < |incs|
        invariant 0 <= i <= |incs|
        invariant AreCounters(prev, counts, incs[..i])
      {
        AsIncrementsStep(incs, i);
        if incs[i].0 in counts {
          prev := prev[incs[i].0 := counts[incs[i].0]];
        }
        i := i + 1;
      }
      assert incs[..i] == incs;
    }

    // Returns the previous counters.  New values are computed from the values read
    // before the first write.
    method IncrementReferenceCounts(incs: seq<(Hash, nat)>) returns (prev: map<Hash, nat>)
      modifies this`counts
      ensures counts == Incremented(old(counts), AsIncrements(incs))
      ensures AreCounters(prev, old(counts), incs)
    {
      prev := ReadCounters(incs);
      var i := 0;
      assert incs[..0] == [];
      assert counts == Incremented(counts, map[]);
      while i < |incs|
        invariant 0 <= i <= |incs|
        invariant counts == Incremented(old(counts), AsIncrements(incs[..i]))
      {
        IncrementListedStep(old(counts), prev, incs, i);
        counts := counts[incs[i].0 := incs[i].1 + Count(prev, incs[i].0)];
        i := i + 1;
      }
      assert incs[..i] == incs;
    }

    // Swaps the mappings and returns how often each previous hash was displaced; a
    // previous hash of the wrong length rolls the transaction back.
    method ReplaceBlockHashes(addresses: seq<(BlockAddress, Option<Hash>)>, hashLen: nat)
      returns (decs: Option<map<Hash, nat>>)
      requires DistinctAddrs(addresses)
      modifies this`mapping
      ensures decs.Some? ==> mapping == ReplacedMapping(old(mapping), AsTargets(addresses))
      ensures decs.Some? ==> decs.value == Displaced(old(mapping), AsTargets(addresses))
      ensures decs.None? ==> mapping == old(mapping)
      ensures decs.None? <==> SomeWrongLength(old(mapping), AsTargets(addresses), hashLen)
    {
      var counted: map<Hash, nat> := map[];
      var replaced := mapping;
      var i := 0;
      while i < |addresses|
        invariant 0 <= i <= |addresses|
        invariant mapping == old(mapping)
        invariant counted == Displaced(mapping, AsTargets(addresses[..i]))
        invariant replaced == ReplacedMapping(mapping, AsTargets(addresses[..i]))
        invariant forall a | a in mapping && a in AsTargets(addresses[..i]) :: |mapping[a]| == hashLen
      {
        var (a, v) := addresses[i];
        assert addresses[..i + 1][..i] == addresses[..i];
        AsTargetsKeys(addresses[..i], a);
        AsTargetsKeys(addresses, a);
        if a in mapping {
          var hash := mapping[a];
          if |hash| != hashLen {
            return None;
          }
          counted := counted[hash := Count(counted, hash) + 1];
        }
        DisplacedStep(mapping, AsTargets(addresses[..i]), a, v);
        ReplacedStep(mapping, AsTargets(addresses[..i]), a, v);
        replaced := if v.Some? then replaced[a := v.value] else replaced - {a};
        i := i + 1;
      }
      assert addresses[..i] == addresses;
      mapping := replaced;
      decs := Some(counted);
    }

    method Lower(h: Hash, dec: nat)
      modifies this`counts, this`blocks
      ensures View() == LowerOne(old(View()), h, dec)
    {
      var actual := dec;
      var prev := Count(counts, h);
      if prev < actual {
        actual := prev;
      }
      if prev - actual == 0 {
        counts := counts - {h};
        blocks := blocks - {h};
      } else {
        counts := counts[h := prev - actual];
      }
    }

    // Lowers the counters in any order; a counter that reaches zero takes its block along.
    method DecrementAndDelete(decs: map<Hash, nat>)
      modifies this`counts, this`blocks
      ensures View() == Decremented(old(View()), decs)
    {
      var todo := decs.Keys;
      ghost var start, done: map<Hash, nat> := View(), map[];
      assert Decremented(start, map[]) == start;
      while todo != {}
        invariant todo <= decs.Keys && done.Keys == decs.Keys - todo
        invariant forall h | h in done :: done[h] == decs[h]
        invariant View() == Decremented(start, done)
      {
        var h :| h in todo;
        DecrementedStep(start, done, h, decs[h]);
        Lower(h, decs[h]);
        done := done[h := decs[h]];
        todo := todo - {h};
      }
      assert done == decs;
    }

    method HbUploadNewBlock(upload: map<Hash, Block>)
      modifies this`blocks
      ensures forall h :: Lookup(blocks, h) == if h in upload then Some(upload[h]) else Lookup(old(blocks), h)
    {
      var todo := upload.Keys;
      while todo != {}
        invariant todo <= upload.Keys
        invariant forall h :: Lookup(blocks, h) ==
                              if h in upload && h !in todo then Some(upload[h]) else Lookup(old(blocks), h)
      {
        var h :| h in todo;
        todo := todo - {h};
        blocks := blocks[h := upload[h]];
      }
    }

    // Raises the size of a file; sizes never shrink.
    method RaiseSize(ino: Ino, target: nat) returns (found: bool)
      modifies this`sizes
      ensures found <==> ino in old(sizes)
      ensures sizes == if found && old(sizes)[ino] < target then old(sizes)[ino := target] else old(sizes)
    {
      found := ino in sizes;
      if found && target > sizes[ino] {
        sizes := sizes[ino := target];
      }
    }
  }

  // ---------------------------------------------------------------------------
  // Counting and uploading

  // Of the new blocks those are uploaded that nobody had counted before.
  method BlocksToUpload(incs: seq<(Hash, nat)>, prev: map<Hash, nat>, news: map<Hash, Block>)
    returns (upload: map<Hash, Block>)
    requires forall i | 0 <= i < |incs| :: incs[i].0 in news
    ensures forall h :: h in upload <==> Listed(incs, h) && Count(prev, h) == 0
    ensures forall h | h in upload :: h in news && upload[h] == news[h]
  {
    upload := map[];
    for n := 0 to |incs|
      invariant forall h :: h in upload <==> Count(prev, h) == 0 && exists i | 0 <= i < n :: incs[i].0 == h
      invariant forall h | h in upload :: h in news && upload[h] == news[h]
    {
      var h := incs[n].0;
      if Count(prev, h) == 0 { upload := upload[h := news[h]]; }
    }
  }

  // The store after the first two protocol steps.
  ghost function AfterCounting(cfg: Config, st: Store, ino: Ino, targets: Targets, data: map<Hash, Block>): Store {
    Exec(cfg, Sys(st, [Prepared(ino, targets, data)], 0), [Advance(0), Advance(0)]).st
  }

  // Run alone, counting and uploading are the protocol's first two steps.
  method CountAndUpload(
      kv: KvStore, cfg: Config, incs: seq<(Hash, nat)>, news: map<Hash, Block>, ghost ino: Ino, ghost targets: Targets)
    requires Lists(incs, targets) && WellFormedWrite(cfg, ino, targets, news)
    modifies kv
    ensures kv.View() == AfterCounting(cfg, old(kv.View()), ino, targets, news)
  {
    ghost var st0 := kv.View();
    ListedIncrements(incs, targets);
    ListedIsNew(incs, targets, cfg, ino, news);
    var prev := kv.IncrementReferenceCounts(incs);
    var upload := BlocksToUpload(incs, prev, news);
    ghost var counted := kv.View();
    UploadIsOwed(st0.counts, incs, prev, upload, targets, news);
    kv.HbUploadNewBlock(upload);
    CountingSteps(cfg, st0, counted, kv.View(), ino, targets, news);
  }

  lemma ListedIsNew(incs: seq<(Hash, nat)>, targets: Targets, cfg: Config, ino: Ino, news: map<Hash, Block>)
    requires Lists(incs, targets) && WellFormedWrite(cfg, ino, targets, news)
    ensures forall i | 0 <= i < |incs| :: incs[i].0 in news
  {
    forall i | 0 <= i < |incs| ensures incs[i].0 in news {
      assert Listed(incs, incs[i].0);
      assert incs[i].0 in Increments(targets);
    }
  }

  // The hashes without a counter.
  function Uncounted(counts: map<Hash, nat>, targets: Targets): set<Hash> {
    set h | h in Increments(targets) && Count(counts, h) == 0
  }

  lemma UploadIsOwed(
      counts: map<Hash, nat>, incs: seq<(Hash, nat)>, prev: map<Hash, nat>, upload: map<Hash, Block>, targets: Targets,
      news: map<Hash, Block>)
    requires Lists(incs, targets) && AreCounters(prev, counts, incs)
    requires forall h :: h in upload <==> Listed(incs, h) && Count(prev, h) == 0
    requires forall h | h in upload :: h in news && upload[h] == news[h]
    ensures upload.Keys == Uncounted(counts, targets)
  {
    forall h ensures h in upload <==> h in Uncounted(counts, targets) { AsIncrementsKeys(incs, h); }
  }

  lemma {:induction false} CountingSteps(
      cfg: Config, st0: Store, st1: Store, st2: Store, ino: Ino, targets: Targets, data: map<Hash, Block>)
    requires WellFormedWrite(cfg, ino, targets, data)
    requires st1 == st0.(counts := Incremented(st0.counts, Increments(targets))) && st2 == st1.(blocks := st2.blocks)
    requires forall h :: Lookup(st2.blocks, h) == if h in Uncounted(st0.counts, targets) && h in data then Some(data[h])
                                                  else Lookup(st1.blocks, h)
    ensures st2 == AfterCounting(cfg, st0, ino, targets, data)
  {
    var e, owed := Advance(0), Uncounted(st0.counts, targets);
    var s0 := Sys(st0, [Prepared(ino, targets, data)], 0);
    var s1 := Sys(st1, [Counted(ino, targets, data, owed)], 0);
    CountingStep(cfg, st0, ino, targets, data);
    UploadStep(cfg, st1, ino, targets, data, owed);
    forall h | h in owed ensures h in data { IncrementsCount(targets, h); }
    SameUpload(st1.blocks, st2.blocks, data, owed);
    ExecThrough(cfg, [e, e], [s0, s1, Apply(cfg, s1, e)]);
  }

  lemma SameUpload(before: map<Hash, Block>, after: map<Hash, Block>, data: map<Hash, Block>, owed: set<Hash>)
    requires forall h | h in owed :: h in data
    requires forall h :: Lookup(after, h) == if h in owed then Some(data[h]) else Lookup(before, h)
    ensures after == before + map h | h in owed :: data[h]
  {
    SameLookups(after, before + map h | h in owed :: data[h]);
  }

  lemma CountingStep(cfg: Config, st: Store, ino: Ino, targets: Targets, data: map<Hash, Block>)
    requires WellFormedWrite(cfg, ino, targets, data)
    ensures Apply(cfg, Sys(st, [Prepared(ino, targets, data)], 0), Advance(0)) ==
            Sys(st.(counts := Incremented(st.counts, Increments(targets))),
                [Counted(ino, targets, data, Uncounted(st.counts, targets))], 0)
  {
    var op, op' := Prepared(ino, targets, data), Counted(ino, targets, data, Uncounted(st.counts, targets));
    assert [op][0 := op'] == [op'];
  }

  lemma UploadStep(cfg: Config, st: Store, ino: Ino, targets: Targets, data: map<Hash, Block>, owed: set<Hash>)
    requires WellFormedWrite(cfg, ino, targets, data) && owed <= Increments(targets).Keys
    requires forall h | h in owed :: h in data
    ensures Apply(cfg, Sys(st, [Counted(ino, targets, data, owed)], 0), Advance(0)) ==
            Sys(st.(blocks := st.blocks + map h | h in owed :: data[h]), [Uploaded(ino, targets, data)], 0)
  {
    assert [Counted(ino, targets, data, owed)][0 := Uploaded(ino, targets, data)] == [Uploaded(ino, targets, data)];
  }

  // ---------------------------------------------------------------------------
  // Registering new hashes for a file

  // Blocks as the write path lists them: hash, length, block indexes.
  type BlockList = seq<(Hash, nat, seq<nat>)>

  // The addresses to modify, in list order.
  function AddressList(ino: Ino, blocks: BlockList): seq<(BlockAddress, Option<Hash>)> {
    if blocks == [] then []
    else
      var (h, _, ids) := blocks[|blocks| - 1];
      AddressList(ino, blocks[..|blocks| - 1]) + AddressesOf(ino, ids, h)
  }

  // One address per block index.
  function AddressesOf(ino: Ino, ids: seq<nat>, h: Hash): (r: seq<(BlockAddress, Option<Hash>)>)
    ensures |r| == |ids| && forall i | 0 <= i < |ids| :: r[i] == (BlockAddress(ino, ids[i]), Some(h))
  {
    if ids == [] then [] else AddressesOf(ino, ids[..|ids| - 1], h) + [(BlockAddress(ino, ids[|ids| - 1]), Some(h))]
  }

  ghost predicate IsEnd(blocks: BlockList, blockSize: nat, end: nat) {
    exists b, i :: 0 <= b < |blocks| && 0 <= i < |blocks[b].2| && end == blocks[b].2[i] * blockSize + blocks[b].1
  }

  // Collects the addresses and the file size they need.
  method CollectAddresses(ino: Ino, blocks: BlockList, blockSize: nat)
    returns (addresses: seq<(BlockAddress, Option<Hash>)>, maxFileSize: nat)
    ensures addresses == AddressList(ino, blocks)
    ensures forall b, i | 0 <= b < |blocks| && 0 <= i < |blocks[b].2| ::
              blocks[b].2[i] * blockSize + blocks[b].1 <= maxFileSize
    ensures maxFileSize == 0 || IsEnd(blocks, blockSize, maxFileSize)
  {
    addresses, maxFileSize := [], 0;
    var n := 0;
    while n < |blocks|
      invariant 0 <= n <= |blocks|
      invariant addresses == AddressList(ino, blocks[..n])
      invariant forall b, i | 0 <= b < n && 0 <= i < |blocks[b].2| ::
                  blocks[b].2[i] * blockSize + blocks[b].1 <= maxFileSize
      invariant maxFileSize == 0 || IsEnd(blocks, blockSize, maxFileSize)
    {
      var (h, len, ids) := blocks[n];
      ghost var before := addresses;
      var k := 0;
      while k < |ids|
        invariant 0 <= k <= |ids|
        invariant addresses == before + AddressesOf(ino, ids[..k], h)
        invariant forall b, i | 0 <= b < n && 0 <= i < |blocks[b].2| ::
                    blocks[b].2[i] * blockSize + blocks[b].1 <= maxFileSize
        invariant forall i | 0 <= i < k :: ids[i] * blockSize + len <= maxFileSize
        invariant maxFileSize == 0 || IsEnd(blocks, blockSize, maxFileSize)
      {
        addresses := addresses + [(BlockAddress(ino, ids[k]), Some(h))];
        assert ids[..k + 1][..k] == ids[..k];
        if maxFileSize < ids[k] * blockSize + len {
          maxFileSize := ids[k] * blockSize + len;
          assert blocks[n].2[k] == ids[k];
        }
        k := k + 1;
      }
      assert ids[..k] == ids;
      assert blocks[..n + 1][..n] == blocks[..n];
      n := n + 1;
    }
    assert blocks[..n] == blocks;
  }

  lemma {:induction false} AsTargetsLookup(addresses: seq<(BlockAddress, Option<Hash>)>, k: nat)
    requires DistinctAddrs(addresses) && k < |addresses|
    ensures addresses[k].0 in AsTargets(addresses) && AsTargets(addresses)[addresses[k].0] == addresses[k].1
  {
    var n := |addresses| - 1;
    if k < n {
      AsTargetsLookup(addresses[..n], k);
    }
  }

  lemma {:induction false} AddressListCovers(ino: Ino, blocks: BlockList, b: nat, i: nat)
    requires b < |blocks| && i < |blocks[b].2|
    ensures (BlockAddress(ino, blocks[b].2[i]), Some(blocks[b].0)) in AddressList(ino, blocks)
  {
    var n := |blocks| - 1;
    if b < n {
      AddressListCovers(ino, blocks[..n], b, i);
    } else {
      var ids := blocks[n].2;
      var last := AddressesOf(ino, ids, blocks[n].0);
      assert last[i] in last;
    }
  }

  lemma {:induction false} AddressListOnly(ino: Ino, blocks: BlockList, k: nat) returns (b: nat, i: nat)
    requires k < |AddressList(ino, blocks)|
    ensures b < |blocks| && i < |blocks[b].2|
    ensures AddressList(ino, blocks)[k] == (BlockAddress(ino, blocks[b].2[i]), Some(blocks[b].0))
  {
    var n := |blocks| - 1;
    var front := AddressList(ino, blocks[..n]);
    if k < |front| {
      b, i := AddressListOnly(ino, blocks[..n], k);
    } else {
      b, i := n, k - |front|;
    }
  }

  // The size that the loop collects is the one the protocol works with.
  lemma {:induction false} CollectedIsMaxEnd(cfg: Config, ino: Ino, blocks: BlockList, data: map<Hash, Block>, end: nat)
    requires DistinctAddrs(AddressList(ino, blocks))
    requires WellFormedWrite(cfg, ino, AsTargets(AddressList(ino, blocks)), data)
    requires forall b | 0 <= b < |blocks| :: blocks[b].0 in data && |data[blocks[b].0]| == blocks[b].1
    requires forall b, i | 0 <= b < |blocks| && 0 <= i < |blocks[b].2| ::
               blocks[b].2[i] * cfg.blockSize + blocks[b].1 <= end
    requires end == 0 || IsEnd(blocks, cfg.blockSize, end)
    ensures var targets := AsTargets(AddressList(ino, blocks)); end == MaxEnd(cfg, targets.Keys, targets, data)
  {
    var addresses := AddressList(ino, blocks);
    var targets := AsTargets(addresses);
    var max := MaxEnd(cfg, targets.Keys, targets, data);
    if targets.Keys != {} {
      var a :| a in targets && max == a.index * cfg.blockSize + |data[targets[a].value]|;
      AsTargetsKeys(addresses, a);
      var k :| 0 <= k < |addresses| && addresses[k].0 == a;
      AsTargetsLookup(addresses, k);
      var b, i := AddressListOnly(ino, blocks, k);
    }
    if end != 0 {
      var b, i :| 0 <= b < |blocks| && 0 <= i < |blocks[b].2| && end == blocks[b].2[i] * cfg.blockSize + blocks[b].1;
      AddressListCovers(ino, blocks, b, i);
      var k :| 0 <= k < |addresses| && addresses[k] == (BlockAddress(ino, blocks[b].2[i]), Some(blocks[b].0));
      AsTargetsLookup(addresses, k);
    }
  }

  // The store after the three protocol steps that follow the upload.
  ghost function AfterUpload(cfg: Config, st: Store, ino: Ino, targets: Targets, data: map<Hash, Block>): Store {
    Exec(cfg, Sys(st, [Uploaded(ino, targets, data)], 0), [Advance(0), Advance(0), Advance(0)]).st
  }

  // Replace, raise the size, decrement: run alone, the code does the three steps that
  // the protocol takes after the upload.  A displaced hash of the wrong length stops it
  // before anything is written; a missing size stops it after the mappings were
  // replaced, and the displaced references stay counted.
  method WriteHashBlocksToAddresses(
      kv: KvStore, cfg: Config, ino: Ino, blocks: BlockList, hashLen: nat, ghost data: map<Hash, Block>)
    returns (ok: bool)
    requires DistinctAddrs(AddressList(ino, blocks))
    requires WellFormedWrite(cfg, ino, AsTargets(AddressList(ino, blocks)), data)
    requires forall b | 0 <= b < |blocks| :: blocks[b].0 in data && |data[blocks[b].0]| == blocks[b].1
    modifies kv
    ensures ok ==>
      kv.View() == AfterUpload(cfg, old(kv.View()), ino, AsTargets(AddressList(ino, blocks)), data)
    ensures var targets := AsTargets(AddressList(ino, blocks));
            && (ok <==> !SomeWrongLength(old(kv.mapping), targets, hashLen) && ino in old(kv.sizes))
            && (!ok ==> kv.View() == old(kv.View()).(mapping := kv.mapping))
            && (!ok ==> kv.mapping == if SomeWrongLength(old(kv.mapping), targets, hashLen) then old(kv.mapping)
                                      else ReplacedMapping(old(kv.mapping), targets))
  {
    ghost var st0 := kv.View();
    ghost var targets := AsTargets(AddressList(ino, blocks));
    var addresses, maxFileSize := CollectAddresses(ino, blocks, cfg.blockSize);
    CollectedIsMaxEnd(cfg, ino, blocks, data, maxFileSize);
    var decs := kv.ReplaceBlockHashes(addresses, hashLen);
    if decs.None? { return false; }
    ghost var st1 := kv.View();
    assert st1 == st0.(mapping := ReplacedMapping(st0.mapping, targets));
    ok := kv.RaiseSize(ino, maxFileSize);
    if !ok { return; }
    ghost var st2 := kv.View();
    kv.DecrementAndDelete(decs.value);
    ThreeSteps(cfg, ino, targets, data, st0, st1, st2);
  }

  lemma {:induction false} ThreeSteps(
      cfg: Config, ino: Ino, targets: Targets, data: map<Hash, Block>, st0: Store, st1: Store, st2: Store)
    requires WellFormedWrite(cfg, ino, targets, data) && ino in st0.sizes
    requires st1 == st0.(mapping := ReplacedMapping(st0.mapping, targets))
    requires var max := MaxEnd(cfg, targets.Keys, targets, data);
             st2 == if st1.sizes[ino] < max then st1.(sizes := st1.sizes[ino := max]) else st1
    ensures AfterUpload(cfg, st0, ino, targets, data) == Decremented(st2, Displaced(st0.mapping, targets))
  {
    var decs := Displaced(st0.mapping, targets);
    var max := MaxEnd(cfg, targets.Keys, targets, data);
    DisplacedIsPositive(st0.mapping, targets);
    ReplaceStep(cfg, st0, ino, targets, data);
    SizeStep(cfg, st1, ino, max, decs);
    DecrementStep(cfg, st2, decs);
    var s0, s1 := Sys(st0, [Uploaded(ino, targets, data)], 0), Sys(st1, [Replaced(ino, max, decs)], 0);
    var s2 := Sys(st2, [Displacing(decs)], 0);
    var e := Advance(0);
    ExecThrough(cfg, [e, e, e], [s0, s1, s2, Apply(cfg, s2, e)]);
  }

  lemma {:induction false} ReplaceStep(cfg: Config, st: Store, ino: Ino, targets: Targets, data: map<Hash, Block>)
    requires WellFormedWrite(cfg, ino, targets, data)
    ensures Apply(cfg, Sys(st, [Uploaded(ino, targets, data)], 0), Advance(0)) ==
            Sys(st.(mapping := ReplacedMapping(st.mapping, targets)),
                [Replaced(ino, MaxEnd(cfg, targets.Keys, targets, data), Displaced(st.mapping, targets))], 0)
  {
    var op := Uploaded(ino, targets, data);
    var op' := Replaced(ino, MaxEnd(cfg, targets.Keys, targets, data), Displaced(st.mapping, targets));
    assert [op][0 := op'] == [op'];
  }

  lemma SizeStep(cfg: Config, st: Store, ino: Ino, max: nat, decs: map<Hash, nat>)
    requires ino in st.sizes && forall h | h in decs :: decs[h] > 0
    ensures Apply(cfg, Sys(st, [Replaced(ino, max, decs)], 0), Advance(0)) ==
            Sys(if st.sizes[ino] < max then st.(sizes := st.sizes[ino := max]) else st, [Displacing(decs)], 0)
  {
    assert st.sizes[ino := st.sizes[ino]] == st.sizes;
    assert [Replaced(ino, max, decs)][0 := Displacing(decs)] == [Displacing(decs)];
  }

  lemma DecrementStep(cfg: Config, st: Store, decs: map<Hash, nat>)
    requires forall h | h in decs :: decs[h] > 0
    ensures Apply(cfg, Sys(st, [Displacing(decs)], 0), Advance(0)).st == Decremented(st, decs)
  {
  }

  // ---------------------------------------------------------------------------
  // Clearing a block

  // Run alone, clearing one block is the protocol's clear; a hash of the wrong length stops
  // it before anything is written.
  method HbClearDataSingleBlock(kv: KvStore, cfg: Config, addr: BlockAddress, hashLen: nat) returns (ok: bool)
    modifies kv
    ensures ok <==> addr !in old(kv.mapping) || |old(kv.mapping)[addr]| == hashLen
    ensures kv.View() == if ok then Exec(cfg, Sys(old(kv.View()), [], 0), OneClear(0, addr)).st else old(kv.View())
  {
    ghost var st := kv.View();
    var none: Option<Hash> := None;
    assert AsTargets([(addr, none)]) == map[addr := None] by { assert [(addr, none)][..0] == []; }
    var decs := kv.ReplaceBlockHashes([(addr, none)], hashLen);
    ok := decs.Some?;
    if ok {
      ClearSteps(cfg, st, addr);
      kv.DecrementAndDelete(decs.value);
    }
  }

  lemma {:induction false} ClearSteps(cfg: Config, st: Store, addr: BlockAddress)
    ensures Exec(cfg, Sys(st, [], 0), OneClear(0, addr)).st ==
            Decremented(st.(mapping := ReplacedMapping(st.mapping, map[addr := None])),
                        Displaced(st.mapping, map[addr := None]))
  {
    var targets: Targets := map[addr := None];
    var decs := Displaced(st.mapping, targets);
    var e, s0 := Advance(0), Sys(st, [], 0);
    var s1 := Sys(st, [Clearing(addr)], 0);
    var s2 := Sys(st.(mapping := ReplacedMapping(st.mapping, targets)), [Displacing(decs)], 0);
    DisplacedIsPositive(st.mapping, targets);
    assert s1.ops[0 := Displacing(decs)] == s2.ops;
    DecrementStep(cfg, s2.st, decs);
    ExecThrough(cfg, OneClear(0, addr), [s0, s1, s2, Apply(cfg, s2, e)]);
  }
}
