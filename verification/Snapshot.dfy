// Copying the directory tree for a snapshot (src/fs/snapshot.rs).
//
// The source is read at one frozen point in time; the destination is the live store,
// written here by nobody else.
module Snapshot {
  import opened Types
  import opened Arith
  import opened RefCount
  import opened FileContent
  import D = Directory

  type Place = D.Place
  type Item = D.Item
  type Name = D.Name
  type Child = (Name, Item)

  datatype Source = Source(
    entries: map<Place, Item>,
    descs: map<Ino, D.ItemKind>,
    sizes: map<Ino, nat>,
    inline: map<Ino, seq<Byte>>,
    mapping: map<BlockAddress, Hash>)

  // What the snapshot writes.
  datatype Target = Target(
    entries: map<Place, Item>,
    links: set<D.Link>,
    descs: map<Ino, D.ItemKind>,
    sizes: map<Ino, nat>,
    inline: map<Ino, seq<Byte>>,
    counts: map<Hash, nat>,
    mapping: map<BlockAddress, Hash>,
    inodeNext: Ino)

  // ---------------------------------------------------------------------------
  // Listing a directory

  function ChildPlaces(entries: map<Place, Item>, dir: Ino): set<Place> {
    set p | p in entries && p.parent == dir
  }

  ghost predicate DistinctNames(list: seq<Child>) {
    forall i, j | 0 <= i < j < |list| :: list[i].0 != list[j].0
  }

  ghost predicate AreChildren(entries: map<Place, Item>, dir: Ino, list: seq<Child>) {
    forall i | 0 <= i < |list| :: Lookup(entries, D.Place(dir, list[i].0)) == Some(list[i].1)
  }

  ghost predicate HasName(list: seq<Child>, name: Name) {
    exists i | 0 <= i < |list| :: list[i].0 == name
  }

  // Every child once, in some order.
  ghost predicate IsListing(entries: map<Place, Item>, dir: Ino, list: seq<Child>) {
    && AreChildren(entries, dir, list) && DistinctNames(list)
    && (forall p | p in entries && p.parent == dir :: HasName(list, p.name))
  }

  method DirectoryScanForChildren(entries: map<Place, Item>, dir: Ino, limit: nat) returns (list: seq<Child>)
    ensures AreChildren(entries, dir, list) && DistinctNames(list)
    ensures |list| == Min(limit, |ChildPlaces(entries, dir)|)
    ensures |ChildPlaces(entries, dir)| <= limit ==> IsListing(entries, dir, list)
  {
    var todo := ChildPlaces(entries, dir);
    list := [];
    while todo != {} && |list| < limit
      invariant todo <= ChildPlaces(entries, dir) && |list| <= limit
      invariant |todo| + |list| == |ChildPlaces(entries, dir)|
      invariant AreChildren(entries, dir, list) && DistinctNames(list)
      invariant forall i | 0 <= i < |list| :: D.Place(dir, list[i].0) !in todo
      invariant forall p | p in ChildPlaces(entries, dir) - todo :: HasName(list, p.name)
    {
      var p :| p in todo;
      ghost var before, n := list, |list|;
      todo, list := todo - {p}, list + [(p.name, entries[p])];
      assert list[n].0 == p.name && forall i | 0 <= i < n :: list[i] == before[i];
      forall name | HasName(before, name) ensures HasName(list, name) {
        var i :| 0 <= i < n && before[i].0 == name;
        assert list[i].0 == name;
      }
    }
  }

  // ---------------------------------------------------------------------------
  // One directory

  // The first `n` children linked under the destination with consecutive numbers.
  function Linked(entries: map<Place, Item>, dst: Ino, list: seq<Child>, first: Ino, n: nat): map<Place, Item>
    requires n <= |list|
  {
    if n == 0 then entries
    else
      var (name, item) := list[n - 1];
      Linked(entries, dst, list, first, n - 1)[D.Place(dst, name) := D.Item(first + (n - 1), item.kind)]
  }

  // Position of the first child with the same inode.
  function FirstOf(list: seq<Child>, ino: Ino): (i: nat)
    ensures i <= |list|
    ensures i < |list| ==> list[i].1.ino == ino
    ensures forall j | 0 <= j < i :: list[j].1.ino != ino
  {
    if list == [] || list[0].1.ino == ino then 0 else 1 + FirstOf(list[1..], ino)
  }

  // Values are taken out of the fetched map, so only the first of several links to
  // one inode gets them.
  function Taken<V>(from: map<Ino, V>, base: map<Ino, V>, list: seq<Child>, first: Ino, n: nat): map<Ino, V>
    requires n <= |list|
  {
    if n == 0 then base
    else
      var ino := list[n - 1].1.ino;
      var before := Taken(from, base, list, first, n - 1);
      if ino in from && FirstOf(list, ino) == n - 1 then before[first + (n - 1) := from[ino]] else before
  }

  // Values that stay in the fetched map.
  function Shared<V>(from: map<Ino, V>, base: map<Ino, V>, list: seq<Child>, first: Ino, n: nat): map<Ino, V>
    requires n <= |list|
  {
    if n == 0 then base
    else
      var ino := list[n - 1].1.ino;
      var before := Shared(from, base, list, first, n - 1);
      if ino in from then before[first + (n - 1) := from[ino]] else before
  }

  // The hashes of a file up to one block beyond its size.
  function SourceHashes(src: Source, blockSize: nat, ino: Ino): map<nat, Hash>
    requires blockSize > 0 && ino in src.sizes
  {
    var hashes := FileHashes(src.mapping, ino);
    map k | k in hashes && k < 1 + CeilDiv(src.sizes[ino], blockSize) :: hashes[k]
  }

  function NewLinks(dst: Ino, list: seq<Child>, first: Ino, n: nat): set<D.Link>
    requires n <= |list|
  {
    if n == 0 then {} else NewLinks(dst, list, first, n - 1) + {D.Link(first + (n - 1), D.Place(dst, list[n - 1].0))}
  }

  // The link transaction.
  function AfterLinks(t: Target, dst: Ino, list: seq<Child>, first: Ino): Target {
    t.(entries := Linked(t.entries, dst, list, first, |list|), links := t.links + NewLinks(dst, list, first, |list|))
  }

  // The attribute transaction.
  function AfterAttrs(src: Source, t: Target, list: seq<Child>, first: Ino): Target {
    t.(descs := Taken(src.descs, t.descs, list, first, |list|),
       inline := Taken(src.inline, t.inline, list, first, |list|),
       sizes := Shared(src.sizes, t.sizes, list, first, |list|))
  }

  // Counting and mapping the blocks of one file.
  function AfterFile(t: Target, dst: Ino, hashes: map<nat, Hash>): Target {
    var targets := FileTargets(dst, hashes);
    t.(counts := Incremented(t.counts, Increments(targets)), mapping := ReplacedMapping(t.mapping, targets))
  }

  // The hashes to copy, by inode; only inodes with a size have any.
  type Plan = map<Ino, map<nat, Hash>>

  function PlanFor(src: Source, blockSize: nat): Plan
    requires blockSize > 0
  {
    map ino | ino in src.sizes :: SourceHashes(src, blockSize, ino)
  }

  // No block of the file is mapped more than one block beyond its size.
  predicate WithinSize(src: Source, blockSize: nat, ino: Ino)
    requires blockSize > 0 && ino in src.sizes
  {
    forall k | k in FileHashes(src.mapping, ino) :: k <= CeilDiv(src.sizes[ino], blockSize)
  }

  // The plan for a file is all of its hashes exactly then.
  lemma PlanIsWholeIff(src: Source, blockSize: nat, ino: Ino)
    requires blockSize > 0 && ino in src.sizes
    ensures PlanFor(src, blockSize)[ino] == FileHashes(src.mapping, ino) <==> WithinSize(src, blockSize, ino)
  {
    var hashes := FileHashes(src.mapping, ino);
    if WithinSize(src, blockSize, ino) {
      assert SourceHashes(src, blockSize, ino) == hashes;
    } else {
      var k :| k in hashes && !(k <= CeilDiv(src.sizes[ino], blockSize));
      assert k !in SourceHashes(src, blockSize, ino);
    }
  }

  // A store without a write in flight keeps all files within their sizes.
  lemma StoreIsWithinSize(cfg: Config, s: Sys, src: Source, ino: Ino)
    requires cfg.blockSize > 0 && MappedIsCovered(cfg, s) && forall i | 0 <= i < |s.ops| :: !s.ops[i].Replaced?
    requires src.mapping == s.st.mapping && src.sizes == s.st.sizes && ino in src.sizes
    ensures WithinSize(src, cfg.blockSize, ino)
  {
    forall k | k in FileHashes(src.mapping, ino) ensures k <= CeilDiv(src.sizes[ino], cfg.blockSize) {
      FileHashAt(src.mapping, ino, k);
      assert SizeCovers(cfg, s, BlockAddress(ino, k));
      BelowCeilDiv(k, src.sizes[ino], cfg.blockSize);
    }
  }

  // For instance, a write of the third block of an empty file, between its replacement and
  // its size update: the hash is not among those that a snapshot reads.
  lemma {:induction false} BeyondSizeBetweenSteps(cfg: Config, b: Block) returns (events: seq<Event>)
    requires cfg.blockSize > 0 && b != []
    ensures var st := Exec(cfg, Empty, events).st;
            st.sizes == map[0 := 0] && FileHashes(st.mapping, 0) == map[2 := cfg.digest(b)]
    ensures forall src: Source | src.mapping == Exec(cfg, Empty, events).st.mapping && src.sizes == map[0 := 0] ::
              !WithinSize(src, cfg.blockSize, 0) && SourceHashes(src, cfg.blockSize, 0) == map[]
  {
    events := HashesOfNewFile(cfg, map[2 := cfg.digest(b)], map[cfg.digest(b) := b]);
    forall src: Source | src.mapping == Exec(cfg, Empty, events).st.mapping && src.sizes == map[0 := 0]
      ensures !WithinSize(src, cfg.blockSize, 0) && SourceHashes(src, cfg.blockSize, 0) == map[]
    {
      ThirdBlockIsBeyond(src, cfg.blockSize, cfg.digest(b));
    }
  }

  lemma {:induction false} HashesOfNewFile(cfg: Config, assign: map<nat, Hash>, data: map<Hash, Block>)
    returns (events: seq<Event>)
    requires forall k | k in assign :: assign[k] in data
    requires forall h | h in data :: cfg.digest(data[h]) == h && data[h] != []
    ensures var st := Exec(cfg, Empty, events).st; st.sizes == map[0 := 0] && FileHashes(st.mapping, 0) == assign
  {
    var created := Apply(cfg, Empty, CreateFile);
    var later := HashesWritten(cfg, created, assign, data);
    events := [CreateFile] + later;
    FirstStep(cfg, Empty, CreateFile, later);
  }

  lemma {:induction false} HashesWritten(cfg: Config, s: Sys, assign: map<nat, Hash>, data: map<Hash, Block>)
    returns (events: seq<Event>)
    requires 0 < s.nextIno && s.st.mapping == map[]
    requires forall k | k in assign :: assign[k] in data
    requires forall h | h in data :: cfg.digest(data[h]) == h && data[h] != []
    ensures var st := Exec(cfg, s, events).st; st.sizes == s.st.sizes && FileHashes(st.mapping, 0) == assign
  {
    var targets := FileTargets(0, assign);
    FileTargetsAssign(0, assign);
    forall a | a in targets ensures targets[a] == Some(assign[a.index]) { assert a == BlockAddress(0, a.index); }
    events := RunUntilReplaced(cfg, s, 0, targets, data);
    FirstHashes(targets, assign);
  }

  lemma FirstHashes(targets: Targets, assign: map<nat, Hash>)
    requires Assigns(targets, 0, assign)
    ensures FileHashes(ReplacedMapping(map[], targets), 0) == assign
  {
    FileHashesAfterReplace(map[], targets, 0, assign);
    assert FileHashes(map[], 0) + assign == assign;
  }

  lemma ThirdBlockIsBeyond(src: Source, blockSize: nat, h: Hash)
    requires blockSize > 0 && src.sizes == map[0 := 0] && FileHashes(src.mapping, 0) == map[2 := h]
    ensures !WithinSize(src, blockSize, 0) && SourceHashes(src, blockSize, 0) == map[]
  {
    NothingWithinEmptySize(blockSize);
    assert 2 in FileHashes(src.mapping, 0);
  }

  lemma NothingWithinEmptySize(blockSize: nat)
    requires blockSize > 0
    ensures CeilDiv(0, blockSize) == 0
  {
    DivModUnique(blockSize - 1, blockSize, 0, blockSize - 1);
  }

  // Only the blocks of files are copied.
  function HashesFor(plan: Plan, item: Item): Option<map<nat, Hash>> {
    if item.kind == D.File && item.ino in plan then Some(plan[item.ino]) else None
  }

  function ToCopy(plan: Plan, list: seq<Child>): (r: seq<Option<map<nat, Hash>>>)
    ensures |r| == |list| && forall i | 0 <= i < |list| :: r[i] == HashesFor(plan, list[i].1)
  {
    if list == [] then [] else ToCopy(plan, list[..|list| - 1]) + [HashesFor(plan, list[|list| - 1].1)]
  }

  // ---------------------------------------------------------------------------
  // What one directory copy does

  ghost predicate DistinctInos(list: seq<Child>) {
    forall i, j | 0 <= i < j < |list| :: list[i].1.ino != list[j].1.ino
  }

  lemma {:induction false} LinkedAt(entries: map<Place, Item>, dst: Ino, list: seq<Child>, first: Ino, n: nat, p: Place)
    requires DistinctNames(list) && n <= |list|
    ensures (p.parent != dst || forall i | 0 <= i < n :: list[i].0 != p.name) ==>
              Lookup(Linked(entries, dst, list, first, n), p) == Lookup(entries, p)
    ensures forall i: nat | i < n && p == D.Place(dst, list[i].0) ::
              Lookup(Linked(entries, dst, list, first, n), p) == Some(D.Item(first + i, list[i].1.kind))
  {
    if n > 0 { LinkedAt(entries, dst, list, first, n - 1, p); }
  }

  lemma {:induction false} TakenAt<V>(
      from: map<Ino, V>, base: map<Ino, V>, list: seq<Child>, first: Ino, n: nat, k: Ino)
    requires n <= |list|
    ensures Lookup(Taken(from, base, list, first, n), k) ==
            if first <= k < first + n && list[k - first].1.ino in from
               && FirstOf(list, list[k - first].1.ino) == k - first
            then Some(from[list[k - first].1.ino]) else Lookup(base, k)
  {
    if n > 0 { TakenAt(from, base, list, first, n - 1, k); }
  }

  lemma {:induction false} SharedAt<V>(
      from: map<Ino, V>, base: map<Ino, V>, list: seq<Child>, first: Ino, n: nat, k: Ino)
    requires n <= |list|
    ensures Lookup(Shared(from, base, list, first, n), k) ==
            if first <= k < first + n && list[k - first].1.ino in from then Some(from[list[k - first].1.ino])
            else Lookup(base, k)
  {
    if n > 0 { SharedAt(from, base, list, first, n - 1, k); }
  }

  // Of several links to one inode in a directory, exactly the first copy is described.
  lemma {:induction false} DescribedIffFirstLink(
      src: Source, descs: map<Ino, D.ItemKind>, list: seq<Child>, first: Ino, i: nat)
    requires i < |list| && first + i !in descs
    ensures first + i in Taken(src.descs, descs, list, first, |list|) <==>
            list[i].1.ino in src.descs && FirstOf(list, list[i].1.ino) == i
  {
    TakenAt(src.descs, descs, list, first, |list|, first + i);
  }

  // For instance, the second of two links to one inode.
  lemma {:induction false} SecondLinkIsNotDescribed(src: Source, item: Item, name: Name, other: Name, first: Ino)
    ensures first + 1 !in Taken(src.descs, map[], [(name, item), (other, item)], first, 2)
  {
    var list := [(name, item), (other, item)];
    assert FirstOf(list, item.ino) == 0;
    TakenAt(src.descs, map[], list, first, 2, first + 1);
  }

  lemma {:induction false} FirstOfDistinct(list: seq<Child>, i: nat)
    requires DistinctInos(list) && i < |list|
    ensures FirstOf(list, list[i].1.ino) == i
  {
  }

  // Counting and mapping the blocks of one file onto a fresh inode keeps every counter
  // in step with the mappings.
  lemma FileCloneIsBalanced(t: Target, dst: Ino, hashes: map<nat, Hash>, h: Hash)
    requires forall a | a in t.mapping :: a.ino != dst
    ensures var t' := AfterFile(t, dst, hashes); Excess(t'.counts, t'.mapping, h) == Excess(t.counts, t.mapping, h)
  {
    var targets := FileTargets(dst, hashes);
    FileTargetsAssign(dst, hashes);
    assert DisplacedAddrs(t.mapping, targets, h) == {};
    ReplaceTrades(t.mapping, targets, h);
    IncrementsCount(targets, h);
  }

  // The new file has the given hashes, the others keep theirs.
  lemma CloneAt(mapping: map<BlockAddress, Hash>, dst: Ino, hashes: map<nat, Hash>, a: BlockAddress)
    requires forall b | b in mapping :: b.ino != dst
    ensures Lookup(ReplacedMapping(mapping, FileTargets(dst, hashes)), a) ==
            if a.ino == dst then Lookup(hashes, a.index) else Lookup(mapping, a)
  {
    FileTargetsAssign(dst, hashes);
    if a.ino == dst && a.index in hashes { assert a == BlockAddress(dst, a.index); }
  }

  function CopyOf(hashes: Option<map<nat, Hash>>): map<nat, Hash> {
    if hashes.Some? then hashes.value else map[]
  }

  // The inodes from `first` on have these hashes, the earlier ones keep theirs, and
  // every counter moved as its mappings did.
  ghost predicate FilesMapped(t: Target, t': Target, first: Ino, files: seq<Option<map<nat, Hash>>>) {
    && t' == t.(counts := t'.counts, mapping := t'.mapping)
    && (forall a | a in t'.mapping :: a.ino < first + |files|)
    && (forall a: BlockAddress | a.ino < first + |files| ::
          Lookup(t'.mapping, a) ==
          if a.ino < first then Lookup(t.mapping, a) else Lookup(CopyOf(files[a.ino - first]), a.index))
    && (forall h :: Excess(t'.counts, t'.mapping, h) == Excess(t.counts, t.mapping, h))
  }

  lemma FileMapped(t: Target, dst: Ino, hashes: map<nat, Hash>)
    requires forall a | a in t.mapping :: a.ino < dst
    ensures FilesMapped(t, AfterFile(t, dst, hashes), dst, [Some(hashes)])
  {
    var t' := AfterFile(t, dst, hashes);
    forall a: BlockAddress
      ensures a in t'.mapping ==> a.ino <= dst
      ensures Lookup(t'.mapping, a) == if a.ino == dst then Lookup(hashes, a.index) else Lookup(t.mapping, a)
    {
      CloneAt(t.mapping, dst, hashes, a);
    }
    forall h { FileCloneIsBalanced(t, dst, hashes, h); }
  }

  lemma NothingMapped(t: Target, first: Ino, files: seq<Option<map<nat, Hash>>>)
    requires forall a | a in t.mapping :: a.ino < first
    ensures FilesMapped(t, t, first, files[..0])
  {
  }

  lemma NoFileMapped(t: Target, dst: Ino)
    requires forall a | a in t.mapping :: a.ino < dst
    ensures FilesMapped(t, t, dst, [None])
  {
  }

  lemma MappedInTurn(
      t: Target, t': Target, t'': Target, first: Ino, files: seq<Option<map<nat, Hash>>>, file: Option<map<nat, Hash>>)
    requires FilesMapped(t, t', first, files) && FilesMapped(t', t'', first + |files|, [file])
    ensures FilesMapped(t, t'', first, files + [file])
  {
  }

  // ---------------------------------------------------------------------------
  // The copying object

  class CreateSnapshot {
    const src: Source
    const blockSize: nat
    ghost const plan: Plan
    var t: Target

    constructor (src: Source, blockSize: nat, t: Target)
      requires blockSize > 0
      ensures Planned() && this.src == src && this.blockSize == blockSize && this.t == t
    {
      this.src, this.blockSize, this.t := src, blockSize, t;
      plan := PlanFor(src, blockSize);
    }

    ghost predicate Planned() {
      blockSize > 0 && plan == PlanFor(src, blockSize)
    }

    // Nothing uses the reserved numbers, and everything in use stays below the counter.
    method ReserveNewInos(count: nat) returns (first: Ino)
      modifies this
      ensures first == old(t.inodeNext) && t == old(t).(inodeNext := first + count)
      ensures WellNumbered(old(t)) ==> WellNumbered(t) && forall ino | first <= ino < first + count :: Unused(t, ino)
    {
      first := t.inodeNext;
      t := t.(inodeNext := first + count);
    }

    method LinkChildren(dst: Ino, list: seq<Child>, first: Ino)
      modifies this
      ensures t == AfterLinks(old(t), dst, list, first)
    {
      ghost var before := t;
      for n := 0 to |list|
        invariant t == before.(entries := Linked(before.entries, dst, list, first, n),
                               links := before.links + NewLinks(dst, list, first, n))
      {
        var (name, item) := list[n];
        var place := D.Place(dst, name);
        t := t.(links := t.links + {D.Link(first + n, place)},
                entries := t.entries[place := D.Item(first + n, item.kind)]);
      }
    }

    // Descriptions and inline data are taken out of the fetched maps as they are
    // written, sizes stay in theirs.
    method InodeCloneAttrs(list: seq<Child>, first: Ino)
      modifies this
      ensures t == AfterAttrs(src, old(t), list, first)
    {
      ghost var before := t;
      var descs, inline := src.descs, src.inline;
      for n := 0 to |list|
        invariant t == before.(descs := Taken(src.descs, before.descs, list, first, n),
                               inline := Taken(src.inline, before.inline, list, first, n),
                               sizes := Shared(src.sizes, before.sizes, list, first, n))
        invariant Remaining(src.descs, descs, list, n) && Remaining(src.inline, inline, list, n)
      {
        var ino := list[n].1.ino;
        TakenNext(src.descs, descs, before.descs, list, first, n);
        TakenNext(src.inline, inline, before.inline, list, first, n);
        if ino in descs {
          t := t.(descs := t.descs[first + n := descs[ino]]);
        }
        if ino in inline {
          t := t.(inline := t.inline[first + n := inline[ino]]);
        }
        descs, inline := descs - {ino}, inline - {ino};
        if ino in src.sizes {
          t := t.(sizes := t.sizes[first + n := src.sizes[ino]]);
        }
      }
    }

    method InodeCloneData(ino: Ino, dst: Ino)
      requires Planned() && ino in src.sizes
      requires forall a | a in t.mapping :: a.ino < dst
      modifies this
      ensures ino in plan && FilesMapped(old(t), t, dst, [Some(plan[ino])])
    {
      var hashes := SourceHashes(src, blockSize, ino);
      var targets := FileTargets(dst, hashes);
      FileMapped(t, dst, hashes);
      t := t.(counts := Incremented(t.counts, Increments(targets)));
      t := t.(mapping := ReplacedMapping(t.mapping, targets));
    }

    // File contents are cloned at once, a subdirectory becomes a new job.
    method CloneChild(item: Item, dst: Ino) returns (jobs: seq<Job>)
      requires Planned() && forall a | a in t.mapping :: a.ino < dst
      modifies this
      ensures FilesMapped(old(t), t, dst, [HashesFor(plan, item)])
      ensures jobs == if item.kind == D.Directory then [(item.ino, dst)] else []
    {
      NoFileMapped(t, dst);
      jobs := [];
      match item.kind {
        case File => if item.ino in src.sizes { InodeCloneData(item.ino, dst); }
        case Directory => jobs := [(item.ino, dst)];
        case Symlink =>
      }
    }

    // The same, after the children before it.
    method CloneNextChild(item: Item, first: Ino, ghost start: Target, n: nat, ghost files: seq<Option<map<nat, Hash>>>)
      returns (jobs: seq<Job>)
      requires Planned() && n < |files| && files[n] == HashesFor(plan, item) && FilesMapped(start, t, first, files[..n])
      modifies this
      ensures FilesMapped(start, t, first, files[..n + 1])
      ensures jobs == if item.kind == D.Directory then [(item.ino, first + n)] else []
    {
      ghost var before := t;
      jobs := CloneChild(item, first + n);
      MappedInTurn(start, before, t, first, files[..n], files[n]);
      assert files[..n] + [files[n]] == files[..n + 1];
    }

    method CloneChildren(
        list: seq<Child>, first: Ino, ghost files: seq<Option<map<nat, Hash>>>)
      returns (jobs: seq<Job>)
      requires Planned() && forall a | a in t.mapping :: a.ino < first
      requires |files| == |list| && forall i | 0 <= i < |list| :: files[i] == HashesFor(plan, list[i].1)
      modifies this
      ensures FilesMapped(old(t), t, first, files)
      ensures jobs == Jobs(list, first, |list|)
    {
      ghost var start := t;
      jobs := [];
      NothingMapped(t, first, files);
      for n := 0 to |list|
        invariant FilesMapped(start, t, first, files[..n])
        invariant jobs == Jobs(list, first, n)
      {
        var more := CloneNextChild(list[n].1, first, start, n, files);
        jobs := jobs + more;
      }
      assert files[..|list|] == files;
    }

    // One job: everything directly in one directory.
    method CopyDirectory(sd: Ino, dd: Ino) returns (jobs: seq<Job>)
      requires Planned() && WellNumbered(t) && Copyable(src, sd)
      requires dd < t.inodeNext && forall p | p in t.entries :: p.parent != dd
      modifies this
      ensures exists list :: IsListing(src.entries, sd, list) && Step(src, plan, old(t), t, dd, list)
                             && jobs == Jobs(list, old(t.inodeNext), |list|)
    {
      var list := DirectoryScanForChildren(src.entries, sd, MAX_TIKV_SCAN_LIMIT);
      jobs := [];
      if |list| == 0 {
        assert Step(src, plan, t, t, dd, list);
        return;
      }
      var first := ReserveNewInos(|list|);
      LinkChildren(dd, list, first);
      InodeCloneAttrs(list, first);
      jobs := CloneChildren(list, first, ToCopy(plan, list));
      assert Step(src, plan, old(t), t, dd, list);
    }
  }

  // A directory to copy, and where to.
  type Job = (Ino, Ino)

  function Jobs(list: seq<Child>, first: Ino, n: nat): seq<Job>
    requires n <= |list|
  {
    if n == 0 then []
    else Jobs(list, first, n - 1) +
         if list[n - 1].1.kind == D.Directory then [(list[n - 1].1.ino, first + (n - 1))] else []
  }

  // Neither a place, an item, an attribute nor a block belongs to the inode.
  ghost predicate Unused(t: Target, ino: Ino) {
    && (forall p | p in t.entries :: p.parent != ino && t.entries[p].ino != ino)
    && ino !in t.descs && ino !in t.sizes && ino !in t.inline
    && (forall a | a in t.mapping :: a.ino != ino)
  }

  // Nothing uses a number that was not given out.
  ghost predicate WellNumbered(t: Target) {
    && (forall p | p in t.entries :: p.parent < t.inodeNext && t.entries[p].ino < t.inodeNext)
    && (forall ino | ino in t.descs :: ino < t.inodeNext)
    && (forall ino | ino in t.sizes :: ino < t.inodeNext)
    && (forall ino | ino in t.inline :: ino < t.inodeNext)
    && (forall a | a in t.mapping :: a.ino < t.inodeNext)
  }

  // The directory fits into one scan and has no two links to one inode.
  ghost predicate Copyable(src: Source, sd: Ino) {
    && |ChildPlaces(src.entries, sd)| <= MAX_TIKV_SCAN_LIMIT
    && forall p, q | p in src.entries && q in src.entries && p.parent == sd && q.parent == sd ::
         src.entries[p].ino == src.entries[q].ino ==> p == q
  }

  // The effect of the link and attribute transactions of one job.
  ghost predicate AttrsStep(src: Source, t: Target, t': Target, dd: Ino, list: seq<Child>) {
    var first, n := t.inodeNext, |list|;
    && t'.inodeNext == first + n
    && t'.entries == Linked(t.entries, dd, list, first, n) && t'.links == t.links + NewLinks(dd, list, first, n)
    && t'.descs == Taken(src.descs, t.descs, list, first, n)
    && t'.inline == Taken(src.inline, t.inline, list, first, n)
    && t'.sizes == Shared(src.sizes, t.sizes, list, first, n)
  }

  // The effect of all transactions of one job.
  ghost predicate Step(src: Source, plan: Plan, t: Target, t': Target, dd: Ino, list: seq<Child>) {
    && AttrsStep(src, t, t', dd, list)
    && FilesMapped(t'.(counts := t.counts, mapping := t.mapping), t', t.inodeNext, ToCopy(plan, list))
  }

  // What is left of a fetched map after `n` children.
  ghost predicate Remaining<V>(all: map<Ino, V>, left: map<Ino, V>, list: seq<Child>, n: nat)
    requires n <= |list|
  {
    && (forall ino | ino in left :: ino in all && left[ino] == all[ino])
    && (forall ino | ino in all :: ino in left <==> FirstOf(list, ino) >= n)
  }

  // The next child gets the value if it is still there.
  lemma {:induction false} TakenNext<V>(
      all: map<Ino, V>, left: map<Ino, V>, base: map<Ino, V>, list: seq<Child>, first: Ino, n: nat)
    requires n < |list| && Remaining(all, left, list, n)
    ensures var ino, before := list[n].1.ino, Taken(all, base, list, first, n);
            && Taken(all, base, list, first, n + 1) == (if ino in left then before[first + n := left[ino]] else before)
            && Remaining(all, left - {ino}, list, n + 1)
  {
  }

  // ---------------------------------------------------------------------------
  // One job, seen from outside

  // Everything that existed before is still there, except what is new in directory `dd`.
  ghost predicate Keeps(t: Target, t': Target, dd: Ino) {
    && t'.inodeNext >= t.inodeNext
    && (forall p: Place | p.parent < t.inodeNext && p.parent != dd :: Lookup(t'.entries, p) == Lookup(t.entries, p))
    && (forall ino: Ino | ino < t.inodeNext ::
          && Lookup(t'.descs, ino) == Lookup(t.descs, ino) && Lookup(t'.sizes, ino) == Lookup(t.sizes, ino)
          && Lookup(t'.inline, ino) == Lookup(t.inline, ino))
    && (forall a: BlockAddress | a.ino < t.inodeNext :: Lookup(t'.mapping, a) == Lookup(t.mapping, a))
    && (forall h :: Excess(t'.counts, t'.mapping, h) == Excess(t.counts, t.mapping, h))
  }

  // Everything about the inode itself is the same in the copy.
  ghost predicate InodeCopied(src: Source, plan: Plan, t: Target, si: Item, ino: Ino)
  {
    && Lookup(t.descs, ino) == Lookup(src.descs, si.ino) && Lookup(t.sizes, ino) == Lookup(src.sizes, si.ino)
    && Lookup(t.inline, ino) == Lookup(src.inline, si.ino)
    && forall k: nat :: Lookup(t.mapping, BlockAddress(ino, k)) == Lookup(CopyOf(HashesFor(plan, si)), k)
  }

  ghost predicate ItemCopied(src: Source, plan: Plan, t: Target, low: Ino, si: Item, di: Item)
  {
    di.kind == si.kind && low <= di.ino < t.inodeNext && InodeCopied(src, plan, t, si, di.ino)
  }

  // The same names on both sides, each with a copied item; subdirectories are copied
  // or will be.
  ghost predicate NameCopied(src: Source, plan: Plan, t: Target, low: Ino, job: Job, jobs: seq<Job>, name: Name)
  {
    var s, d := D.Place(job.0, name), D.Place(job.1, name);
    && (s in src.entries <==> d in t.entries)
    && (s in src.entries ==>
          && ItemCopied(src, plan, t, low, src.entries[s], t.entries[d])
          && (src.entries[s].kind == D.Directory ==> (src.entries[s].ino, t.entries[d].ino) in jobs))
  }

  ghost predicate DirCopied(src: Source, plan: Plan, t: Target, low: Ino, job: Job, jobs: seq<Job>)
  {
    forall name :: NameCopied(src, plan, t, low, job, jobs, name)
  }

  // Attributes of inodes that are not new stay.
  lemma {:induction false} OldAttrs(src: Source, t: Target, t': Target, dd: Ino, list: seq<Child>, k: Ino)
    requires AttrsStep(src, t, t', dd, list) && !(t.inodeNext <= k < t'.inodeNext)
    ensures Lookup(t'.descs, k) == Lookup(t.descs, k) && Lookup(t'.inline, k) == Lookup(t.inline, k)
    ensures Lookup(t'.sizes, k) == Lookup(t.sizes, k)
  {
    TakenAt(src.descs, t.descs, list, t.inodeNext, |list|, k);
    TakenAt(src.inline, t.inline, list, t.inodeNext, |list|, k);
    SharedAt(src.sizes, t.sizes, list, t.inodeNext, |list|, k);
  }

  // The copy of a child that is the first link to its inode has the inode's attributes.
  lemma {:induction false} NewAttrs(src: Source, t: Target, t': Target, dd: Ino, list: seq<Child>, i: nat)
    requires AttrsStep(src, t, t', dd, list) && WellNumbered(t) && i < |list| && FirstOf(list, list[i].1.ino) == i
    ensures Lookup(t'.descs, t.inodeNext + i) == Lookup(src.descs, list[i].1.ino)
    ensures Lookup(t'.inline, t.inodeNext + i) == Lookup(src.inline, list[i].1.ino)
    ensures Lookup(t'.sizes, t.inodeNext + i) == Lookup(src.sizes, list[i].1.ino)
  {
    TakenAt(src.descs, t.descs, list, t.inodeNext, |list|, t.inodeNext + i);
    TakenAt(src.inline, t.inline, list, t.inodeNext, |list|, t.inodeNext + i);
    SharedAt(src.sizes, t.sizes, list, t.inodeNext, |list|, t.inodeNext + i);
  }

  lemma StepKeepsOld(src: Source, plan: Plan, t: Target, t': Target, dd: Ino, list: seq<Child>)
    requires DistinctNames(list) && Step(src, plan, t, t', dd, list)
    ensures Keeps(t, t', dd)
  {
    forall p: Place | p.parent < t.inodeNext && p.parent != dd ensures Lookup(t'.entries, p) == Lookup(t.entries, p) {
      LinkedAt(t.entries, dd, list, t.inodeNext, |list|, p);
    }
    forall ino: Ino | ino < t.inodeNext
      ensures && Lookup(t'.descs, ino) == Lookup(t.descs, ino) && Lookup(t'.sizes, ino) == Lookup(t.sizes, ino)
              && Lookup(t'.inline, ino) == Lookup(t.inline, ino)
    {
      OldAttrs(src, t, t', dd, list, ino);
    }
  }

  lemma StepEntries(src: Source, plan: Plan, t: Target, t': Target, dd: Ino, list: seq<Child>, p: Place)
    requires DistinctNames(list) && Step(src, plan, t, t', dd, list)
    requires p in t'.entries && !(p in t.entries && t'.entries[p] == t.entries[p])
    ensures exists i: nat :: i < |list| && p == D.Place(dd, list[i].0)
                             && t'.entries[p] == D.Item(t.inodeNext + i, list[i].1.kind)
  {
    LinkedAt(t.entries, dd, list, t.inodeNext, |list|, p);
    var i: nat :| i < |list| && list[i].0 == p.name && p.parent == dd;
    assert p == D.Place(dd, list[i].0);
  }

  lemma StepKeepsNumbered(src: Source, plan: Plan, t: Target, t': Target, dd: Ino, list: seq<Child>)
    requires WellNumbered(t) && DistinctNames(list) && Step(src, plan, t, t', dd, list)
    requires dd < t.inodeNext
    ensures WellNumbered(t')
  {
    forall p | p in t'.entries ensures p.parent < t'.inodeNext && t'.entries[p].ino < t'.inodeNext {
      if !(p in t.entries && t'.entries[p] == t.entries[p]) {
        StepEntries(src, plan, t, t', dd, list, p);
      }
    }
    forall ino: Ino | ino in t'.descs || ino in t'.sizes || ino in t'.inline ensures ino < t'.inodeNext {
      if ino >= t'.inodeNext { OldAttrs(src, t, t', dd, list, ino); }
    }
  }

  lemma ChildInode(src: Source, plan: Plan, t: Target, t': Target, dd: Ino, list: seq<Child>, i: nat)
    requires WellNumbered(t) && Step(src, plan, t, t', dd, list)
    requires DistinctInos(list) && i < |list|
    ensures InodeCopied(src, plan, t', list[i].1, t.inodeNext + i)
  {
    FirstOfDistinct(list, i);
    NewAttrs(src, t, t', dd, list, i);
    ChildHashes(src, plan, t, t', dd, list, i);
  }

  lemma ChildHashes(src: Source, plan: Plan, t: Target, t': Target, dd: Ino, list: seq<Child>, i: nat)
    requires Step(src, plan, t, t', dd, list) && i < |list|
    ensures forall k: nat ::
              Lookup(t'.mapping, BlockAddress(t.inodeNext + i, k)) == Lookup(CopyOf(HashesFor(plan, list[i].1)), k)
  {
    var files := ToCopy(plan, list);
    assert files[i] == HashesFor(plan, list[i].1);
    forall k: nat
      ensures Lookup(t'.mapping, BlockAddress(t.inodeNext + i, k)) == Lookup(CopyOf(files[i]), k)
    {
      var a := BlockAddress(t.inodeNext + i, k);
      assert a.ino - t.inodeNext == i;
    }
  }

  lemma {:induction false} JobsAt(list: seq<Child>, first: Ino, n: nat, i: nat)
    requires i < n <= |list| && list[i].1.kind == D.Directory
    ensures (list[i].1.ino, first + i) in Jobs(list, first, n)
  {
    if i < n - 1 { JobsAt(list, first, n - 1, i); }
  }

  lemma {:induction false} ChildCopied(
      src: Source, plan: Plan, t: Target, t': Target, job: Job, list: seq<Child>, jobs: seq<Job>, i: nat)
    requires WellNumbered(t) && Step(src, plan, t, t', job.1, list)
    requires AreChildren(src.entries, job.0, list) && DistinctNames(list) && DistinctInos(list) && i < |list|
    requires forall j | j in Jobs(list, t.inodeNext, |list|) :: j in jobs
    ensures NameCopied(src, plan, t', t.inodeNext, job, jobs, list[i].0)
  {
    ChildEntry(t.entries, t'.entries, job.1, list, t.inodeNext, i);
    ChildInode(src, plan, t, t', job.1, list, i);
    if list[i].1.kind == D.Directory { JobsAt(list, t.inodeNext, |list|, i); }
    NameIsCopied(src, plan, t', t.inodeNext, job, jobs, list[i].0, list[i].1, D.Item(t.inodeNext + i, list[i].1.kind));
  }

  // Entries and parent links agree, as in the directory transactions.
  ghost predicate Indexed(t: Target) {
    D.IndexesAgree(AsTree(t.entries, t.links))
  }

  function AsTree(entries: map<Place, Item>, links: set<D.Link>): D.Tree {
    D.Tree(entries, links, map[], None)
  }

  lemma {:induction false} LinkedAgrees(
      entries: map<Place, Item>, links: set<D.Link>, dd: Ino, list: seq<Child>, first: Ino, n: nat)
    requires D.IndexesAgree(AsTree(entries, links)) && DistinctNames(list) && n <= |list|
    requires forall p | p in entries :: p.parent != dd
    ensures D.IndexesAgree(AsTree(Linked(entries, dd, list, first, n), links + NewLinks(dd, list, first, n)))
  {
    if n == 0 {
      assert links + NewLinks(dd, list, first, 0) == links;
    } else {
      LinkedAgrees(entries, links, dd, list, first, n - 1);
      var before := AsTree(Linked(entries, dd, list, first, n - 1), links + NewLinks(dd, list, first, n - 1));
      var place, item := D.Place(dd, list[n - 1].0), D.Item(first + (n - 1), list[n - 1].1.kind);
      LinkedAt(entries, dd, list, first, n - 1, place);
      D.AddLinkAgrees(before, place, item);
      assert D.AddLink(before, place, item).links == links + NewLinks(dd, list, first, n);
    }
  }

  // The copy keeps the double index.
  lemma StepKeepsIndexed(src: Source, plan: Plan, t: Target, t': Target, dd: Ino, list: seq<Child>)
    requires Step(src, plan, t, t', dd, list) && DistinctNames(list) && Indexed(t)
    requires forall p | p in t.entries :: p.parent != dd
    ensures Indexed(t')
  {
    LinkedAgrees(t.entries, t.links, dd, list, t.inodeNext, |list|);
  }

  lemma {:induction false} ChildEntry(
      entries: map<Place, Item>, entries': map<Place, Item>, dd: Ino, list: seq<Child>, first: Ino, i: nat)
    requires DistinctNames(list) && i < |list| && entries' == Linked(entries, dd, list, first, |list|)
    ensures Lookup(entries', D.Place(dd, list[i].0)) == Some(D.Item(first + i, list[i].1.kind))
  {
    LinkedAt(entries, dd, list, first, |list|, D.Place(dd, list[i].0));
  }

  lemma NameIsCopied(
      src: Source, plan: Plan, t: Target, low: Ino, job: Job, jobs: seq<Job>, name: Name, si: Item, di: Item)
    requires Lookup(src.entries, D.Place(job.0, name)) == Some(si)
    requires Lookup(t.entries, D.Place(job.1, name)) == Some(di)
    requires ItemCopied(src, plan, t, low, si, di) && (si.kind == D.Directory ==> (si.ino, di.ino) in jobs)
    ensures NameCopied(src, plan, t, low, job, jobs, name)
  {
  }

  // One job copies its directory.
  lemma {:induction false} StepCopies(
      src: Source, plan: Plan, t: Target, t': Target, job: Job, list: seq<Child>, jobs: seq<Job>)
    requires WellNumbered(t) && Step(src, plan, t, t', job.1, list)
    requires IsListing(src.entries, job.0, list) && DistinctInos(list)
    requires forall p | p in t.entries :: p.parent != job.1
    requires forall j | j in Jobs(list, t.inodeNext, |list|) :: j in jobs
    ensures DirCopied(src, plan, t', t.inodeNext, job, jobs)
  {
    forall name ensures NameCopied(src, plan, t', t.inodeNext, job, jobs, name) {
      if HasName(list, name) {
        var i: nat :| i < |list| && list[i].0 == name;
        ChildCopied(src, plan, t, t', job, list, jobs, i);
      } else {
        NoSuchName(src, plan, t, t', job, list, name);
      }
    }
  }

  lemma NoSuchName(src: Source, plan: Plan, t: Target, t': Target, job: Job, list: seq<Child>, name: Name)
    requires Step(src, plan, t, t', job.1, list) && IsListing(src.entries, job.0, list)
    requires forall p | p in t.entries :: p.parent != job.1
    requires !HasName(list, name)
    ensures D.Place(job.0, name) !in src.entries && D.Place(job.1, name) !in t'.entries
  {
    LinkedAt(t.entries, job.1, list, t.inodeNext, |list|, D.Place(job.1, name));
    if D.Place(job.0, name) in src.entries {
      assert false;
    }
  }

  lemma ListedInosDistinct(src: Source, sd: Ino, list: seq<Child>)
    requires Copyable(src, sd) && IsListing(src.entries, sd, list)
    ensures DistinctInos(list) && DistinctNames(list)
  {
    forall i, j | 0 <= i < j < |list| ensures list[i].1.ino != list[j].1.ino {
      assert D.Place(sd, list[i].0) != D.Place(sd, list[j].0);
    }
  }

  // Later jobs leave a copied directory alone.
  lemma StaysCopied(
      src: Source, plan: Plan, t: Target, t': Target, low: Ino, job: Job, jobs: seq<Job>, jobs': seq<Job>, dd: Ino)
    requires WellNumbered(t) && Keeps(t, t', dd) && dd != job.1 && job.1 < t.inodeNext
    requires DirCopied(src, plan, t, low, job, jobs) && jobs <= jobs'
    ensures DirCopied(src, plan, t', low, job, jobs')
  {
    forall name ensures NameCopied(src, plan, t', low, job, jobs', name) {
      assert NameCopied(src, plan, t, low, job, jobs, name);
      var s, d := D.Place(job.0, name), D.Place(job.1, name);
      assert Lookup(t'.entries, d) == Lookup(t.entries, d);
      if s in src.entries {
        InodeStaysCopied(src, plan, t, t', src.entries[s], t.entries[d].ino, dd);
        if src.entries[s].kind == D.Directory {
          var i :| 0 <= i < |jobs| && jobs[i] == (src.entries[s].ino, t.entries[d].ino);
          assert jobs'[i] == jobs[i];
        }
      }
    }
  }

  lemma InodeStaysCopied(src: Source, plan: Plan, t: Target, t': Target, si: Item, ino: Ino, dd: Ino)
    requires Keeps(t, t', dd) && ino < t.inodeNext && InodeCopied(src, plan, t, si, ino)
    ensures InodeCopied(src, plan, t', si, ino)
  {
    forall k: nat
      ensures Lookup(t'.mapping, BlockAddress(ino, k)) == Lookup(CopyOf(HashesFor(plan, si)), k)
    {
      assert Lookup(t'.mapping, BlockAddress(ino, k)) == Lookup(t.mapping, BlockAddress(ino, k));
    }
  }
}
