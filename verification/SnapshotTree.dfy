// The work list of a snapshot and what it copies in the end
// (`directory_copy_recursive` in src/fs/snapshot.rs).
module SnapshotTree {
  import opened Types
  import opened RefCount
  import opened FileContent
  import opened Snapshot

  // ---------------------------------------------------------------------------
  // The source

  function Directories(entries: map<Place, Item>): set<Ino> {
    set p | p in entries && entries[p].kind == D.Directory :: entries[p].ino
  }

  // Following names from a directory.
  function Walk(entries: map<Place, Item>, dir: Ino, path: seq<Name>): Option<Item>
    requires path != []
    decreases |path|
  {
    var p := D.Place(dir, path[0]);
    if p !in entries then None
    else if |path| == 1 then Some(entries[p])
    else if entries[p].kind != D.Directory then None
    else Walk(entries, entries[p].ino, path[1..])
  }

  predicate HasDirectory(entries: map<Place, Item>, dir: Ino, name: Name, sub: Ino) {
    Lookup(entries, D.Place(dir, name)) == Some(D.Item(sub, D.Directory))
  }

  ghost predicate IsDirectlyIn(entries: map<Place, Item>, dir: Ino, sub: Ino) {
    exists name :: HasDirectory(entries, dir, name, sub)
  }

  // Some path leads to the directory.
  ghost predicate Reached(entries: map<Place, Item>, origin: Ino, d: Ino) {
    d == origin || exists path: seq<Name> | path != [] :: Walk(entries, origin, path) == Some(D.Item(d, D.Directory))
  }

  lemma {:induction false} WalkOn(entries: map<Place, Item>, dir: Ino, path: seq<Name>, d: Ino, name: Name)
    requires path != [] && Walk(entries, dir, path) == Some(D.Item(d, D.Directory))
    ensures Walk(entries, dir, path + [name]) == Lookup(entries, D.Place(d, name))
    decreases |path|
  {
    var first := D.Place(dir, path[0]);
    assert (path + [name])[1..] == path[1..] + [name];
    if |path| == 1 {
      assert path[1..] + [name] == [name];
    } else {
      WalkOn(entries, entries[first].ino, path[1..], d, name);
    }
  }

  lemma ReachedNext(entries: map<Place, Item>, origin: Ino, d: Ino, name: Name, sub: Ino)
    requires Reached(entries, origin, d) && HasDirectory(entries, d, name, sub)
    ensures Reached(entries, origin, sub)
  {
    if d == origin {
      assert Walk(entries, origin, [name]) == Some(D.Item(sub, D.Directory));
    } else {
      var path: seq<Name> :| path != [] && Walk(entries, origin, path) == Some(D.Item(d, D.Directory));
      WalkOn(entries, origin, path, d, name);
      assert path + [name] != [];
    }
  }

  // A directory that the copy reaches through this entry.
  ghost predicate IsSubdirectory(entries: map<Place, Item>, origin: Ino, p: Place) {
    p in entries && Reached(entries, origin, p.parent) && entries[p].kind == D.Directory
  }

  // Every directory below the origin has one place there, and the origin has none.
  ghost predicate TreeShaped(entries: map<Place, Item>, origin: Ino) {
    && (forall p | IsSubdirectory(entries, origin, p) :: entries[p].ino != origin)
    && (forall p, q | IsSubdirectory(entries, origin, p) && IsSubdirectory(entries, origin, q) ::
          entries[p].ino == entries[q].ino ==> p == q)
  }

  // Nothing is asked of directories that the origin does not reach.
  ghost predicate SourceOk(src: Source, origin: Ino) {
    TreeShaped(src.entries, origin) && forall d | Reached(src.entries, origin, d) :: Copyable(src, d)
  }

  // ---------------------------------------------------------------------------
  // The work list: `all` are the jobs so far, the first `n` of them are done

  // Directory number `i` was found in a directory that is done.
  ghost predicate Found(src: Source, all: seq<Job>, n: nat, i: nat)
    requires i < |all|
  {
    exists k, name :: 0 <= k < n <= |all| && HasDirectory(src.entries, all[k].0, name, all[i].0)
  }

  ghost predicate ListOk(src: Source, all: seq<Job>, n: nat, origin: Ino, dest: Ino) {
    && 0 < |all| && n <= |all| && all[0] == (origin, dest)
    && (forall i, j | 0 <= i < j < |all| :: all[i].0 != all[j].0 && all[i].1 != all[j].1)
    && (forall i | 0 <= i < |all| :: all[i].0 == origin || all[i].0 in Directories(src.entries))
    && (forall i | 0 <= i < |all| :: Reached(src.entries, origin, all[i].0))
    && (forall i | 0 < i < |all| :: Found(src, all, n, i))
  }

  ghost predicate NumbersOk(t0: Target, t: Target, all: seq<Job>, n: nat) {
    && WellNumbered(t) && t0.inodeNext <= t.inodeNext
    && (forall i | 0 <= i < |all| :: all[i].1 < t.inodeNext && (i > 0 ==> t0.inodeNext <= all[i].1))
    && (forall i, p | n <= i < |all| && p in t.entries :: p.parent != all[i].1)
  }

  ghost predicate DoneOk(src: Source, plan: Plan, t0: Target, t: Target, all: seq<Job>, n: nat)
    requires n <= |all|
  {
    forall i | 0 <= i < n :: DirCopied(src, plan, t, t0.inodeNext, all[i], all)
  }

  // ---------------------------------------------------------------------------
  // One round

  // Where a job of the list comes from.
  lemma {:induction false} JobOrigin(list: seq<Child>, first: Ino, n: nat, j: nat) returns (i: nat)
    requires n <= |list| && j < |Jobs(list, first, n)|
    ensures i < n && list[i].1.kind == D.Directory && Jobs(list, first, n)[j] == (list[i].1.ino, first + i)
  {
    if j < |Jobs(list, first, n - 1)| {
      i := JobOrigin(list, first, n - 1, j);
    } else {
      i := n - 1;
    }
  }

  lemma {:induction false} JobsAscend(list: seq<Child>, first: Ino, n: nat, j: nat, k: nat)
    requires n <= |list| && j < k < |Jobs(list, first, n)|
    ensures Jobs(list, first, n)[j].1 < Jobs(list, first, n)[k].1
  {
    if k < |Jobs(list, first, n - 1)| {
      JobsAscend(list, first, n - 1, j, k);
    } else {
      var i := JobOrigin(list, first, n - 1, j);
    }
  }

  // A new job's directory has not been seen before.
  lemma NewIsUnseen(src: Source, all: seq<Job>, n: nat, origin: Ino, dest: Ino, name: Name, d: Ino, i: nat)
    requires TreeShaped(src.entries, origin) && ListOk(src, all, n, origin, dest) && n < |all| && i < |all|
    requires HasDirectory(src.entries, all[n].0, name, d)
    ensures all[i].0 != d
  {
    var p := D.Place(all[n].0, name);
    assert IsSubdirectory(src.entries, origin, p);
    if i > 0 && all[i].0 == d {
      assert Found(src, all, n, i);
      var k, name' :| 0 <= k < n && HasDirectory(src.entries, all[k].0, name', all[i].0);
      assert IsSubdirectory(src.entries, origin, D.Place(all[k].0, name'));
      assert false;
    }
  }

  // The jobs of one listing, each with the name it was found under.
  lemma JobsFound(src: Source, sd: Ino, list: seq<Child>, first: Ino, j: nat) returns (name: Name)
    requires AreChildren(src.entries, sd, list) && j < |Jobs(list, first, |list|)|
    ensures HasDirectory(src.entries, sd, name, Jobs(list, first, |list|)[j].0)
    ensures first <= Jobs(list, first, |list|)[j].1 < first + |list|
  {
    var i := JobOrigin(list, first, |list|, j);
    name := list[i].0;
  }

  lemma {:induction false} JobsDistinct(src: Source, sd: Ino, list: seq<Child>, first: Ino, j: nat, k: nat)
    requires DistinctInos(list) && j < k < |Jobs(list, first, |list|)|
    ensures Jobs(list, first, |list|)[j].0 != Jobs(list, first, |list|)[k].0
    ensures Jobs(list, first, |list|)[j].1 != Jobs(list, first, |list|)[k].1
  {
    JobsAscend(list, first, |list|, j, k);
    var a := JobOrigin(list, first, |list|, j);
    var b := JobOrigin(list, first, |list|, k);
  }

  lemma InDirectories(entries: map<Place, Item>, dir: Ino, name: Name, sub: Ino)
    requires HasDirectory(entries, dir, name, sub)
    ensures sub in Directories(entries)
  {
  }

  lemma FoundStays(src: Source, all: seq<Job>, jobs: seq<Job>, n: nat, i: nat)
    requires i < |all| && n < |all| && Found(src, all, n, i)
    ensures Found(src, all + jobs, n + 1, i)
  {
    var k, name :| 0 <= k < n && HasDirectory(src.entries, all[k].0, name, all[i].0);
    assert (all + jobs)[k] == all[k] && (all + jobs)[i] == all[i];
  }

  // Facts about the jobs that one round adds.
  ghost predicate Fresh(src: Source, all: seq<Job>, n: nat, jobs: seq<Job>, first: Ino, next: Ino)
    requires n < |all|
  {
    && (forall j | 0 <= j < |jobs| :: first <= jobs[j].1 < next)
    && (forall j | 0 <= j < |jobs| :: IsDirectlyIn(src.entries, all[n].0, jobs[j].0))
    && (forall j, k | 0 <= j < k < |jobs| :: jobs[j].0 != jobs[k].0 && jobs[j].1 != jobs[k].1)
  }

  lemma {:induction false} JobsAreFresh(src: Source, all: seq<Job>, n: nat, list: seq<Child>, first: Ino)
    requires n < |all| && AreChildren(src.entries, all[n].0, list) && DistinctInos(list)
    ensures Fresh(src, all, n, Jobs(list, first, |list|), first, first + |list|)
  {
    var jobs := Jobs(list, first, |list|);
    forall j | 0 <= j < |jobs|
      ensures first <= jobs[j].1 < first + |list|
      ensures IsDirectlyIn(src.entries, all[n].0, jobs[j].0)
    {
      var name := JobsFound(src, all[n].0, list, first, j);
      assert HasDirectory(src.entries, all[n].0, name, jobs[j].0);
    }
    forall j, k | 0 <= j < k < |jobs| ensures jobs[j].0 != jobs[k].0 && jobs[j].1 != jobs[k].1 {
      JobsDistinct(src, all[n].0, list, first, j, k);
    }
  }

  lemma NewJob(
      src: Source, all: seq<Job>, n: nat, origin: Ino, dest: Ino, jobs: seq<Job>, first: Ino, next: Ino, j: nat)
    requires TreeShaped(src.entries, origin) && ListOk(src, all, n, origin, dest) && n < |all|
    requires Fresh(src, all, n, jobs, first, next) && j < |jobs|
    ensures jobs[j].0 in Directories(src.entries) && Reached(src.entries, origin, jobs[j].0)
    ensures forall i | 0 <= i < |all| :: all[i].0 != jobs[j].0
    ensures Found(src, all + jobs, n + 1, |all| + j)
  {
    var name :| HasDirectory(src.entries, all[n].0, name, jobs[j].0);
    InDirectories(src.entries, all[n].0, name, jobs[j].0);
    ReachedNext(src.entries, origin, all[n].0, name, jobs[j].0);
    forall i | 0 <= i < |all| ensures all[i].0 != jobs[j].0 {
      NewIsUnseen(src, all, n, origin, dest, name, jobs[j].0, i);
    }
    assert (all + jobs)[n] == all[n] && (all + jobs)[|all| + j] == jobs[j];
  }

  lemma ListGrows(src: Source, all: seq<Job>, n: nat, origin: Ino, dest: Ino, jobs: seq<Job>, first: Ino, next: Ino)
    requires TreeShaped(src.entries, origin) && ListOk(src, all, n, origin, dest) && n < |all|
    requires Fresh(src, all, n, jobs, first, next) && forall i | 0 <= i < |all| :: all[i].1 < first
    ensures ListOk(src, all + jobs, n + 1, origin, dest)
  {
    var more, m := all + jobs, n + 1;
    forall j | 0 <= j < |jobs|
      ensures jobs[j].0 in Directories(src.entries) && Reached(src.entries, origin, jobs[j].0)
      ensures forall i | 0 <= i < |all| :: all[i].0 != jobs[j].0
    {
      NewJob(src, all, n, origin, dest, jobs, first, next, j);
    }
    forall i | 0 < i < |more| ensures Found(src, more, m, i) {
      if i < |all| {
        FoundStays(src, all, jobs, n, i);
      } else {
        NewJob(src, all, n, origin, dest, jobs, first, next, i - |all|);
      }
    }
    forall i | 0 <= i < |more|
      ensures more[i].0 == origin || more[i].0 in Directories(src.entries)
      ensures Reached(src.entries, origin, more[i].0)
    {
      if i >= |all| { assert more[i] == jobs[i - |all|]; }
    }
    forall i, j | 0 <= i < j < |more| ensures more[i].0 != more[j].0 && more[i].1 != more[j].1 {
      if j >= |all| { assert more[j] == jobs[j - |all|]; }
      if i >= |all| { assert more[i] == jobs[i - |all|]; }
    }
  }

  lemma NumbersGrow(
      src: Source, plan: Plan, t0: Target, t: Target, t': Target, all: seq<Job>, n: nat, list: seq<Child>,
      jobs: seq<Job>)
    requires n < |all| && NumbersOk(t0, t, all, n) && DistinctNames(list) && Step(src, plan, t, t', all[n].1, list)
    requires forall i | n < i < |all| :: all[i].1 != all[n].1
    requires forall j | 0 <= j < |jobs| :: t.inodeNext <= jobs[j].1 < t'.inodeNext
    ensures NumbersOk(t0, t', all + jobs, n + 1)
  {
    var more := all + jobs;
    StepKeepsNumbered(src, plan, t, t', all[n].1, list);
    forall i, p | n + 1 <= i < |more| && p in t'.entries ensures p.parent != more[i].1 {
      if !(p in t.entries && t'.entries[p] == t.entries[p]) {
        StepEntries(src, plan, t, t', all[n].1, list, p);
        assert p.parent == all[n].1;
      }
      if i >= |all| { assert more[i] == jobs[i - |all|]; }
    }
    forall i | 0 <= i < |more| ensures more[i].1 < t'.inodeNext && (i > 0 ==> t0.inodeNext <= more[i].1) {
      if i >= |all| { assert more[i] == jobs[i - |all|]; }
    }
  }

  lemma LowerBound(src: Source, plan: Plan, t: Target, low: Ino, low': Ino, job: Job, jobs: seq<Job>)
    requires DirCopied(src, plan, t, low, job, jobs) && low' <= low
    ensures DirCopied(src, plan, t, low', job, jobs)
  {
    forall name ensures NameCopied(src, plan, t, low', job, jobs, name) {
      assert NameCopied(src, plan, t, low, job, jobs, name);
    }
  }

  lemma {:induction false} DoneGrows(
      src: Source, plan: Plan, t0: Target, t: Target, t': Target, all: seq<Job>, n: nat, list: seq<Child>)
    requires n < |all| && NumbersOk(t0, t, all, n) && DoneOk(src, plan, t0, t, all, n)
    requires IsListing(src.entries, all[n].0, list) && DistinctInos(list) && Step(src, plan, t, t', all[n].1, list)
    requires forall i | 0 <= i < n :: all[i].1 != all[n].1
    ensures DoneOk(src, plan, t0, t', all + Jobs(list, t.inodeNext, |list|), n + 1)
  {
    var jobs := Jobs(list, t.inodeNext, |list|);
    var more := all + jobs;
    StepKeepsOld(src, plan, t, t', all[n].1, list);
    forall i | 0 <= i < n ensures DirCopied(src, plan, t', t0.inodeNext, more[i], more) {
      StaysCopied(src, plan, t, t', t0.inodeNext, all[i], all, more, all[n].1);
    }
    StepCopies(src, plan, t, t', all[n], list, more);
    LowerBound(src, plan, t', t.inodeNext, t0.inodeNext, all[n], more);
  }

  lemma KeepsInTurn(t0: Target, t: Target, t': Target, dest: Ino, dd: Ino)
    requires Keeps(t0, t, dest) && Keeps(t, t', dd) && (dd == dest || dd >= t0.inodeNext)
    ensures Keeps(t0, t', dest)
  {
  }

  // ---------------------------------------------------------------------------
  // The work list ends

  lemma {:induction false} DistinctFirsts(all: seq<Job>)
    requires forall i, j | 0 <= i < j < |all| :: all[i].0 != all[j].0
    ensures |set i | 0 <= i < |all| :: all[i].0| == |all|
  {
    if all != [] {
      var n := |all| - 1;
      DistinctFirsts(all[..n]);
      assert (set i | 0 <= i < |all| :: all[i].0) == (set i | 0 <= i < n :: all[..n][i].0) + {all[n].0};
    }
  }

  // No more jobs than directories.
  lemma JobsAreBounded(src: Source, all: seq<Job>, n: nat, origin: Ino, dest: Ino)
    requires ListOk(src, all, n, origin, dest)
    ensures |all| <= |Directories(src.entries) + {origin}|
  {
    DistinctFirsts(all);
    var seen, dirs := set i | 0 <= i < |all| :: all[i].0, Directories(src.entries) + {origin};
    assert seen <= dirs;
    assert dirs == seen + (dirs - seen);
  }

  // ---------------------------------------------------------------------------
  // The result

  // The path leads to the same kind of item on both sides, or to none, and the copy is
  // a new inode with the same description, size, inline data and block hashes.
  ghost predicate PathCopied(src: Source, plan: Plan, t: Target, low: Ino, origin: Ino, dest: Ino, path: seq<Name>)
    requires path != []
  {
    var s, d := Walk(src.entries, origin, path), Walk(t.entries, dest, path);
    (s.Some? <==> d.Some?) && (s.Some? ==> ItemCopied(src, plan, t, low, s.value, d.value))
  }

  lemma {:induction false} EveryPathCopied(
      src: Source, plan: Plan, t: Target, low: Ino, all: seq<Job>, job: Job, path: seq<Name>)
    requires forall i | 0 <= i < |all| :: DirCopied(src, plan, t, low, all[i], all)
    requires job in all && path != []
    ensures PathCopied(src, plan, t, low, job.0, job.1, path)
    decreases |path|
  {
    assert DirCopied(src, plan, t, low, job, all);
    assert NameCopied(src, plan, t, low, job, all, path[0]);
    var s, d := D.Place(job.0, path[0]), D.Place(job.1, path[0]);
    if |path| > 1 && s in src.entries && src.entries[s].kind == D.Directory {
      EveryPathCopied(src, plan, t, low, all, (src.entries[s].ino, t.entries[d].ino), path[1..]);
    }
  }

  // The copy of a file has the planned hashes.
  lemma CopiedHashes(src: Source, plan: Plan, t: Target, low: Ino, si: Item, di: Item)
    requires ItemCopied(src, plan, t, low, si, di)
    ensures FileHashes(t.mapping, di.ino) == CopyOf(HashesFor(plan, si))
  {
    var l, r := FileHashes(t.mapping, di.ino), CopyOf(HashesFor(plan, si));
    forall k: nat ensures Lookup(l, k) == Lookup(r, k) { FileHashAt(t.mapping, di.ino, k); }
    SameLookups(l, r);
  }

  // The copy of a file has all hashes of the file exactly when the file has a size and
  // stays within it, or has no blocks at all.
  lemma CopiedWholeIff(src: Source, blockSize: nat, t: Target, low: Ino, si: Item, di: Item)
    requires blockSize > 0 && ItemCopied(src, PlanFor(src, blockSize), t, low, si, di) && si.kind == D.File
    ensures FileHashes(t.mapping, di.ino) == FileHashes(src.mapping, si.ino) <==>
            (si.ino in src.sizes && WithinSize(src, blockSize, si.ino)) || FileHashes(src.mapping, si.ino) == map[]
  {
    CopiedHashes(src, PlanFor(src, blockSize), t, low, si, di);
    if si.ino in src.sizes {
      PlanIsWholeIff(src, blockSize, si.ino);
      assert FileHashes(src.mapping, si.ino) == map[] ==> WithinSize(src, blockSize, si.ino);
    }
  }

  // The same at the end of a path.
  ghost predicate WholeIffWithinSize(src: Source, blockSize: nat, t: Target, origin: Ino, dest: Ino, path: seq<Name>)
    requires blockSize > 0 && path != []
  {
    var si, di := Walk(src.entries, origin, path), Walk(t.entries, dest, path);
    si.Some? && si.value.kind == D.File ==>
      && di.Some?
      && (FileHashes(t.mapping, di.value.ino) == FileHashes(src.mapping, si.value.ino) <==>
          || (si.value.ino in src.sizes && WithinSize(src, blockSize, si.value.ino))
          || FileHashes(src.mapping, si.value.ino) == map[])
  }

  lemma PathIsWholeIff(src: Source, blockSize: nat, t: Target, low: Ino, origin: Ino, dest: Ino, path: seq<Name>)
    requires blockSize > 0 && path != [] && PathCopied(src, PlanFor(src, blockSize), t, low, origin, dest, path)
    ensures WholeIffWithinSize(src, blockSize, t, origin, dest, path)
  {
    var si, di := Walk(src.entries, origin, path), Walk(t.entries, dest, path);
    if si.Some? && si.value.kind == D.File {
      CopiedWholeIff(src, blockSize, t, low, si.value, di.value);
    }
  }

  // So a snapshot of a store with no write in flight has, at every path to a file with a
  // size, all block hashes of that file.
  lemma {:induction false} SameHashesAtPath(
      cfg: Config, s: Sys, src: Source, t: Target, low: Ino, origin: Ino, dest: Ino, path: seq<Name>)
    requires cfg.blockSize > 0 && MappedIsCovered(cfg, s) && forall i | 0 <= i < |s.ops| :: !s.ops[i].Replaced?
    requires src.mapping == s.st.mapping && src.sizes == s.st.sizes
    requires path != [] && PathCopied(src, PlanFor(src, cfg.blockSize), t, low, origin, dest, path)
    ensures var si, di := Walk(src.entries, origin, path), Walk(t.entries, dest, path);
            si.Some? && si.value.kind == D.File && si.value.ino in src.sizes ==>
            di.Some? && FileHashes(t.mapping, di.value.ino) == FileHashes(src.mapping, si.value.ino)
  {
    var si, di := Walk(src.entries, origin, path), Walk(t.entries, dest, path);
    if si.Some? && si.value.kind == D.File && si.value.ino in src.sizes {
      StoreIsWithinSize(cfg, s, src, si.value.ino);
      CopiedWholeIff(src, cfg.blockSize, t, low, si.value, di.value);
    }
  }

  function NewAddresses(mapping: map<BlockAddress, Hash>, low: Ino, h: Hash): set<BlockAddress> {
    set a | a in mapping && a.ino >= low && mapping[a] == h
  }

  // Every counter rises by the number of mappings that the copy added.
  lemma CountersRise(t0: Target, t: Target, dest: Ino, h: Hash)
    requires WellNumbered(t0) && Keeps(t0, t, dest)
    ensures Count(t.counts, h) == Count(t0.counts, h) + |NewAddresses(t.mapping, t0.inodeNext, h)|
  {
    var before, after, more := AddrsOf(t0.mapping, h), AddrsOf(t.mapping, h), NewAddresses(t.mapping, t0.inodeNext, h);
    forall a ensures a in after <==> a in before || a in more {
      if a.ino < t0.inodeNext { assert Lookup(t.mapping, a) == Lookup(t0.mapping, a); }
    }
    assert after == before + more && before !! more;
    assert Excess(t.counts, t.mapping, h) == Excess(t0.counts, t0.mapping, h);
  }

  // The state of the copy after `n` jobs.
  ghost predicate InProgress(
      src: Source, plan: Plan, t0: Target, t: Target, all: seq<Job>, n: nat, origin: Ino, dest: Ino) {
    && ListOk(src, all, n, origin, dest) && NumbersOk(t0, t, all, n)
    && DoneOk(src, plan, t0, t, all, n) && Keeps(t0, t, dest)
    && (Indexed(t0) ==> Indexed(t))
  }

  lemma StartOfCopy(src: Source, plan: Plan, t: Target, origin: Ino, dest: Ino)
    requires WellNumbered(t) && dest < t.inodeNext && forall p | p in t.entries :: p.parent != dest
    ensures InProgress(src, plan, t, t, [(origin, dest)], 0, origin, dest)
  {
  }

  lemma NextJobIsReady(
      src: Source, plan: Plan, t0: Target, t: Target, all: seq<Job>, n: nat, origin: Ino, dest: Ino)
    requires SourceOk(src, origin) && InProgress(src, plan, t0, t, all, n, origin, dest) && n < |all|
    ensures WellNumbered(t) && Copyable(src, all[n].0)
    ensures all[n].1 < t.inodeNext && forall p | p in t.entries :: p.parent != all[n].1
    ensures n < |Directories(src.entries) + {origin}|
  {
    JobsAreBounded(src, all, n, origin, dest);
  }

  ghost predicate RoundDone(src: Source, plan: Plan, t: Target, t': Target, job: Job, jobs: seq<Job>) {
    exists list :: IsListing(src.entries, job.0, list) && Step(src, plan, t, t', job.1, list)
                   && jobs == Jobs(list, t.inodeNext, |list|)
  }

  lemma {:induction false} RoundLists(
      src: Source, plan: Plan, t0: Target, t: Target, t': Target, all: seq<Job>, n: nat, origin: Ino, dest: Ino,
      list: seq<Child>)
    requires SourceOk(src, origin) && ListOk(src, all, n, origin, dest) && NumbersOk(t0, t, all, n) && n < |all|
    requires IsListing(src.entries, all[n].0, list) && DistinctInos(list) && Step(src, plan, t, t', all[n].1, list)
    ensures var more := all + Jobs(list, t.inodeNext, |list|);
            ListOk(src, more, n + 1, origin, dest) && NumbersOk(t0, t', more, n + 1)
  {
    var jobs := Jobs(list, t.inodeNext, |list|);
    JobsAreFresh(src, all, n, list, t.inodeNext);
    ListGrows(src, all, n, origin, dest, jobs, t.inodeNext, t.inodeNext + |list|);
    NumbersGrow(src, plan, t0, t, t', all, n, list, jobs);
  }

  lemma RoundKeeps(
      src: Source, plan: Plan, t0: Target, t: Target, t': Target, all: seq<Job>, n: nat, origin: Ino, dest: Ino,
      list: seq<Child>)
    requires ListOk(src, all, n, origin, dest) && NumbersOk(t0, t, all, n) && n < |all|
    requires Keeps(t0, t, dest) && (Indexed(t0) ==> Indexed(t))
    requires IsListing(src.entries, all[n].0, list) && Step(src, plan, t, t', all[n].1, list)
    ensures Keeps(t0, t', dest) && (Indexed(t0) ==> Indexed(t'))
  {
    StepKeepsOld(src, plan, t, t', all[n].1, list);
    KeepsInTurn(t0, t, t', dest, all[n].1);
    if Indexed(t) { StepKeepsIndexed(src, plan, t, t', all[n].1, list); }
  }

  lemma Round(
      src: Source, plan: Plan, t0: Target, t: Target, t': Target, all: seq<Job>, n: nat, origin: Ino, dest: Ino,
      jobs: seq<Job>)
    requires SourceOk(src, origin) && InProgress(src, plan, t0, t, all, n, origin, dest) && n < |all|
    requires RoundDone(src, plan, t, t', all[n], jobs)
    ensures InProgress(src, plan, t0, t', all + jobs, n + 1, origin, dest)
  {
    var list :| IsListing(src.entries, all[n].0, list) && Step(src, plan, t, t', all[n].1, list)
                && jobs == Jobs(list, t.inodeNext, |list|);
    ListedInosDistinct(src, all[n].0, list);
    RoundLists(src, plan, t0, t, t', all, n, origin, dest, list);
    DoneGrows(src, plan, t0, t, t', all, n, list);
    RoundKeeps(src, plan, t0, t, t', all, n, origin, dest, list);
  }

  // One round of the work list.
  method CopyNext(
      cs: CreateSnapshot, job: Job, ghost t0: Target, ghost all: seq<Job>, ghost n: nat, ghost origin: Ino,
      ghost dest: Ino)
    returns (jobs: seq<Job>)
    requires cs.Planned() && SourceOk(cs.src, origin)
    requires InProgress(cs.src, cs.plan, t0, cs.t, all, n, origin, dest) && n < |all| && all[n] == job
    modifies cs
    ensures InProgress(cs.src, cs.plan, t0, cs.t, all + jobs, n + 1, origin, dest)
  {
    ghost var t := cs.t;
    NextJobIsReady(cs.src, cs.plan, t0, t, all, n, origin, dest);
    jobs := cs.CopyDirectory(job.0, job.1);
    assert RoundDone(cs.src, cs.plan, t, cs.t, job, jobs);
    Round(cs.src, cs.plan, t0, t, cs.t, all, n, origin, dest, jobs);
  }

  lemma QueueMoves(all: seq<Job>, n: nat, more: seq<Job>)
    requires n < |all|
    ensures all[n..][0] == all[n] && all[n..][1..] + more == (all + more)[n + 1..]
  {
  }

  // The whole work list; it ends because no directory is listed twice.
  method RunJobs(cs: CreateSnapshot, origin: Ino, dest: Ino) returns (ghost all: seq<Job>)
    requires cs.Planned() && SourceOk(cs.src, origin)
    requires WellNumbered(cs.t) && dest < cs.t.inodeNext && forall p | p in cs.t.entries :: p.parent != dest
    modifies cs
    ensures InProgress(cs.src, cs.plan, old(cs.t), cs.t, all, |all|, origin, dest)
  {
    ghost var t0, n := cs.t, 0;
    all := [(origin, dest)];
    var copyJobs: seq<Job> := [(origin, dest)];
    StartOfCopy(cs.src, cs.plan, t0, origin, dest);
    while copyJobs != []
      invariant n <= |all| && copyJobs == all[n..]
      invariant InProgress(cs.src, cs.plan, t0, cs.t, all, n, origin, dest)
      decreases |Directories(cs.src.entries) + {origin}| - n
    {
      NextJobIsReady(cs.src, cs.plan, t0, cs.t, all, n, origin, dest);
      var job := copyJobs[0];
      copyJobs := copyJobs[1..];
      var more := CopyNext(cs, job, t0, all, n, origin, dest);
      QueueMoves(all, n, more);
      copyJobs := copyJobs + more;
      all, n := all + more, n + 1;
    }
  }

  lemma FinishedCopy(src: Source, plan: Plan, t0: Target, t: Target, all: seq<Job>, origin: Ino, dest: Ino)
    requires WellNumbered(t0) && InProgress(src, plan, t0, t, all, |all|, origin, dest)
    ensures WellNumbered(t) && Keeps(t0, t, dest) && (Indexed(t0) ==> Indexed(t))
    ensures forall path: seq<Name> | path != [] :: PathCopied(src, plan, t, t0.inodeNext, origin, dest, path)
    ensures forall h :: Count(t.counts, h) == Count(t0.counts, h) + |NewAddresses(t.mapping, t0.inodeNext, h)|
  {
    forall path: seq<Name> | path != [] ensures PathCopied(src, plan, t, t0.inodeNext, origin, dest, path) {
      EveryPathCopied(src, plan, t, t0.inodeNext, all, all[0], path);
    }
    forall h { CountersRise(t0, t, dest, h); }
  }

  // Copies everything below `origin` into the empty directory `dest`: at every path the
  // same kind of item with the same attributes and the planned block hashes on a new
  // inode, nothing old changed, and every counter raised by the mappings added.
  method DirectoryCopyRecursive(cs: CreateSnapshot, origin: Ino, dest: Ino)
    requires cs.Planned() && SourceOk(cs.src, origin)
    requires WellNumbered(cs.t) && dest < cs.t.inodeNext && forall p | p in cs.t.entries :: p.parent != dest
    modifies cs
    ensures WellNumbered(cs.t) && Keeps(old(cs.t), cs.t, dest) && (Indexed(old(cs.t)) ==> Indexed(cs.t))
    ensures forall path: seq<Name> | path != [] ::
              PathCopied(cs.src, cs.plan, cs.t, old(cs.t).inodeNext, origin, dest, path)
    ensures forall path: seq<Name> | path != [] :: WholeIffWithinSize(cs.src, cs.blockSize, cs.t, origin, dest, path)
    ensures forall h ::
              Count(cs.t.counts, h) == Count(old(cs.t).counts, h) + |NewAddresses(cs.t.mapping, old(cs.t).inodeNext, h)|
  {
    ghost var t0 := cs.t;
    var all := RunJobs(cs, origin, dest);
    FinishedCopy(cs.src, cs.plan, t0, cs.t, all, origin, dest);
    forall path: seq<Name> | path != [] ensures WholeIffWithinSize(cs.src, cs.blockSize, cs.t, origin, dest, path) {
      PathIsWholeIff(cs.src, cs.blockSize, cs.t, t0.inodeNext, origin, dest, path);
    }
  }
}
