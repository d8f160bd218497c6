// The content of a file across the transactions of one flush, with any other
// operations on other files in between: the counters keep exactly the blocks that the
// file needs, so the file goes from the old content to the new one in one step
// (the write path of src/fs/fuse_to_hashfs.rs on top of src/fs/mini_transaction.rs).
module FileContent {
  import opened Types
  import opened FlatFile
  import opened WritePath
  import opened RefCount
  import opened HashedFile

  // The hashes recorded for one file.
  function FileHashes(mapping: map<BlockAddress, Hash>, ino: Ino): map<nat, Hash> {
    map k | k in (set a | a in mapping && a.ino == ino :: a.index) :: mapping[BlockAddress(ino, k)]
  }

  lemma FileHashAt(mapping: map<BlockAddress, Hash>, ino: Ino, k: nat)
    ensures Lookup(FileHashes(mapping, ino), k) == Lookup(mapping, BlockAddress(ino, k))
  {
    if BlockAddress(ino, k) in mapping {
      assert BlockAddress(ino, k).index == k;
    }
  }

  // `targets` assigns these hashes to blocks of the file, and nothing else.
  ghost predicate Assigns(targets: Targets, ino: Ino, assign: map<nat, Hash>) {
    && (forall a | a in targets :: a.ino == ino && a.index in assign)
    && (forall k | k in assign :: BlockAddress(ino, k) in targets && targets[BlockAddress(ino, k)] == Some(assign[k]))
  }

  lemma FileTargetsAssign(ino: Ino, assign: map<nat, Hash>)
    ensures Assigns(FileTargets(ino, assign), ino, assign)
  {
    forall k | k in assign ensures BlockAddress(ino, k) in FileTargets(ino, assign) {
      assert BlockAddress(ino, k) in (set k | k in assign :: BlockAddress(ino, k));
    }
  }

  lemma FileHashesAfterReplace(mapping: map<BlockAddress, Hash>, targets: Targets, ino: Ino, assign: map<nat, Hash>)
    requires Assigns(targets, ino, assign)
    ensures FileHashes(ReplacedMapping(mapping, targets), ino) == FileHashes(mapping, ino) + assign
  {
    var l, r := FileHashes(ReplacedMapping(mapping, targets), ino), FileHashes(mapping, ino) + assign;
    forall k: nat ensures Lookup(l, k) == Lookup(r, k) {
      FileHashAt(mapping, ino, k);
      FileHashAt(ReplacedMapping(mapping, targets), ino, k);
      var a := BlockAddress(ino, k);
      if k in assign { assert a in targets; } else { assert a !in targets; }
    }
    SameLookups(l, r);
  }

  lemma FileHashesOfOthers(mapping: map<BlockAddress, Hash>, targets: Targets, ino: Ino)
    requires forall a | a in targets :: a.ino != ino
    ensures FileHashes(ReplacedMapping(mapping, targets), ino) == FileHashes(mapping, ino)
  {
    var l, r := FileHashes(ReplacedMapping(mapping, targets), ino), FileHashes(mapping, ino);
    forall k: nat ensures Lookup(l, k) == Lookup(r, k) {
      FileHashAt(mapping, ino, k);
      FileHashAt(ReplacedMapping(mapping, targets), ino, k);
    }
    SameLookups(l, r);
  }

  // The operation can still change mappings of the file.
  predicate Touching(op: Op, ino: Ino) {
    match op
    case Prepared(i, _, _) => i == ino
    case Counted(i, _, _, _) => i == ino
    case Uploaded(i, _, _) => i == ino
    case Clearing(addr) => addr.ino == ino
    case _ => false
  }

  predicate Starts(e: Event, ino: Ino) {
    (e.BeginWrite? && e.ino == ino) || (e.BeginClear? && e.addr.ino == ino)
  }

  predicate OnlyToucher(s: Sys, w: nat, ino: Ino) {
    w < |s.ops| && forall i | 0 <= i < |s.ops| && i != w :: !Touching(s.ops[i], ino)
  }

  function TargetsOf(op: Op): Targets {
    if op.Prepared? || op.Counted? || op.Uploaded? then op.targets else map[]
  }

  // Operation `w` still has its replacement ahead, or has done it.
  ghost predicate Tracks(s: Sys, w: nat, ino: Ino, targets: Targets, before: map<nat, Hash>, after: map<nat, Hash>) {
    && OnlyToucher(s, w, ino)
    && (if Touching(s.ops[w], ino)
        then !s.ops[w].Clearing? && TargetsOf(s.ops[w]) == targets && FileHashes(s.st.mapping, ino) == before
        else FileHashes(s.st.mapping, ino) == after)
  }

  // A step of an operation that cannot replace mappings of the file leaves them alone.
  lemma AdvanceLeavesFile(cfg: Config, s: Sys, i: nat, ino: Ino)
    requires i < |s.ops| && OpOk(cfg, s.ops[i])
    requires !Touching(s.ops[i], ino) || s.ops[i].Prepared? || s.ops[i].Counted?
    ensures FileHashes(Advanced(cfg, s, i).st.mapping, ino) == FileHashes(s.st.mapping, ino)
  {
    match s.ops[i]
    case Uploaded(_, t, _) => FileHashesOfOthers(s.st.mapping, t, ino);
    case Clearing(addr) => FileHashesOfOthers(s.st.mapping, map[addr := None], ino);
    case _ =>
  }

  lemma AdvanceOps(cfg: Config, s: Sys, i: nat, ino: Ino)
    requires i < |s.ops| && OpOk(cfg, s.ops[i])
    ensures var s' := Advanced(cfg, s, i);
            && |s'.ops| == |s.ops| && s'.ops == s.ops[i := s'.ops[i]]
            && (Touching(s'.ops[i], ino) <==> Touching(s.ops[i], ino) && (s.ops[i].Prepared? || s.ops[i].Counted?))
            && (Touching(s'.ops[i], ino) ==> !s'.ops[i].Clearing? && TargetsOf(s'.ops[i]) == TargetsOf(s.ops[i]))
  {
  }

  lemma AdvanceTracks(
      cfg: Config, s: Sys, i: nat, w: nat, ino: Ino, targets: Targets, assign: map<nat, Hash>, before: map<nat, Hash>)
    requires i < |s.ops| && OpOk(cfg, s.ops[i]) && Assigns(targets, ino, assign)
    requires Tracks(s, w, ino, targets, before, before + assign)
    ensures Tracks(Advanced(cfg, s, i), w, ino, targets, before, before + assign)
  {
    AdvanceOps(cfg, s, i, ino);
    if Touching(s.ops[i], ino) && s.ops[i].Uploaded? {
      FileHashesAfterReplace(s.st.mapping, targets, ino, assign);
    } else {
      AdvanceLeavesFile(cfg, s, i, ino);
    }
  }

  lemma ApplyTracks(
      cfg: Config, s: Sys, e: Event, w: nat, ino: Ino, targets: Targets, assign: map<nat, Hash>, before: map<nat, Hash>)
    requires Assigns(targets, ino, assign) && !Starts(e, ino)
    requires Tracks(s, w, ino, targets, before, before + assign)
    ensures Tracks(Apply(cfg, s, e), w, ino, targets, before, before + assign)
  {
    if e.Advance? && e.op < |s.ops| && OpOk(cfg, s.ops[e.op]) {
      AdvanceTracks(cfg, s, e.op, w, ino, targets, assign, before);
    }
  }

  lemma {:induction false} ExecTracks(
      cfg: Config, s: Sys, events: seq<Event>, w: nat, ino: Ino, targets: Targets, assign: map<nat, Hash>,
      before: map<nat, Hash>)
    requires Assigns(targets, ino, assign)
    requires forall e | e in events :: !Starts(e, ino)
    requires Tracks(s, w, ino, targets, before, before + assign)
    ensures Tracks(Exec(cfg, s, events), w, ino, targets, before, before + assign)
  {
    if events != [] {
      var n := |events| - 1;
      assert events[n] in events;
      ExecTracks(cfg, s, events[..n], w, ino, targets, assign, before);
      ApplyTracks(cfg, Exec(cfg, s, events[..n]), events[n], w, ino, targets, assign, before);
    }
  }

  // Nobody still has to upload a block that the file needs.
  ghost predicate NothingOwed(s: Sys, ino: Ino) {
    forall k, i | k in FileHashes(s.st.mapping, ino) :: !Owes(s.ops, i, FileHashes(s.st.mapping, ino)[k])
  }

  // A recorded hash leads to a stored block exactly when nobody owes its upload.
  lemma RecordedIsStoredIff(cfg: Config, s: Sys, ino: Ino, k: nat)
    requires Inv(cfg, s) && k in FileHashes(s.st.mapping, ino)
    ensures var h := FileHashes(s.st.mapping, ino)[k]; h in s.st.blocks <==> forall i :: !Owes(s.ops, i, h)
  {
    FileHashAt(s.st.mapping, ino, k);
    StoredIffNotOwed(cfg, s, BlockAddress(ino, k));
  }

  ghost predicate AllStored(s: Sys, hashes: map<nat, Hash>) {
    forall k | k in hashes :: hashes[k] in s.st.blocks
  }

  lemma AllStoredIffNothingOwed(cfg: Config, s: Sys, ino: Ino)
    requires Inv(cfg, s)
    ensures AllStored(s, FileHashes(s.st.mapping, ino)) <==> NothingOwed(s, ino)
  {
    var hashes := FileHashes(s.st.mapping, ino);
    forall k | k in hashes ensures hashes[k] in s.st.blocks <==> forall i :: !Owes(s.ops, i, hashes[k]) {
      RecordedIsStoredIff(cfg, s, ino, k);
    }
  }

  // As long as the file keeps its hashes it keeps their blocks.
  lemma StepKeepsStored(cfg: Config, s: Sys, e: Event, ino: Ino)
    requires Inv(cfg, s) && AllStored(s, FileHashes(s.st.mapping, ino))
    requires FileHashes(Apply(cfg, s, e).st.mapping, ino) == FileHashes(s.st.mapping, ino)
    ensures AllStored(Apply(cfg, s, e), FileHashes(s.st.mapping, ino))
  {
    var s', hashes := Apply(cfg, s, e), FileHashes(s.st.mapping, ino);
    ApplyKeepsInv(cfg, s, e);
    forall k | k in hashes ensures hashes[k] in s'.st.blocks {
      FileHashAt(s'.st.mapping, ino, k);
      MappedIsCounted(cfg, s', BlockAddress(ino, k));
      StoredWhileCounted(cfg, s, e, hashes[k]);
    }
  }

  lemma TouchingBefore(cfg: Config, s: Sys, e: Event, w: nat, ino: Ino)
    requires w < |s.ops| && w < |Apply(cfg, s, e).ops| && Touching(Apply(cfg, s, e).ops[w], ino)
    ensures Touching(s.ops[w], ino)
  {
    if e.Advance? && e.op < |s.ops| && OpOk(cfg, s.ops[e.op]) { AdvanceOps(cfg, s, e.op, ino); }
  }

  // Until the replacement the file's old blocks stay stored, whoever runs.
  lemma {:induction false} ExecKeepsStored(
      cfg: Config, s: Sys, events: seq<Event>, w: nat, ino: Ino, targets: Targets, assign: map<nat, Hash>,
      before: map<nat, Hash>)
    requires Inv(cfg, s) && Assigns(targets, ino, assign)
    requires forall e | e in events :: !Starts(e, ino)
    requires Tracks(s, w, ino, targets, before, before + assign) && AllStored(s, before)
    ensures var s' := Exec(cfg, s, events); w < |s'.ops| && (Touching(s'.ops[w], ino) ==> AllStored(s', before))
  {
    ExecTracks(cfg, s, events, w, ino, targets, assign, before);
    if events != [] {
      var front, e := events[..|events| - 1], events[|events| - 1];
      var t := Exec(cfg, s, front);
      ExecKeepsStored(cfg, s, front, w, ino, targets, assign, before);
      ExecTracks(cfg, s, front, w, ino, targets, assign, before);
      ExecKeepsInv(cfg, s, front);
      if Touching(Apply(cfg, t, e).ops[w], ino) {
        TouchingBefore(cfg, t, e, w, ino);
        StepKeepsStored(cfg, t, e, ino);
      }
    }
  }

  // What the flush of `jobs` turns a file with content `f` into.
  ghost function NewHashes(cfg: Config, f: seq<Byte>, jobs: seq<Job>, recorded: map<nat, Hash>): map<nat, Hash>
    requires cfg.blockSize > 0
  {
    Changed(recorded, HashesOf(cfg, BatchUpdates(Cut(f, cfg.blockSize), cfg.blockSize, jobs)))
  }

  // A prepared flush of `jobs` on a file with content `f` that nobody else touches.
  ghost predicate FlushStarts(
      cfg: Config, s: Sys, events: seq<Event>, w: nat, ino: Ino, targets: Targets, f: seq<Byte>, jobs: seq<Job>)
    requires cfg.blockSize > 0
  {
    var recorded := FileHashes(s.st.mapping, ino);
    && Inv(cfg, s) && Holds(cfg, recorded, s.st.blocks, f)
    && Assigns(targets, ino, NewHashes(cfg, f, jobs, recorded))
    && OnlyToucher(s, w, ino) && s.ops[w].Prepared? && s.ops[w].ino == ino && s.ops[w].targets == targets
    && (forall e | e in events :: !Starts(e, ino))
  }

  // The blocks stored before, stored now and written by the flush do not collide.
  ghost predicate RunBlocks(cfg: Config, contents: set<Block>, s: Sys, s': Sys, f: seq<Byte>, jobs: seq<Job>)
    requires cfg.blockSize > 0
  {
    && NoCollision(cfg, contents)
    && Occurring(contents, s.st.blocks, s'.st.blocks, BatchUpdates(Cut(f, cfg.blockSize), cfg.blockSize, jobs))
  }

  lemma HoldsMeansStored(cfg: Config, s: Sys, hashes: map<nat, Hash>, f: seq<Byte>)
    requires cfg.blockSize > 0 && Holds(cfg, hashes, s.st.blocks, f)
    ensures AllStored(s, hashes)
  {
    forall k | k in hashes ensures hashes[k] in s.st.blocks {
      assert k in Resolve(hashes, s.st.blocks);
    }
  }

  // Before the mappings are replaced the file holds its old content at every moment,
  // whatever other operations do to other files in between.
  lemma {:induction false} OldContentUntilReplaced(
      cfg: Config, contents: set<Block>, s: Sys, events: seq<Event>, w: nat, ino: Ino, targets: Targets,
      f: seq<Byte>, jobs: seq<Job>)
    requires cfg.blockSize > 0 && FlushStarts(cfg, s, events, w, ino, targets, f, jobs)
    requires RunBlocks(cfg, contents, s, Exec(cfg, s, events), f, jobs)
    ensures var s' := Exec(cfg, s, events);
            && w < |s'.ops|
            && (Touching(s'.ops[w], ino) ==> Holds(cfg, FileHashes(s'.st.mapping, ino), s'.st.blocks, f))
  {
    var s', recorded := Exec(cfg, s, events), FileHashes(s.st.mapping, ino);
    var assign := NewHashes(cfg, f, jobs, recorded);
    HoldsMeansStored(cfg, s, recorded, f);
    ExecKeepsInv(cfg, s, events);
    ExecTracks(cfg, s, events, w, ino, targets, assign, recorded);
    ExecKeepsStored(cfg, s, events, w, ino, targets, assign, recorded);
    if Touching(s'.ops[w], ino) {
      HoldsUnchanged(cfg, contents, f, recorded, s.st.blocks, s'.st.blocks);
    }
  }

  // From the replacement on it holds the overwritten content exactly when nobody owes
  // the upload of a block that it records.
  lemma {:induction false} NewContentIffNothingOwed(
      cfg: Config, contents: set<Block>, s: Sys, events: seq<Event>, w: nat, ino: Ino, targets: Targets,
      f: seq<Byte>, jobs: seq<Job>)
    requires cfg.blockSize > 0 && FlushStarts(cfg, s, events, w, ino, targets, f, jobs)
    requires NoGaps(f, jobs) && DisjointBlocks(cfg.blockSize, jobs)
    requires RunBlocks(cfg, contents, s, Exec(cfg, s, events), f, jobs)
    ensures var s' := Exec(cfg, s, events);
            && w < |s'.ops|
            && (!Touching(s'.ops[w], ino) ==>
                  (Holds(cfg, FileHashes(s'.st.mapping, ino), s'.st.blocks, FlatWrites(f, jobs)) <==>
                   NothingOwed(s', ino)))
  {
    var s', recorded := Exec(cfg, s, events), FileHashes(s.st.mapping, ino);
    ExecKeepsInv(cfg, s, events);
    ExecTracks(cfg, s, events, w, ino, targets, NewHashes(cfg, f, jobs, recorded), recorded);
    AllStoredIffNothingOwed(cfg, s', ino);
    if !Touching(s'.ops[w], ino) {
      if NothingOwed(s', ino) {
        NeededIsKept(cfg, recorded, s'.st.blocks, BatchUpdates(Cut(f, cfg.blockSize), cfg.blockSize, jobs));
        FlushKeepsHolding(cfg, contents, jobs, f, recorded, s.st.blocks, s'.st.blocks);
      }
      if Holds(cfg, FileHashes(s'.st.mapping, ino), s'.st.blocks, FlatWrites(f, jobs)) {
        HoldsMeansStored(cfg, s', FileHashes(s'.st.mapping, ino), FlatWrites(f, jobs));
      }
    }
  }

  // ---------------------------------------------------------------------------
  // When a flush is safe

  // What the flush meets when it counts: a hash that somebody has counted before it is
  // stored already.
  ghost predicate CountsSafely(s: Sys, targets: Targets) {
    forall h | h in Increments(targets) :: Count(s.st.counts, h) == 0 || h in s.st.blocks
  }

  // Every hash that the flush assigns is stored, or the flush itself will upload it.
  ghost predicate StoredOrOwn(s: Sys, w: nat, assign: map<nat, Hash>) {
    forall k | k in assign :: assign[k] in s.st.blocks || Owes(s.ops, w, assign[k])
  }

  // After counting, and after the replacement.
  ghost predicate Secure(s: Sys, w: nat, ino: Ino, before: map<nat, Hash>, assign: map<nat, Hash>)
    requires w < |s.ops|
  {
    if Touching(s.ops[w], ino)
    then !s.ops[w].Prepared? && AllStored(s, before) && StoredOrOwn(s, w, assign)
    else AllStored(s, before + assign)
  }

  lemma AssignedIsNew(targets: Targets, ino: Ino, assign: map<nat, Hash>, k: nat)
    requires Assigns(targets, ino, assign) && k in assign
    ensures BlockAddress(ino, k) in NewAddrs(targets, assign[k])
    ensures NewAddrs(targets, assign[k]) != {} && assign[k] in Increments(targets)
  {
    IncrementsCount(targets, assign[k]);
  }

  lemma HeldIsCounted(cfg: Config, s: Sys, w: nat, h: Hash)
    requires Inv(cfg, s) && w < |s.ops| && Held(s.ops[w], h) > 0
    ensures h in s.st.counts
  {
    HeldAfterUpdate(s.ops, w, Finished, h);
    assert Count(s.st.counts, h) > 0;
  }

  lemma CountingSecures(
      cfg: Config, s: Sys, w: nat, ino: Ino, targets: Targets, assign: map<nat, Hash>, before: map<nat, Hash>)
    requires w < |s.ops| && OpOk(cfg, s.ops[w])
    requires s.ops[w].Prepared? && s.ops[w].ino == ino && s.ops[w].targets == targets
    requires Assigns(targets, ino, assign) && CountsSafely(s, targets) && AllStored(s, before)
    ensures var s' := Apply(cfg, s, Advance(w)); w < |s'.ops| && Secure(s', w, ino, before, assign)
  {
    var s' := Apply(cfg, s, Advance(w));
    forall k | k in assign ensures assign[k] in s'.st.blocks || Owes(s'.ops, w, assign[k]) {
      AssignedIsNew(targets, ino, assign, k);
    }
  }

  // One assigned hash, while the replacement is ahead.
  lemma StaysStoredOrOwn(
      cfg: Config, s: Sys, e: Event, w: nat, ino: Ino, targets: Targets, assign: map<nat, Hash>, k: nat)
    requires Inv(cfg, s) && Assigns(targets, ino, assign) && k in assign
    requires w < |s.ops| && (s.ops[w].Counted? || s.ops[w].Uploaded?) && w < |Apply(cfg, s, e).ops|
    requires var op := Apply(cfg, s, e).ops[w]; (op.Counted? || op.Uploaded?) && op.targets == targets
    requires assign[k] in s.st.blocks || Owes(s.ops, w, assign[k])
    ensures assign[k] in Apply(cfg, s, e).st.blocks || Owes(Apply(cfg, s, e).ops, w, assign[k])
  {
    if assign[k] in s.st.blocks {
      ApplyKeepsInv(cfg, s, e);
      AssignedIsNew(targets, ino, assign, k);
      HeldIsCounted(cfg, Apply(cfg, s, e), w, assign[k]);
      StoredWhileCounted(cfg, s, e, assign[k]);
    } else {
      OwedOrUploaded(cfg, s, e, w, assign[k]);
    }
  }

  lemma OwedOrUploaded(cfg: Config, s: Sys, e: Event, w: nat, h: Hash)
    requires OpsOk(cfg, s) && Owes(s.ops, w, h)
    ensures h in Apply(cfg, s, e).st.blocks || Owes(Apply(cfg, s, e).ops, w, h)
  {
  }

  lemma StepStaysSecure(
      cfg: Config, s: Sys, e: Event, w: nat, ino: Ino, targets: Targets, assign: map<nat, Hash>, before: map<nat, Hash>)
    requires Inv(cfg, s) && Assigns(targets, ino, assign) && !Starts(e, ino)
    requires Tracks(s, w, ino, targets, before, before + assign) && Secure(s, w, ino, before, assign)
    ensures w < |Apply(cfg, s, e).ops| && Secure(Apply(cfg, s, e), w, ino, before, assign)
  {
    var s' := Apply(cfg, s, e);
    ApplyTracks(cfg, s, e, w, ino, targets, assign, before);
    if Touching(s'.ops[w], ino) {
      TouchingBefore(cfg, s, e, w, ino);
      StepKeepsStored(cfg, s, e, ino);
      NotPreparedAgain(cfg, s, e, w);
      forall k | k in assign ensures assign[k] in s'.st.blocks || Owes(s'.ops, w, assign[k]) {
        StaysStoredOrOwn(cfg, s, e, w, ino, targets, assign, k);
      }
    } else if Touching(s.ops[w], ino) {
      ReplacementStep(cfg, s, e, w, ino);
    } else {
      StepKeepsStored(cfg, s, e, ino);
    }
  }

  lemma NotPreparedAgain(cfg: Config, s: Sys, e: Event, w: nat)
    requires w < |s.ops| && !s.ops[w].Prepared? && w < |Apply(cfg, s, e).ops|
    ensures !Apply(cfg, s, e).ops[w].Prepared?
  {
  }

  // The step in which the operation stops touching the file.
  lemma ReplacementStep(cfg: Config, s: Sys, e: Event, w: nat, ino: Ino)
    requires w < |s.ops| && Touching(s.ops[w], ino) && !s.ops[w].Clearing? && w < |Apply(cfg, s, e).ops|
    requires !Touching(Apply(cfg, s, e).ops[w], ino)
    ensures s.ops[w].Uploaded? && Apply(cfg, s, e).st.blocks == s.st.blocks
  {
    if e.Advance? && e.op < |s.ops| && OpOk(cfg, s.ops[e.op]) { AdvanceOps(cfg, s, e.op, ino); }
  }

  lemma {:induction false} ExecStaysSecure(
      cfg: Config, s: Sys, events: seq<Event>, w: nat, ino: Ino, targets: Targets, assign: map<nat, Hash>,
      before: map<nat, Hash>)
    requires Inv(cfg, s) && Assigns(targets, ino, assign) && forall e | e in events :: !Starts(e, ino)
    requires Tracks(s, w, ino, targets, before, before + assign) && Secure(s, w, ino, before, assign)
    ensures w < |Exec(cfg, s, events).ops| && Secure(Exec(cfg, s, events), w, ino, before, assign)
  {
    if events != [] {
      var n := |events| - 1;
      assert events[n] in events;
      ExecStaysSecure(cfg, s, events[..n], w, ino, targets, assign, before);
      ExecTracks(cfg, s, events[..n], w, ino, targets, assign, before);
      ExecKeepsInv(cfg, s, events[..n]);
      StepStaysSecure(cfg, Exec(cfg, s, events[..n]), events[n], w, ino, targets, assign, before);
    }
  }

  // From the replacement on the file holds the overwritten content.
  ghost predicate HoldsOnceReplaced(cfg: Config, s: Sys, w: nat, ino: Ino, g: seq<Byte>)
    requires cfg.blockSize > 0 && w < |s.ops|
  {
    !Touching(s.ops[w], ino) ==> Holds(cfg, FileHashes(s.st.mapping, ino), s.st.blocks, g)
  }

  lemma {:induction false} SafeFlushStores(
      cfg: Config, s: Sys, later: seq<Event>, w: nat, ino: Ino, targets: Targets, assign: map<nat, Hash>,
      before: map<nat, Hash>)
    requires Inv(cfg, s) && Assigns(targets, ino, assign) && forall e | e in later :: !Starts(e, ino)
    requires Tracks(s, w, ino, targets, before, before + assign) && AllStored(s, before)
    requires s.ops[w].Prepared? && s.ops[w].ino == ino && s.ops[w].targets == targets && CountsSafely(s, targets)
    ensures var s' := Exec(cfg, Apply(cfg, s, Advance(w)), later);
            w < |s'.ops| && (!Touching(s'.ops[w], ino) ==> AllStored(s', FileHashes(s'.st.mapping, ino)))
  {
    var s1 := Apply(cfg, s, Advance(w));
    CountingSecures(cfg, s, w, ino, targets, assign, before);
    ApplyTracks(cfg, s, Advance(w), w, ino, targets, assign, before);
    ApplyKeepsInv(cfg, s, Advance(w));
    ExecStaysSecure(cfg, s1, later, w, ino, targets, assign, before);
    ExecTracks(cfg, s1, later, w, ino, targets, assign, before);
  }

  // A flush that counts safely: whatever runs on other files from then on, the file
  // holds the overwritten content from the replacement on.
  lemma {:induction false} SafeFlushHolds(
      cfg: Config, contents: set<Block>, s: Sys, events: seq<Event>, w: nat, ino: Ino, targets: Targets,
      f: seq<Byte>, jobs: seq<Job>)
    requires cfg.blockSize > 0 && FlushStarts(cfg, s, events, w, ino, targets, f, jobs) && RunOfOthers(events, w, ino)
    requires NoGaps(f, jobs) && DisjointBlocks(cfg.blockSize, jobs) && CountsSafely(s, targets)
    requires RunBlocks(cfg, contents, s, Exec(cfg, s, events), f, jobs)
    ensures var s' := Exec(cfg, s, events); w < |s'.ops| && HoldsOnceReplaced(cfg, s', w, ino, FlatWrites(f, jobs))
  {
    var before := FileHashes(s.st.mapping, ino);
    HoldsMeansStored(cfg, s, before, f);
    LaterEvents(cfg, s, events, w, ino);
    SafeFlushStores(cfg, s, events[1..], w, ino, targets, NewHashes(cfg, f, jobs, before), before);
    ExecKeepsInv(cfg, s, events);
    AllStoredIffNothingOwed(cfg, Exec(cfg, s, events), ino);
    NewContentIffNothingOwed(cfg, contents, s, events, w, ino, targets, f, jobs);
  }

  lemma {:induction false} LaterEvents(cfg: Config, s: Sys, events: seq<Event>, w: nat, ino: Ino)
    requires RunOfOthers(events, w, ino)
    ensures forall e | e in events[1..] :: !Starts(e, ino)
    ensures Exec(cfg, s, events) == Exec(cfg, Apply(cfg, s, Advance(w)), events[1..])
  {
    assert events == [Advance(w)] + events[1..];
    FirstStep(cfg, s, Advance(w), events[1..]);
  }

  // Counting, uploading and replacing.
  function OwnSteps(w: nat): seq<Event> {
    [Advance(w), Advance(w), Advance(w)]
  }

  lemma MissingBlock(cfg: Config, s: Sys, ino: Ino, k: nat, g: seq<Byte>)
    requires cfg.blockSize > 0 && k in FileHashes(s.st.mapping, ino)
    requires FileHashes(s.st.mapping, ino)[k] !in s.st.blocks
    ensures !Holds(cfg, FileHashes(s.st.mapping, ino), s.st.blocks, g)
  {
    var hashes := FileHashes(s.st.mapping, ino);
    if Holds(cfg, hashes, s.st.blocks, g) { HoldsMeansStored(cfg, s, hashes, g); }
  }

  lemma {:induction false} ThreeSteps(cfg: Config, s: Sys, w: nat)
    ensures var e := Advance(w); Exec(cfg, s, OwnSteps(w)) == Apply(cfg, Apply(cfg, Apply(cfg, s, e), e), e)
  {
    var e := Advance(w);
    var s1 := Apply(cfg, s, e);
    var s2 := Apply(cfg, s1, e);
    ExecThrough(cfg, OwnSteps(w), [s, s1, s2, Apply(cfg, s2, e)]);
  }

  lemma OwnStepsStartNothing(w: nat, ino: Ino)
    ensures forall e | e in OwnSteps(w) :: !Starts(e, ino)
  {
  }

  lemma MissingOnceReplaced(
      cfg: Config, s: Sys, w: nat, ino: Ino, targets: Targets, assign: map<nat, Hash>, before: map<nat, Hash>,
      h: Hash, g: seq<Byte>)
    requires cfg.blockSize > 0 && Tracks(s, w, ino, targets, before, before + assign) && s.ops[w].Replaced?
    requires Assigns(targets, ino, assign) && h in Increments(targets) && h !in s.st.blocks
    ensures !HoldsOnceReplaced(cfg, s, w, ino, g)
  {
    var k := AssignedIndex(targets, ino, assign, h);
    MissingBlock(cfg, s, ino, k, g);
  }

  // A flush that does not: its own next three steps leave the file with a block missing.
  lemma {:induction false} UnsafeFlushFails(
      cfg: Config, s: Sys, w: nat, ino: Ino, targets: Targets, f: seq<Byte>, jobs: seq<Job>, g: seq<Byte>)
    requires cfg.blockSize > 0 && FlushStarts(cfg, s, [], w, ino, targets, f, jobs) && !CountsSafely(s, targets)
    ensures var s' := Exec(cfg, s, OwnSteps(w)); w < |s'.ops| && !HoldsOnceReplaced(cfg, s', w, ino, g)
  {
    var h :| h in Increments(targets) && Count(s.st.counts, h) > 0 && h !in s.st.blocks;
    var before := FileHashes(s.st.mapping, ino);
    var assign := NewHashes(cfg, f, jobs, before);
    OwnStepsStartNothing(w, ino);
    ExecTracks(cfg, s, OwnSteps(w), w, ino, targets, assign, before);
    MapsWithoutUpload(cfg, s, w, h);
    MissingOnceReplaced(cfg, Exec(cfg, s, OwnSteps(w)), w, ino, targets, assign, before, h, g);
  }

  lemma AssignedIndex(targets: Targets, ino: Ino, assign: map<nat, Hash>, h: Hash) returns (k: nat)
    requires Assigns(targets, ino, assign) && h in Increments(targets)
    ensures k in assign && assign[k] == h
  {
    IncrementsCount(targets, h);
    var a :| a in NewAddrs(targets, h);
    k := a.index;
    assert a == BlockAddress(ino, k);
  }

  // Counting, uploading and replacing; a hash that was counted before is not uploaded.
  lemma {:induction false} MapsWithoutUpload(cfg: Config, s: Sys, w: nat, h: Hash)
    requires w < |s.ops| && s.ops[w].Prepared? && OpOk(cfg, s.ops[w])
    requires Count(s.st.counts, h) > 0 && h !in s.st.blocks
    ensures var s' := Exec(cfg, s, OwnSteps(w)); w < |s'.ops| && s'.ops[w].Replaced? && h !in s'.st.blocks
  {
    var e := Advance(w);
    var s1 := Apply(cfg, s, e);
    assert s1.ops[w].Counted? && h !in s1.ops[w].owed && h !in s1.st.blocks;
    var s2 := Apply(cfg, s1, e);
    assert s2.ops[w].Uploaded? && h !in s2.st.blocks;
    var s3 := Apply(cfg, s2, e);
    assert s3.ops[w].Replaced? && h !in s3.st.blocks;
    ThreeSteps(cfg, s, w);
  }

  // The flush's blocks and what is stored are among the contents.
  ghost predicate FlushBlocks(cfg: Config, contents: set<Block>, s: Sys, w: nat, f: seq<Byte>, jobs: seq<Job>)
    requires cfg.blockSize > 0 && w < |s.ops| && s.ops[w].Prepared?
  {
    && RunBlocks(cfg, contents, s, s, f, jobs)
    && forall h | h in s.ops[w].data :: s.ops[w].data[h] in contents
  }

  // The run starts with the flush's next step and nothing else starts on the file.
  ghost predicate RunOfOthers(events: seq<Event>, w: nat, ino: Ino) {
    events != [] && events[0] == Advance(w) && forall e | e in events :: !Starts(e, ino)
  }

  // Whatever runs, with these blocks, from the flush's next step on.
  ghost predicate AlwaysHoldsOnceReplaced(
      cfg: Config, contents: set<Block>, s: Sys, w: nat, ino: Ino, f: seq<Byte>, jobs: seq<Job>, g: seq<Byte>)
    requires cfg.blockSize > 0
  {
    forall events | RunOfOthers(events, w, ino) && RunBlocks(cfg, contents, s, Exec(cfg, s, events), f, jobs) ::
      w < |Exec(cfg, s, events).ops| && HoldsOnceReplaced(cfg, Exec(cfg, s, events), w, ino, g)
  }

  // What is stored, and what the operation may upload.
  ghost predicate UsesOnly(cfg: Config, s: Sys, w: nat, contents: set<Block>)
    requires w < |s.ops|
  {
    && OpOk(cfg, s.ops[w]) && (forall h | h in s.st.blocks :: s.st.blocks[h] in contents)
    && (s.ops[w].Prepared? || s.ops[w].Counted? ==> forall h | h in s.ops[w].data :: s.ops[w].data[h] in contents)
  }

  lemma OwnStepUsesOnly(cfg: Config, s: Sys, w: nat, contents: set<Block>)
    requires w < |s.ops| && UsesOnly(cfg, s, w, contents)
    ensures var s' := Apply(cfg, s, Advance(w)); w < |s'.ops| && UsesOnly(cfg, s', w, contents)
  {
    AdvancedOpOk(cfg, s, w);
    if s.ops[w].Counted? {
      forall h | h in s.ops[w].owed ensures h in s.ops[w].data { IncrementsCount(s.ops[w].targets, h); }
    }
  }

  lemma {:induction false} OwnStepsUseOwnBlocks(
      cfg: Config, contents: set<Block>, s: Sys, w: nat, f: seq<Byte>, jobs: seq<Job>)
    requires cfg.blockSize > 0 && OpsOk(cfg, s) && w < |s.ops| && s.ops[w].Prepared?
    requires FlushBlocks(cfg, contents, s, w, f, jobs)
    ensures RunBlocks(cfg, contents, s, Exec(cfg, s, OwnSteps(w)), f, jobs)
  {
    var e := Advance(w);
    OwnStepUsesOnly(cfg, s, w, contents);
    var s1 := Apply(cfg, s, e);
    OwnStepUsesOnly(cfg, s1, w, contents);
    var s2 := Apply(cfg, s1, e);
    OwnStepUsesOnly(cfg, s2, w, contents);
    ThreeSteps(cfg, s, w);
  }

  // A flush leaves the overwritten content in every run of other files' operations if and
  // only if it meets no counted hash without its block when it counts.
  lemma {:induction false} FlushIsSafeIff(
      cfg: Config, contents: set<Block>, s: Sys, w: nat, ino: Ino, targets: Targets, f: seq<Byte>, jobs: seq<Job>)
    requires cfg.blockSize > 0 && FlushStarts(cfg, s, [], w, ino, targets, f, jobs)
    requires NoGaps(f, jobs) && DisjointBlocks(cfg.blockSize, jobs) && FlushBlocks(cfg, contents, s, w, f, jobs)
    ensures AlwaysHoldsOnceReplaced(cfg, contents, s, w, ino, f, jobs, FlatWrites(f, jobs)) <==>
            CountsSafely(s, targets)
  {
    if CountsSafely(s, targets) {
      forall events | RunOfOthers(events, w, ino) && RunBlocks(cfg, contents, s, Exec(cfg, s, events), f, jobs)
        ensures w < |Exec(cfg, s, events).ops|
        ensures HoldsOnceReplaced(cfg, Exec(cfg, s, events), w, ino, FlatWrites(f, jobs))
      {
        SafeFlushHolds(cfg, contents, s, events, w, ino, targets, f, jobs);
      }
    } else {
      UnsafeFlushFails(cfg, s, w, ino, targets, f, jobs, FlatWrites(f, jobs));
      OwnStepsUseOwnBlocks(cfg, contents, s, w, f, jobs);
      OwnStepsStartNothing(w, ino);
      assert RunOfOthers(OwnSteps(w), w, ino);
    }
  }

  lemma HoldsUnchanged(
      cfg: Config, contents: set<Block>, f: seq<Byte>,
      recorded: map<nat, Hash>, stored: map<Hash, Block>, stored': map<Hash, Block>)
    requires cfg.blockSize > 0 && Holds(cfg, recorded, stored, f)
    requires UnderOwnHash(cfg, stored) && UnderOwnHash(cfg, stored') && NoCollision(cfg, contents)
    requires forall h | h in stored :: stored[h] in contents
    requires forall h | h in stored' :: stored'[h] in contents
    requires forall k | k in recorded :: recorded[k] in stored'
    ensures Holds(cfg, recorded, stored', f)
  {
    forall k | k in recorded ensures stored'[recorded[k]] == stored[recorded[k]] {
      assert k in Resolve(recorded, stored);
    }
    assert Resolve(recorded, stored') == Resolve(recorded, stored);
  }

  lemma NeededIsKept(cfg: Config, recorded: map<nat, Hash>, stored': map<Hash, Block>, u: Content)
    requires var recorded' := recorded + Changed(recorded, HashesOf(cfg, u));
             forall k | k in recorded' :: recorded'[k] in stored'
    ensures KeepsWhatIsNeeded(cfg, recorded, stored', u)
  {
    var recorded' := recorded + Changed(recorded, HashesOf(cfg, u));
    forall k | k in recorded && k !in u ensures recorded[k] in stored' {
      RecordedAt(cfg, recorded, u, k);
      assert k in recorded' && recorded'[k] == recorded[k];
    }
    forall k | k in u ensures cfg.digest(u[k]) in stored' {
      RecordedAt(cfg, recorded, u, k);
      assert k in recorded' && recorded'[k] == cfg.digest(u[k]);
    }
  }

  // ---------------------------------------------------------------------------
  // Why the condition is needed

  // A write of one block, at each of its stages.
  function OneBlock(addr: BlockAddress, h: Hash): Targets {
    map[addr := Some(h)]
  }

  lemma OneBlockIncrements(addr: BlockAddress, h: Hash)
    ensures Increments(OneBlock(addr, h)) == map[h := 1]
  {
    assert NewAddrs(OneBlock(addr, h), h) == {addr};
    forall g ensures g in Increments(OneBlock(addr, h)) <==> g == h { IncrementsCount(OneBlock(addr, h), g); }
  }

  lemma OneBlockReplaces(mapping: map<BlockAddress, Hash>, addr: BlockAddress, h: Hash)
    requires addr !in mapping
    ensures ReplacedMapping(mapping, OneBlock(addr, h)) == mapping[addr := h]
    ensures Displaced(mapping, OneBlock(addr, h)) == map[]
  {
    assert forall g :: DisplacedAddrs(mapping, OneBlock(addr, h), g) == {};
  }

  lemma NothingToDecrement(st: Store)
    ensures Decremented(st, map[]) == st
  {
  }

  lemma CountsWithoutOwing(cfg: Config, s: Sys, w: nat, addr: BlockAddress, h: Hash, b: Block)
    requires w < |s.ops| && s.ops[w] == Prepared(addr.ino, OneBlock(addr, h), map[h := b])
    requires cfg.digest(b) == h && b != [] && Count(s.st.counts, h) > 0
    ensures Apply(cfg, s, Advance(w)) ==
            s.(st := s.st.(counts := Incremented(s.st.counts, map[h := 1])),
               ops := s.ops[w := Counted(addr.ino, OneBlock(addr, h), map[h := b], {})])
  {
    OneBlockIncrements(addr, h);
    assert (set g | g in map[h := 1] && Count(s.st.counts, g) == 0) == {};
  }

  lemma UploadsNothing(cfg: Config, s: Sys, w: nat, addr: BlockAddress, h: Hash, b: Block)
    requires w < |s.ops| && s.ops[w] == Counted(addr.ino, OneBlock(addr, h), map[h := b], {})
    requires cfg.digest(b) == h && b != []
    ensures Apply(cfg, s, Advance(w)) == s.(ops := s.ops[w := Uploaded(addr.ino, OneBlock(addr, h), map[h := b])])
  {
    assert s.st.blocks + map[] == s.st.blocks;
  }

  lemma MapsTheBlock(cfg: Config, s: Sys, w: nat, addr: BlockAddress, h: Hash, b: Block) returns (max: nat)
    requires w < |s.ops| && s.ops[w] == Uploaded(addr.ino, OneBlock(addr, h), map[h := b])
    requires cfg.digest(b) == h && b != [] && addr !in s.st.mapping
    ensures Apply(cfg, s, Advance(w)) ==
            s.(st := s.st.(mapping := s.st.mapping[addr := h]), ops := s.ops[w := Replaced(addr.ino, max, map[])])
  {
    OneBlockReplaces(s.st.mapping, addr, h);
    max := MaxEnd(cfg, OneBlock(addr, h).Keys, OneBlock(addr, h), map[h := b]);
  }

  lemma RaisesTheSize(cfg: Config, s: Sys, w: nat, ino: Ino, max: nat) returns (size: nat)
    requires w < |s.ops| && s.ops[w] == Replaced(ino, max, map[]) && ino in s.st.sizes
    ensures Apply(cfg, s, Advance(w)) ==
            s.(st := s.st.(sizes := s.st.sizes[ino := size]), ops := s.ops[w := Displacing(map[])])
  {
    size := if s.st.sizes[ino] < max then max else s.st.sizes[ino];
  }

  lemma GivesNothingBack(cfg: Config, s: Sys, w: nat)
    requires w < |s.ops| && s.ops[w] == Displacing(map[])
    ensures Apply(cfg, s, Advance(w)) == s.(ops := s.ops[w := Finished])
  {
    NothingToDecrement(s.st);
  }

  lemma {:induction false} FiveSteps(
      cfg: Config, events: seq<Event>, s: Sys, s1: Sys, s2: Sys, s3: Sys, s4: Sys, s5: Sys)
    requires |events| == 5
    requires Apply(cfg, s, events[0]) == s1 && Apply(cfg, s1, events[1]) == s2 && Apply(cfg, s2, events[2]) == s3
    requires Apply(cfg, s3, events[3]) == s4 && Apply(cfg, s4, events[4]) == s5
    ensures Exec(cfg, s, events) == s5
  {
    ExecThrough(cfg, events, [s, s1, s2, s3, s4, s5]);
  }

  lemma MapsWithoutBlock(cfg: Config, s: Sys, w: nat, addr: BlockAddress, h: Hash, b: Block)
    returns (s1: Sys, s2: Sys, s3: Sys, max: nat)
    requires w < |s.ops| && s.ops[w] == Prepared(addr.ino, OneBlock(addr, h), map[h := b])
    requires cfg.digest(b) == h && b != [] && Count(s.st.counts, h) > 0 && addr !in s.st.mapping
    ensures var e := Advance(w); s1 == Apply(cfg, s, e) && s2 == Apply(cfg, s1, e) && s3 == Apply(cfg, s2, e)
    ensures s3.ops == s.ops[w := Replaced(addr.ino, max, map[])]
    ensures s3.st.mapping == s.st.mapping[addr := h] && s3.st.blocks == s.st.blocks && s3.st.sizes == s.st.sizes
  {
    CountsWithoutOwing(cfg, s, w, addr, h, b);
    s1 := Apply(cfg, s, Advance(w));
    UploadsNothing(cfg, s1, w, addr, h, b);
    s2 := Apply(cfg, s1, Advance(w));
    max := MapsTheBlock(cfg, s2, w, addr, h, b);
    s3 := Apply(cfg, s2, Advance(w));
  }

  // A hash that is counted is not uploaded again, and the operation does not wait for
  // whoever owes it: five steps later it is finished and its block still missing.
  lemma {:induction false} FinishesWithoutBlock(cfg: Config, s: Sys, w: nat, addr: BlockAddress, h: Hash, b: Block)
    requires w < |s.ops| && s.ops[w] == Prepared(addr.ino, OneBlock(addr, h), map[h := b])
    requires cfg.digest(b) == h && b != []
    requires Count(s.st.counts, h) > 0 && h !in s.st.blocks && addr !in s.st.mapping && addr.ino in s.st.sizes
    ensures var s' := Exec(cfg, s, [Advance(w), Advance(w), Advance(w), Advance(w), Advance(w)]);
            && s'.ops == s.ops[w := Finished] && s'.st.mapping == s.st.mapping[addr := h] && h !in s'.st.blocks
  {
    var e := Advance(w);
    var s1, s2, s3, max := MapsWithoutBlock(cfg, s, w, addr, h, b);
    var size := RaisesTheSize(cfg, s3, w, addr.ino, max);
    var s4 := Apply(cfg, s3, e);
    GivesNothingBack(cfg, s4, w);
    FiveSteps(cfg, [e, e, e, e, e], s, s1, s2, s3, s4, Apply(cfg, s4, e));
  }

  lemma CountsAndOwes(cfg: Config, s: Sys, addr: BlockAddress, h: Hash, b: Block)
    requires s.ops != [] && s.ops[0] == Prepared(addr.ino, OneBlock(addr, h), map[h := b])
    requires cfg.digest(b) == h && b != [] && s.st.counts == map[]
    ensures Apply(cfg, s, Advance(0)) ==
            s.(st := s.st.(counts := Incremented(map[], map[h := 1])),
               ops := [Counted(addr.ino, OneBlock(addr, h), map[h := b], {h})] + s.ops[1..])
  {
    OneBlockIncrements(addr, h);
    assert (set g | g in map[h := 1] && Count(map[], g) == 0) == {h};
    var op := Counted(addr.ino, OneBlock(addr, h), map[h := b], {h});
    assert s.ops[0 := op] == [op] + s.ops[1..];
  }

  // Both clients have their block ready; the first counts it and stops.
  lemma FirstCountsAndStops(cfg: Config, b: Block) returns (events: seq<Event>)
    requires b != []
    ensures var s, h := Exec(cfg, Empty, events), cfg.digest(b);
            && s.ops == [Counted(0, OneBlock(BlockAddress(0, 0), h), map[h := b], {h}),
                         Prepared(1, OneBlock(BlockAddress(1, 0), h), map[h := b])]
            && Count(s.st.counts, h) == 1 && s.st.blocks == map[] && s.st.mapping == map[] && 1 in s.st.sizes
  {
    var h := cfg.digest(b);
    var first, second := OneBlock(BlockAddress(0, 0), h), OneBlock(BlockAddress(1, 0), h);
    events :=
      [CreateFile, CreateFile, BeginWrite(0, first, map[h := b]), BeginWrite(1, second, map[h := b]), Advance(0)];
    var p0, p1 := Prepared(0, first, map[h := b]), Prepared(1, second, map[h := b]);
    var s1 := Sys(Store(map[], map[], map[], map[0 := 0]), [], 1);
    var s2 := Sys(Store(map[], map[], map[], map[0 := 0, 1 := 0]), [], 2);
    var s3, s4 := s2.(ops := [p0]), s2.(ops := [p0, p1]);
    var s5 := s4.(st := s4.st.(counts := Incremented(map[], map[h := 1])),
                  ops := [Counted(0, first, map[h := b], {h}), p1]);
    CountsAndOwes(cfg, s4, BlockAddress(0, 0), h, b);
    FiveSteps(cfg, events, Empty, s1, s2, s3, s4, s5);
  }

  // Two clients write the same new block.  The first counts it and stops, the second
  // finishes: its file records a block that is not stored.
  lemma FinishedFileWithoutBlock(cfg: Config, b: Block) returns (events: seq<Event>)
    requires b != []
    ensures var s := Exec(cfg, Empty, events);
            && |s.ops| == 2 && s.ops[1] == Finished && Owes(s.ops, 0, cfg.digest(b))
            && s.st.mapping == map[BlockAddress(1, 0) := cfg.digest(b)] && cfg.digest(b) !in s.st.blocks
  {
    var opening := FirstCountsAndStops(cfg, b);
    var e := Advance(1);
    events := opening + [e, e, e, e, e];
    ExecInTurn(cfg, Empty, opening, [e, e, e, e, e]);
    FinishesWithoutBlock(cfg, Exec(cfg, Empty, opening), 1, BlockAddress(1, 0), cfg.digest(b), b);
  }
}
