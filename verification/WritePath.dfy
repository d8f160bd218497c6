// Writing a list of jobs to a file (`hb_write_data` in src/fs/fuse_to_hashfs.rs and
// `UpdateIrregularBlock` in src/fs/hash_block/helpers.rs).
//
// All jobs of one flush read the blocks as they were before the flush, and their
// updates are collected before anything is written.
module WritePath {
  import opened Types
  import opened BlockSplitter
  import opened FlatFile

  datatype Job = Job(start: nat, data: seq<Byte>)

  function SplitJob(blockSize: nat, job: Job): Split
    requires blockSize > 0
  {
    SplitWrite(blockSize, job.start, job.data)
  }

  predicate TouchedBy(blockSize: nat, job: Job, k: nat) {
    Touches(blockSize, job.start, job.data, k)
  }

  // ---------------------------------------------------------------------------
  // One flush and one job at a time

  // The irregular blocks of all jobs, later jobs winning.
  function BatchIrregular(m: Content, blockSize: nat, jobs: seq<Job>): Content
    requires blockSize > 0
  {
    if jobs == [] then map[]
    else
      var n := |jobs| - 1;
      BatchIrregular(m, blockSize, jobs[..n]) + IrregularUpdates(m, SplitJob(blockSize, jobs[n]))
  }

  function BatchMids(blockSize: nat, jobs: seq<Job>): Content
    requires blockSize > 0
  {
    if jobs == [] then map[]
    else
      var n := |jobs| - 1;
      BatchMids(blockSize, jobs[..n]) + MidUpdates(SplitJob(blockSize, jobs[n]), blockSize)
  }

  // What one flush writes: first all irregular blocks, then all whole ones.
  function BatchUpdates(m: Content, blockSize: nat, jobs: seq<Job>): Content
    requires blockSize > 0
  {
    BatchIrregular(m, blockSize, jobs) + BatchMids(blockSize, jobs)
  }

  // The blocks after one write per job.
  function Sequential(m: Content, blockSize: nat, jobs: seq<Job>): Content
    requires blockSize > 0
  {
    if jobs == [] then m
    else
      var n := |jobs| - 1;
      var before := Sequential(m, blockSize, jobs[..n]);
      before + Updates(before, SplitJob(blockSize, jobs[n]), blockSize)
  }

  ghost predicate DisjointBlocks(blockSize: nat, jobs: seq<Job>) {
    forall i, j, k: nat | 0 <= i < j < |jobs| :: !(TouchedBy(blockSize, jobs[i], k) && TouchedBy(blockSize, jobs[j], k))
  }

  lemma {:induction false} BatchKeys(m: Content, blockSize: nat, jobs: seq<Job>, k: nat)
    requires blockSize > 0
    requires k in BatchIrregular(m, blockSize, jobs) || k in BatchMids(blockSize, jobs)
    ensures exists i | 0 <= i < |jobs| :: TouchedBy(blockSize, jobs[i], k)
  {
    var n := |jobs| - 1;
    LastJobKeys(m, blockSize, jobs[n], k);
    if !TouchedBy(blockSize, jobs[n], k) {
      BatchKeys(m, blockSize, jobs[..n], k);
      var i :| 0 <= i < n && TouchedBy(blockSize, jobs[..n][i], k);
      assert TouchedBy(blockSize, jobs[i], k);
    }
  }

  // An update looks only at the block it replaces.
  lemma UpdateIsLocal(m: Content, m': Content, s: Split, blockSize: nat, k: nat)
    requires blockSize > 0 && Get(m, k) == Get(m', k)
    ensures k in Updates(m, s, blockSize) <==> k in Updates(m', s, blockSize)
    ensures k in Updates(m, s, blockSize) ==> Updates(m, s, blockSize)[k] == Updates(m', s, blockSize)[k]
  {
    UpdatesAt(m, s, blockSize, k);
    UpdatesAt(m', s, blockSize, k);
  }

  lemma RegroupAt(a: Content, b: Content, c: Content, d: Content, k: nat)
    ensures k !in a && k !in c ==> Lookup((a + b) + (c + d), k) == Lookup(b + d, k)
    ensures k !in b && k !in d ==> Lookup((a + b) + (c + d), k) == Lookup(a + c, k)
  {
  }

  lemma BatchSplitsOff(m: Content, blockSize: nat, jobs: seq<Job>, k: nat)
    requires blockSize > 0 && jobs != []
    requires var n := |jobs| - 1; TouchedBy(blockSize, jobs[n], k) ==>
               forall i | 0 <= i < n :: !TouchedBy(blockSize, jobs[i], k)
    ensures var n := |jobs| - 1;
            Lookup(BatchUpdates(m, blockSize, jobs), k) ==
            if TouchedBy(blockSize, jobs[n], k) then Lookup(Updates(m, SplitJob(blockSize, jobs[n]), blockSize), k)
            else Lookup(BatchUpdates(m, blockSize, jobs[..n]), k)
    ensures var n := |jobs| - 1;
            TouchedBy(blockSize, jobs[n], k) ==> Lookup(BatchUpdates(m, blockSize, jobs[..n]), k) == None
  {
    var n := |jobs| - 1;
    var a, c := BatchIrregular(m, blockSize, jobs[..n]), BatchMids(blockSize, jobs[..n]);
    var b, d := IrregularUpdates(m, SplitJob(blockSize, jobs[n])), MidUpdates(SplitJob(blockSize, jobs[n]), blockSize);
    assert BatchUpdates(m, blockSize, jobs) == (a + b) + (c + d);
    RegroupAt(a, b, c, d, k);
    LastJobKeys(m, blockSize, jobs[n], k);
    if k in a || k in c {
      BatchKeys(m, blockSize, jobs[..n], k);
    }
  }

  lemma LastJobKeys(m: Content, blockSize: nat, job: Job, k: nat)
    requires blockSize > 0
    ensures TouchedBy(blockSize, job, k) <==>
            k in IrregularUpdates(m, SplitJob(blockSize, job)) || k in MidUpdates(SplitJob(blockSize, job), blockSize)
  {
    UpdatedKeys(m, blockSize, job.start, job.data, k);
  }

  lemma {:induction false} BatchAt(m: Content, blockSize: nat, jobs: seq<Job>, k: nat)
    requires blockSize > 0 && DisjointBlocks(blockSize, jobs)
    ensures Lookup(m + BatchUpdates(m, blockSize, jobs), k) == Lookup(Sequential(m, blockSize, jobs), k)
  {
    if jobs != [] {
      var n := |jobs| - 1;
      var before := Sequential(m, blockSize, jobs[..n]);
      BatchAt(m, blockSize, jobs[..n], k);
      BatchSplitsOff(m, blockSize, jobs, k);
      UpdatedKeys(before, blockSize, jobs[n].start, jobs[n].data, k);
      if TouchedBy(blockSize, jobs[n], k) {
        assert Lookup(before, k) == Lookup(m, k);
        UpdateIsLocal(m, before, SplitJob(blockSize, jobs[n]), blockSize, k);
      }
    }
  }

  // One flush of jobs on disjoint blocks writes what the jobs write one by one.
  lemma {:induction false} BatchEqualsSequential(m: Content, blockSize: nat, jobs: seq<Job>)
    requires blockSize > 0 && DisjointBlocks(blockSize, jobs)
    ensures m + BatchUpdates(m, blockSize, jobs) == Sequential(m, blockSize, jobs)
  {
    forall k { BatchAt(m, blockSize, jobs, k); }
    SameLookups(m + BatchUpdates(m, blockSize, jobs), Sequential(m, blockSize, jobs));
  }

  // Block `k` is merged into what was there before.
  predicate IsMerged(s: Split, k: nat) {
    (s.first != [] && k == s.firstIndex) || (s.last != [] && k == s.lastIndex)
  }

  ghost predicate AgreeOnMerged(m: Content, m': Content, s: Split) {
    forall k: nat | IsMerged(s, k) :: Get(m, k) == Get(m', k)
  }

  lemma LooksAtMerged(m: Content, m': Content, s: Split)
    requires AgreeOnMerged(m, m', s)
    ensures IrregularUpdates(m, s) == IrregularUpdates(m', s)
  {
    if s.first != [] { assert IsMerged(s, s.firstIndex); }
    if s.last != [] { assert IsMerged(s, s.lastIndex); }
  }

  lemma {:induction false} BatchIrregularNext(m: Content, blockSize: nat, jobs: seq<Job>, i: nat)
    requires blockSize > 0 && i < |jobs|
    ensures BatchIrregular(m, blockSize, jobs[..i + 1]) ==
            BatchIrregular(m, blockSize, jobs[..i]) + IrregularUpdates(m, SplitJob(blockSize, jobs[i]))
  {
    var upTo := jobs[..i + 1];
    assert upTo[..|upTo| - 1] == jobs[..i];
    BatchIrregularLast(m, blockSize, upTo);
  }

  lemma {:induction false} BatchIrregularLast(m: Content, blockSize: nat, jobs: seq<Job>)
    requires blockSize > 0 && jobs != []
    ensures var n := |jobs| - 1;
            BatchIrregular(m, blockSize, jobs) ==
            BatchIrregular(m, blockSize, jobs[..n]) + IrregularUpdates(m, SplitJob(blockSize, jobs[n]))
  {
  }

  lemma {:induction false} OneJob(m: Content, blockSize: nat, job: Job)
    requires blockSize > 0
    ensures BatchUpdates(m, blockSize, [job]) == Updates(m, SplitJob(blockSize, job), blockSize)
  {
    var jobs, s := [job], SplitJob(blockSize, job);
    assert jobs[..0] == [];
    BatchIrregularLast(m, blockSize, jobs);
    BatchMidsLast(blockSize, jobs);
    NothingBefore(IrregularUpdates(m, s));
    NothingBefore(MidUpdates(s, blockSize));
  }

  lemma {:induction false} BatchMidsLast(blockSize: nat, jobs: seq<Job>)
    requires blockSize > 0 && jobs != []
    ensures var n := |jobs| - 1;
            BatchMids(blockSize, jobs) ==
            BatchMids(blockSize, jobs[..n]) + MidUpdates(SplitJob(blockSize, jobs[n]), blockSize)
  {
  }

  lemma NothingBefore(m: Content)
    ensures map[] + m == m
  {
  }

  // Only merged blocks are looked at.
  lemma {:induction false} BatchLooksAtMerged(m: Content, m': Content, blockSize: nat, jobs: seq<Job>)
    requires blockSize > 0 && forall i | 0 <= i < |jobs| :: AgreeOnMerged(m, m', SplitJob(blockSize, jobs[i]))
    ensures BatchUpdates(m, blockSize, jobs) == BatchUpdates(m', blockSize, jobs)
  {
    IrregularLooksAtMerged(m, m', blockSize, jobs, |jobs|);
    assert jobs[..|jobs|] == jobs;
  }

  lemma {:induction false} IrregularLooksAtMerged(m: Content, m': Content, blockSize: nat, jobs: seq<Job>, n: nat)
    requires blockSize > 0 && n <= |jobs|
    requires forall i | 0 <= i < |jobs| :: AgreeOnMerged(m, m', SplitJob(blockSize, jobs[i]))
    ensures BatchIrregular(m, blockSize, jobs[..n]) == BatchIrregular(m', blockSize, jobs[..n])
  {
    if n > 0 {
      IrregularLooksAtMerged(m, m', blockSize, jobs, n - 1);
      LooksAtMerged(m, m', SplitJob(blockSize, jobs[n - 1]));
      BatchIrregularNext(m, blockSize, jobs, n - 1);
      BatchIrregularNext(m', blockSize, jobs, n - 1);
    }
  }

  // ---------------------------------------------------------------------------
  // On the flat file

  function FlatWrites(f: seq<Byte>, jobs: seq<Job>): (g: seq<Byte>)
    requires NoGaps(f, jobs)
    ensures |g| == FlatLength(f, jobs)
  {
    if jobs == [] then f
    else
      var n := |jobs| - 1;
      Overwrite(FlatWrites(f, jobs[..n]), jobs[n].start, jobs[n].data)
  }

  // No job starts beyond the end that the jobs before it have reached.
  predicate NoGaps(f: seq<Byte>, jobs: seq<Job>) {
    jobs == [] ||
    (NoGaps(f, jobs[..|jobs| - 1]) && jobs[|jobs| - 1].start <= FlatLength(f, jobs[..|jobs| - 1]))
  }

  function FlatLength(f: seq<Byte>, jobs: seq<Job>): nat {
    if jobs == [] then |f|
    else
      var before, last := FlatLength(f, jobs[..|jobs| - 1]), jobs[|jobs| - 1];
      if before < last.start + |last.data| then last.start + |last.data| else before
  }

  lemma {:induction false} SequentialRefinesFlat(f: seq<Byte>, blockSize: nat, jobs: seq<Job>)
    requires blockSize > 0 && NoGaps(f, jobs)
    ensures Sequential(Cut(f, blockSize), blockSize, jobs) == Cut(FlatWrites(f, jobs), blockSize)
  {
    if jobs != [] {
      var n := |jobs| - 1;
      SequentialRefinesFlat(f, blockSize, jobs[..n]);
      WriteRefinesOverwrite(FlatWrites(f, jobs[..n]), blockSize, jobs[n].start, jobs[n].data);
    }
  }

  // A flush of disjoint jobs on a dense file gives the dense file of the overwritten
  // and extended content.
  lemma {:induction false} FlushRefinesFlat(f: seq<Byte>, blockSize: nat, jobs: seq<Job>)
    requires blockSize > 0 && NoGaps(f, jobs) && DisjointBlocks(blockSize, jobs)
    ensures Cut(f, blockSize) + BatchUpdates(Cut(f, blockSize), blockSize, jobs) == Cut(FlatWrites(f, jobs), blockSize)
  {
    BatchEqualsSequential(Cut(f, blockSize), blockSize, jobs);
    SequentialRefinesFlat(f, blockSize, jobs);
  }
}
