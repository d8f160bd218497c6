// The N-process critical section used to serialise work on one key
// (src/fs/szymanskis_critical_section.rs).
//
// Every process publishes one byte under a key that ends in its own UUID; a
// missing key means "non-critical".  `Turn` is the atomic step of one process:
// either one scan of the other processes' keys, or one write of the own key.
// The program counter separates "the scan succeeded" from "the flag has been
// written", so every interleaving between the two is covered.  A schedule is
// any list of process ids, and every reachable state is `Exec(Init, schedule)`
// for some schedule.
module Lock {
  import opened Types

  // UUIDs are compared as 128-bit big-endian numbers; nothing depends on the bound.
  type Uuid = nat

  datatype Flag =
    | S0Noncritical
    | S1Intention
    | S2WaitingRoom
    | S3DoorIn
    | S4DoorOut

  function AsU8(f: Flag): (b: nat)
    ensures FromU8(b) == f
  {
    match f
    case S0Noncritical => 0
    case S1Intention => 1
    case S2WaitingRoom => 2
    case S3DoorIn => 3
    case S4DoorOut => 4
  }

  // A byte that names no state falls back to the non-critical one.
  function FromU8(b: nat): Flag {
    if b == 1 then S1Intention
    else if b == 2 then S2WaitingRoom
    else if b == 3 then S3DoorIn
    else if b == 4 then S4DoorOut
    else S0Noncritical
  }

  // Nothing else reads as a state, and only the non-critical one is read from other bytes.
  lemma ReadsAs(b: nat, f: Flag)
    ensures FromU8(b) == f <==> b == AsU8(f) || (f == S0Noncritical && forall g :: b != AsU8(g))
  {
    var known := [AsU8(S0Noncritical), AsU8(S1Intention), AsU8(S2WaitingRoom), AsU8(S3DoorIn), AsU8(S4DoorOut)];
    assert known == [0, 1, 2, 3, 4];
  }

  // Where a process stands between two of its atomic accesses.
  datatype Pc =
    | Outside     // not in `enter`, in the critical section or in `leave`
    | Intent      // S1 written, polling for "nobody beyond the waiting room"
    | SawClear    // that poll succeeded, S3 not yet written
    | DoorIn      // S3 written, about to look for other intentions
    | SawIntent   // somebody else intends to enter, S2 not yet written
    | WaitingRoom // S2 written, polling for somebody at S4
    | SawDoorOut  // that poll succeeded, S4 not yet written
    | SawNone     // nobody else intends to enter, S4 not yet written
    | DoorOut     // S4 written, polling for the smaller ids
    | Critical    // `enter` has returned
    | MayLeave    // the poll of `leave` succeeded, key not yet deleted

  // `pcs` holds the processes that are not `Outside`.
  datatype State = State(keys: map<Uuid, nat>, pcs: map<Uuid, Pc>)

  const Init := State(map[], map[])

  function PcOf(s: State, u: Uuid): Pc {
    if u in s.pcs then s.pcs[u] else Outside
  }

  function FlagOf(pc: Pc): Flag {
    match pc
    case Outside => S0Noncritical
    case Intent | SawClear => S1Intention
    case DoorIn | SawIntent | SawNone => S3DoorIn
    case WaitingRoom | SawDoorOut => S2WaitingRoom
    case DoorOut | Critical | MayLeave => S4DoorOut
  }

  // One range scan: the published states of all other processes.
  function Others(keys: map<Uuid, nat>, me: Uuid): map<Uuid, Flag> {
    map u | u in keys && u != me :: FromU8(keys[u])
  }

  // The five scan conditions of `enter` and `leave`; the ranges of states they
  // accept are written as the states they exclude.

  predicate NobodyBeyondWaitingRoom(seen: map<Uuid, Flag>) {
    forall u | u in seen :: seen[u] != S3DoorIn && seen[u] != S4DoorOut
  }

  predicate SomebodyIntends(seen: map<Uuid, Flag>) {
    exists u | u in seen :: seen[u] == S1Intention
  }

  predicate SomebodyAtDoorOut(seen: map<Uuid, Flag>) {
    exists u | u in seen :: seen[u] == S4DoorOut
  }

  predicate SmallerIdsOutside(me: Uuid, seen: map<Uuid, Flag>) {
    forall u | u in seen :: u >= me || seen[u] == S0Noncritical || seen[u] == S1Intention
  }

  predicate LargerIdsOutsideOrDone(me: Uuid, seen: map<Uuid, Flag>) {
    forall u | u in seen :: u <= me || (seen[u] != S2WaitingRoom && seen[u] != S3DoorIn)
  }

  // Writing S0 deletes the key.
  function WithOwnState(keys: map<Uuid, nat>, me: Uuid, f: Flag): map<Uuid, nat> {
    if f == S0Noncritical then keys - {me} else keys[me := AsU8(f)]
  }

  // Where the next atomic access leads from `pc`; a failed poll stays where it is.
  function NextPc(me: Uuid, pc: Pc, seen: map<Uuid, Flag>): Pc {
    match pc
    case Outside => Intent
    case Intent => if NobodyBeyondWaitingRoom(seen) then SawClear else Intent
    case SawClear => DoorIn
    case DoorIn => if SomebodyIntends(seen) then SawIntent else SawNone
    case SawIntent => WaitingRoom
    case WaitingRoom => if SomebodyAtDoorOut(seen) then SawDoorOut else WaitingRoom
    case SawDoorOut => DoorOut
    case SawNone => DoorOut
    case DoorOut => if SmallerIdsOutside(me, seen) then Critical else DoorOut
    case Critical => if LargerIdsOutsideOrDone(me, seen) then MayLeave else Critical
    case MayLeave => Outside
  }

  // Only a step that changes the own flag writes the own key.
  function Placed(s: State, me: Uuid, pc: Pc): State {
    State(
      if FlagOf(PcOf(s, me)) == FlagOf(pc) then s.keys else WithOwnState(s.keys, me, FlagOf(pc)),
      if pc == Outside then s.pcs - {me} else s.pcs[me := pc])
  }

  // One turn of process `me`.
  function Turn(s: State, me: Uuid): State {
    Placed(s, me, NextPc(me, PcOf(s, me), Others(s.keys, me)))
  }

  // The state after the processes of `schedule` took one turn each, in that order.
  function Exec(s: State, schedule: seq<Uuid>): State {
    if schedule == [] then s
    else Turn(Exec(s, schedule[..|schedule| - 1]), schedule[|schedule| - 1])
  }

  // ---------------------------------------------------------------------------
  // The inductive invariant

  // `enter` has returned and `leave` has not yet deleted the key.
  predicate Entered(pc: Pc) {
    pc == Critical || pc == MayLeave
  }

  predicate S4(pc: Pc) {
    pc == DoorOut || Entered(pc)
  }

  predicate InWaitingRoom(pc: Pc) {
    pc == SawIntent || pc == WaitingRoom || pc == SawDoorOut
  }

  // The published keys are exactly the flags of the program counters.
  ghost predicate KeysAgree(s: State) {
    && s.keys.Keys == s.pcs.Keys
    && forall u | u in s.pcs :: s.pcs[u] != Outside && s.keys[u] == AsU8(FlagOf(s.pcs[u]))
  }

  // Once somebody shows S4, or is committed to S4 straight from S3, nobody is
  // poised to write S3.
  ghost predicate DoorClosed(s: State) {
    forall p, q :: S4(PcOf(s, p)) || PcOf(s, p) == SawNone ==> PcOf(s, q) != SawClear
  }

  // Leaving the waiting room is always backed by a process that shows S4.
  ghost predicate SomebodyOpenedDoorOut(s: State) {
    forall q :: PcOf(s, q) == SawDoorOut ==> exists p :: S4(PcOf(s, p))
  }

  // Below a process that has entered, everybody is still outside.
  ghost predicate SmallerOutside(s: State) {
    forall p, q :: Entered(PcOf(s, p)) && q < p ==> PcOf(s, q) == Outside || PcOf(s, q) == Intent
  }

  // Next to a process about to leave, everybody is outside or already at S4.
  ghost predicate LeaverIsLast(s: State) {
    forall p, q :: PcOf(s, p) == MayLeave && q != p ==>
      PcOf(s, q) == Outside || PcOf(s, q) == Intent || S4(PcOf(s, q))
  }

  // Processes bound to or in the waiting room are never the only active ones.
  ghost predicate WaitingRoomAccompanied(s: State) {
    forall q :: InWaitingRoom(PcOf(s, q)) ==>
      exists r :: PcOf(s, r) != Outside && !InWaitingRoom(PcOf(s, r))
  }

  ghost predicate Inv(s: State) {
    && KeysAgree(s)
    && DoorClosed(s)
    && SomebodyOpenedDoorOut(s)
    && SmallerOutside(s)
    && LeaverIsLast(s)
    && WaitingRoomAccompanied(s)
  }

  // A turn, said without the keys: where `me` was, where it went, and what the
  // others' flags were when it passed a scan.
  ghost predicate Hop(s: State, me: Uuid, s': State) {
    && (forall u | u != me :: PcOf(s', u) == PcOf(s, u))
    && HopTo(s, me, PcOf(s', me))
  }

  ghost predicate HopTo(s: State, me: Uuid, pc: Pc) {
    match pc
    case Outside => PcOf(s, me) == MayLeave
    case Intent => PcOf(s, me) == Outside
    case SawClear => PcOf(s, me) == Intent &&
      forall u | u != me :: FlagOf(PcOf(s, u)) != S3DoorIn && FlagOf(PcOf(s, u)) != S4DoorOut
    case DoorIn => PcOf(s, me) == SawClear
    case SawIntent => PcOf(s, me) == DoorIn && exists u :: u != me && FlagOf(PcOf(s, u)) == S1Intention
    case SawNone => PcOf(s, me) == DoorIn && forall u | u != me :: FlagOf(PcOf(s, u)) != S1Intention
    case WaitingRoom => PcOf(s, me) == SawIntent
    case SawDoorOut => PcOf(s, me) == WaitingRoom && exists u :: S4(PcOf(s, u))
    case DoorOut => PcOf(s, me) == SawDoorOut || PcOf(s, me) == SawNone
    case Critical => PcOf(s, me) == DoorOut &&
      forall u: Uuid | u < me :: FlagOf(PcOf(s, u)) == S0Noncritical || FlagOf(PcOf(s, u)) == S1Intention
    case MayLeave =>
      PcOf(s, me) == Critical &&
      forall u: Uuid | u > me :: FlagOf(PcOf(s, u)) != S2WaitingRoom && FlagOf(PcOf(s, u)) != S3DoorIn
  }

  lemma SeenIsFlag(s: State, me: Uuid)
    requires KeysAgree(s)
    ensures forall u :: u in Others(s.keys, me) <==> PcOf(s, u) != Outside && u != me
    ensures forall u :: u in Others(s.keys, me) ==> Others(s.keys, me)[u] == FlagOf(PcOf(s, u))
  {
  }

  lemma PlacedFrame(s: State, me: Uuid, pc: Pc)
    requires KeysAgree(s)
    ensures KeysAgree(Placed(s, me, pc))
    ensures forall u :: PcOf(Placed(s, me, pc), u) == if u == me then pc else PcOf(s, u)
  {
    var s' := Placed(s, me, pc);
    forall u
      ensures PcOf(s', u) == if u == me then pc else PcOf(s, u)
      ensures u in s'.keys <==> u in s'.pcs
      ensures u in s'.pcs ==> s'.pcs[u] != Outside && s'.keys[u] == AsU8(FlagOf(s'.pcs[u]))
    {
    }
    assert s'.keys.Keys == s'.pcs.Keys;
  }

  // The scans that look at everybody, and those that look at some ids.
  lemma GlobalScanIsHop(s: State, me: Uuid, pc: Pc)
    requires KeysAgree(s) && (pc == Intent || pc == DoorIn || pc == WaitingRoom) && PcOf(s, me) == pc
    requires NextPc(me, pc, Others(s.keys, me)) != pc
    ensures HopTo(s, me, NextPc(me, pc, Others(s.keys, me)))
  {
    SeenIsFlag(s, me);
  }

  lemma OrderedScanIsHop(s: State, me: Uuid, pc: Pc)
    requires KeysAgree(s) && (pc == DoorOut || pc == Critical) && PcOf(s, me) == pc
    requires NextPc(me, pc, Others(s.keys, me)) != pc
    ensures HopTo(s, me, NextPc(me, pc, Others(s.keys, me)))
  {
    SeenIsFlag(s, me);
  }

  lemma NextPcIsHop(s: State, me: Uuid)
    requires KeysAgree(s) && NextPc(me, PcOf(s, me), Others(s.keys, me)) != PcOf(s, me)
    ensures HopTo(s, me, NextPc(me, PcOf(s, me), Others(s.keys, me)))
  {
    var pc := PcOf(s, me);
    if pc == Intent || pc == DoorIn || pc == WaitingRoom {
      GlobalScanIsHop(s, me, pc);
    } else if pc == DoorOut || pc == Critical {
      OrderedScanIsHop(s, me, pc);
    }
  }

  lemma TurnIsHop(s: State, me: Uuid)
    requires KeysAgree(s)
    ensures KeysAgree(Turn(s, me))
    ensures Turn(s, me) == s || Hop(s, me, Turn(s, me))
  {
    var pc' := NextPc(me, PcOf(s, me), Others(s.keys, me));
    PlacedFrame(s, me, pc');
    if pc' == PcOf(s, me) {
      assert Turn(s, me) == s;
    } else {
      NextPcIsHop(s, me);
    }
  }

  lemma HopKeepsDoorClosed(s: State, me: Uuid, s': State)
    requires DoorClosed(s) && SomebodyOpenedDoorOut(s) && Hop(s, me, s')
    ensures DoorClosed(s')
  {
  }

  lemma HopKeepsSomebodyOpenedDoorOut(s: State, me: Uuid, s': State)
    requires SomebodyOpenedDoorOut(s) && LeaverIsLast(s) && Hop(s, me, s')
    ensures SomebodyOpenedDoorOut(s')
  {
  }

  lemma HopKeepsSmallerOutside(s: State, me: Uuid, s': State)
    requires SmallerOutside(s) && DoorClosed(s) && Hop(s, me, s')
    ensures SmallerOutside(s')
  {
  }

  lemma HopKeepsLeaverIsLast(s: State, me: Uuid, s': State)
    requires LeaverIsLast(s) && SmallerOutside(s) && DoorClosed(s) && Hop(s, me, s')
    ensures LeaverIsLast(s')
  {
  }

  lemma HopKeepsWaitingRoomAccompanied(s: State, me: Uuid, s': State)
    requires WaitingRoomAccompanied(s) && LeaverIsLast(s) && Hop(s, me, s')
    ensures WaitingRoomAccompanied(s')
  {
  }

  lemma TurnKeepsInv(s: State, me: Uuid)
    requires Inv(s)
    ensures Inv(Turn(s, me))
  {
    var s' := Turn(s, me);
    TurnIsHop(s, me);
    if s' != s {
      HopKeepsDoorClosed(s, me, s');
      HopKeepsSomebodyOpenedDoorOut(s, me, s');
      HopKeepsSmallerOutside(s, me, s');
      HopKeepsLeaverIsLast(s, me, s');
      HopKeepsWaitingRoomAccompanied(s, me, s');
    }
  }

  lemma {:induction false} Reachable(schedule: seq<Uuid>)
    ensures Inv(Exec(Init, schedule))
  {
    if schedule != [] {
      Reachable(schedule[..|schedule| - 1]);
      TurnKeepsInv(Exec(Init, schedule[..|schedule| - 1]), schedule[|schedule| - 1]);
    }
  }

  // ---------------------------------------------------------------------------
  // Safety

  // At most one process is between the end of `enter` and the key deletion of `leave`.
  lemma {:induction false} MutualExclusion(schedule: seq<Uuid>, p: Uuid, q: Uuid)
    requires Entered(PcOf(Exec(Init, schedule), p)) && Entered(PcOf(Exec(Init, schedule), q))
    ensures p == q
  {
    Reachable(schedule);
  }

  lemma {:induction false} Alone(schedule: seq<Uuid>, me: Uuid)
    requires PcOf(Exec(Init, schedule), me) == Critical
    ensures forall u | u != me :: !Entered(PcOf(Exec(Init, schedule), u))
  {
    forall u | u != me && Entered(PcOf(Exec(Init, schedule), u)) { MutualExclusion(schedule, me, u); }
  }

  // When the last process that shows S4 deletes its key, everybody else shows S0 or S1.
  lemma LastLeaverEmptiesRoom(s: State, p: Uuid)
    requires Inv(s) && PcOf(s, p) == MayLeave
    requires forall u | u != p :: FlagOf(PcOf(s, u)) != S4DoorOut
    ensures forall u :: FlagOf(PcOf(Turn(s, p), u)) == S0Noncritical || FlagOf(PcOf(Turn(s, p), u)) == S1Intention
  {
    PlacedFrame(s, p, Outside);
  }

  // ---------------------------------------------------------------------------
  // Progress

  // The next access of `u` is a write, or a scan that succeeds.
  predicate Enabled(s: State, u: Uuid) {
    NextPc(u, PcOf(s, u), Others(s.keys, u)) != PcOf(s, u)
  }

  lemma Smallest(us: set<Uuid>) returns (least: Uuid)
    requires us != {}
    ensures least in us && forall u | u in us :: least <= u
  {
    least :| least in us;
    if us != {least} {
      var rest := Smallest(us - {least});
      assert forall u | u in us :: u == least || u in us - {least};
      if rest < least { least := rest; }
    }
  }

  // `u` cannot move now: its poll fails.
  ghost predicate Stuck(s: State, u: Uuid) {
    PcOf(s, u) == Outside || !Enabled(s, u)
  }

  // Only polls get stuck, and only on the flags they wait for.
  lemma StuckMeans(s: State, u: Uuid)
    requires KeysAgree(s) && Stuck(s, u)
    ensures PcOf(s, u) in {Outside, Intent, WaitingRoom, DoorOut, Critical}
    ensures PcOf(s, u) == Intent ==>
      exists v :: FlagOf(PcOf(s, v)) == S3DoorIn || FlagOf(PcOf(s, v)) == S4DoorOut
    ensures PcOf(s, u) == WaitingRoom ==> forall v :: FlagOf(PcOf(s, v)) != S4DoorOut
    ensures PcOf(s, u) == DoorOut ==>
      exists v: Uuid :: v < u && FlagOf(PcOf(s, v)) != S0Noncritical && FlagOf(PcOf(s, v)) != S1Intention
    ensures PcOf(s, u) == Critical ==>
      exists v :: FlagOf(PcOf(s, v)) == S2WaitingRoom || FlagOf(PcOf(s, v)) == S3DoorIn
  {
    SeenIsFlag(s, u);
  }

  lemma NotWaitingForTheDoor(s: State, m: Uuid, u: Uuid)
    requires KeysAgree(s) && Stuck(s, u) && S4(PcOf(s, m))
    ensures PcOf(s, u) in {Outside, Intent, DoorOut, Critical}
  {
    StuckMeans(s, u);
    assert FlagOf(PcOf(s, m)) == S4DoorOut;
  }

  lemma SmallestIsNotStuck(s: State, m: Uuid)
    requires KeysAgree(s) && S4(PcOf(s, m))
    requires forall u :: PcOf(s, u) in {Outside, Intent, DoorOut, Critical}
    requires forall v: Uuid | v < m :: !S4(PcOf(s, v))
    ensures !Stuck(s, m)
  {
    if Stuck(s, m) { StuckMeans(s, m); }
  }

  // If everybody is stuck, the smallest id at S4 would have to be stuck although
  // nobody holds it back.
  lemma NobodyShowsS4IfAllStuck(s: State, p: Uuid)
    requires KeysAgree(s) && forall u :: Stuck(s, u)
    ensures !S4(PcOf(s, p))
  {
    if S4(PcOf(s, p)) {
      var showing := set v | v in s.pcs && S4(s.pcs[v]);
      assert p in showing;
      var m := Smallest(showing);
      assert S4(PcOf(s, m));
      forall u ensures PcOf(s, u) in {Outside, Intent, DoorOut, Critical} { NotWaitingForTheDoor(s, m, u); }
      forall v: Uuid | v < m ensures !S4(PcOf(s, v)) { assert v !in showing; }
      SmallestIsNotStuck(s, m);
    }
  }

  // Among the processes that are trying to enter or to leave, at least one can move.
  lemma NoDeadlock(s: State)
    requires Inv(s) && s.pcs != map[]
    ensures exists u :: u in s.pcs && Enabled(s, u)
  {
    var v :| v in s.pcs;
    assert PcOf(s, v) != Outside;
    if forall u :: Stuck(s, u) {
      AllStuckMeansNobodyActive(s);
    }
  }

  lemma AllStuckMeansNobodyActive(s: State)
    requires Inv(s) && forall u :: Stuck(s, u)
    ensures forall u :: PcOf(s, u) == Outside
  {
    forall u ensures PcOf(s, u) in {Outside, Intent, WaitingRoom} {
      NobodyShowsS4IfAllStuck(s, u);
      StuckMeans(s, u);
    }
    forall u ensures PcOf(s, u) != Intent { StuckMeans(s, u); }
    forall u ensures PcOf(s, u) == Outside {
      assert InWaitingRoom(PcOf(s, u)) ==> exists r :: PcOf(s, r) != Outside && !InWaitingRoom(PcOf(s, r));
    }
  }

  // ---------------------------------------------------------------------------
  // Liveness of a closed group

  // Accesses left before the key is deleted, if no poll fails.
  function Remaining(pc: Pc): nat {
    match pc
    case Outside => 0
    case MayLeave => 1
    case Critical => 2
    case DoorOut => 3
    case SawDoorOut | SawNone => 4
    case WaitingRoom => 5
    case SawIntent => 6
    case DoorIn => 7
    case SawClear => 8
    case Intent => 9
  }

  ghost function Work(s: State): set<(Uuid, nat)> {
    set u, k: nat | u in s.pcs && k < Remaining(s.pcs[u]) :: (u, k)
  }

  lemma WorkOf(s: State, u: Uuid, k: nat)
    ensures (u, k) in Work(s) <==> k < Remaining(PcOf(s, u))
  {
  }

  lemma LessWork(s: State, s': State, u: Uuid)
    requires forall v | v != u :: PcOf(s', v) == PcOf(s, v)
    requires Remaining(PcOf(s', u)) < Remaining(PcOf(s, u))
    ensures Work(s') < Work(s)
  {
    forall v, k: nat | (v, k) in Work(s') ensures (v, k) in Work(s) {
      WorkOf(s, v, k);
      WorkOf(s', v, k);
    }
    var k := Remaining(PcOf(s, u)) - 1;
    WorkOf(s, u, k);
    WorkOf(s', u, k);
  }

  lemma TurnDoesWork(s: State, u: Uuid)
    requires KeysAgree(s) && u in s.pcs && Enabled(s, u)
    ensures Work(Turn(s, u)) < Work(s)
  {
    TurnIsHop(s, u);
    PlacedFrame(s, u, NextPc(u, PcOf(s, u), Others(s.keys, u)));
    LessWork(s, Turn(s, u), u);
  }

  lemma {:induction false} ExecNext(s: State, schedule: seq<Uuid>, u: Uuid)
    ensures Exec(s, schedule + [u]) == Turn(Exec(s, schedule), u)
  {
    assert (schedule + [u])[..|schedule|] == schedule;
  }

  lemma {:induction false} ExecAfterTurn(s: State, u: Uuid, rest: seq<Uuid>)
    ensures Exec(s, [u] + rest) == Exec(Turn(s, u), rest)
  {
    if rest == [] {
      assert [u] + rest == [] + [u];
      ExecNext(s, [], u);
    } else {
      var front, last := rest[..|rest| - 1], rest[|rest| - 1];
      ExecAfterTurn(s, u, front);
      assert rest == front + [last] && [u] + rest == ([u] + front) + [last];
      ExecNext(s, [u] + front, last);
      ExecNext(Turn(s, u), front, last);
    }
  }

  // From every reachable state the processes that are trying to enter or to
  // leave can all finish, without help from newcomers.
  lemma {:induction false} EverybodyGetsThrough(s: State) returns (schedule: seq<Uuid>)
    requires Inv(s)
    ensures Exec(s, schedule).pcs == map[]
    ensures forall u | u in schedule :: u in s.pcs
    decreases Work(s)
  {
    if s.pcs == map[] {
      schedule := [];
    } else {
      NoDeadlock(s);
      var u :| u in s.pcs && Enabled(s, u);
      TurnKeepsInv(s, u);
      TurnDoesWork(s, u);
      var rest := EverybodyGetsThrough(Turn(s, u));
      ExecAfterTurn(s, u, rest);
      schedule := [u] + rest;
    }
  }

  // Only processes that are inside take turns: nobody starts over.
  ghost predicate Closed(s: State, round: seq<Uuid>) {
    forall k: nat | k < |round| :: round[k] in Exec(s, round[..k]).pcs
  }

  // Round after round, everybody who is inside when the round starts gets a turn.
  ghost predicate FairRounds(s: State, rounds: seq<seq<Uuid>>)
    decreases |rounds|
  {
    rounds == [] ||
    (Closed(s, rounds[0]) && (forall u | u in s.pcs :: u in rounds[0]) && FairRounds(Exec(s, rounds[0]), rounds[1..]))
  }

  function ExecRounds(s: State, rounds: seq<seq<Uuid>>): State
    decreases |rounds|
  {
    if rounds == [] then s else ExecRounds(Exec(s, rounds[0]), rounds[1..])
  }

  lemma TurnWorksOrWaits(s: State, u: Uuid)
    requires Inv(s) && u in s.pcs
    ensures if Enabled(s, u) then Work(Turn(s, u)) < Work(s) else Turn(s, u) == s
  {
    if Enabled(s, u) { TurnDoesWork(s, u); }
  }

  lemma ClosedFront(s: State, round: seq<Uuid>)
    requires round != [] && Closed(s, round)
    ensures Closed(s, round[..|round| - 1])
  {
    var front := round[..|round| - 1];
    forall k: nat | k < |front| ensures front[k] in Exec(s, front[..k]).pcs {
      assert front[..k] == round[..k];
    }
  }

  // A round changes nothing or does work, and does some if it gives a turn to a process
  // that could move when it started.
  lemma {:induction false} RoundWorks(s: State, round: seq<Uuid>, u: Uuid)
    requires Inv(s) && Closed(s, round) && u in s.pcs && Enabled(s, u)
    ensures Exec(s, round) == s || Work(Exec(s, round)) < Work(s)
    ensures u in round ==> Work(Exec(s, round)) < Work(s)
  {
    if round != [] {
      var front, v := round[..|round| - 1], round[|round| - 1];
      var t := Exec(s, front);
      ClosedFront(s, round);
      RoundWorks(s, front, u);
      ExecKeepsInv(s, front);
      assert v in t.pcs;
      TurnWorksOrWaits(t, v);
    }
  }

  lemma WorkLeft(s: State, u: Uuid)
    requires KeysAgree(s) && u in s.pcs
    ensures |Work(s)| > 0
  {
    assert (u, 0) in Work(s);
  }

  lemma SmallerSet<T>(a: set<T>, b: set<T>)
    requires a < b
    ensures |a| < |b|
  {
    assert b == a + (b - a);
    assert b - a != {};
  }

  lemma SomebodyMoves(s: State, round: seq<Uuid>)
    requires Closed(s, round) && round != []
    ensures s.pcs != map[]
  {
    assert round[..0] == [] && round[0] in Exec(s, round[..0]).pcs;
  }

  // Every fair schedule of those inside, with at least as many rounds as there is work
  // left, ends with nobody inside.
  lemma {:induction false} EveryFairScheduleDrains(s: State, rounds: seq<seq<Uuid>>)
    requires Inv(s) && FairRounds(s, rounds) && |rounds| >= |Work(s)|
    ensures ExecRounds(s, rounds).pcs == map[]
    decreases |rounds|
  {
    if s.pcs == map[] {
      if rounds != [] {
        if rounds[0] != [] { SomebodyMoves(s, rounds[0]); }
        EveryFairScheduleDrains(s, rounds[1..]);
      }
    } else {
      NoDeadlock(s);
      var u :| u in s.pcs && Enabled(s, u);
      WorkLeft(s, u);
      RoundWorks(s, rounds[0], u);
      SmallerSet(Work(Exec(s, rounds[0])), Work(s));
      ExecKeepsInv(s, rounds[0]);
      EveryFairScheduleDrains(Exec(s, rounds[0]), rounds[1..]);
    }
  }

  // ---------------------------------------------------------------------------
  // Fairness over runs

  lemma {:induction false} ExecKeepsInv(s: State, schedule: seq<Uuid>)
    requires Inv(s)
    ensures Inv(Exec(s, schedule))
  {
    if schedule != [] {
      ExecKeepsInv(s, schedule[..|schedule| - 1]);
      TurnKeepsInv(Exec(s, schedule[..|schedule| - 1]), schedule[|schedule| - 1]);
    }
  }

  // `u` is in the critical section after some prefix of the schedule.
  ghost predicate PassesCritical(s: State, schedule: seq<Uuid>, u: Uuid) {
    exists k | 0 <= k <= |schedule| :: PcOf(Exec(s, schedule[..k]), u) == Critical
  }

  lemma PassesCriticalPrefix(s: State, schedule: seq<Uuid>, u: Uuid)
    requires schedule != [] && PassesCritical(s, schedule[..|schedule| - 1], u)
    ensures PassesCritical(s, schedule, u)
  {
    var front := schedule[..|schedule| - 1];
    var k :| 0 <= k <= |front| && PcOf(Exec(s, front[..k]), u) == Critical;
    assert front[..k] == schedule[..k];
  }

  // Shows S2 or S3, or shows S4 without having entered.
  predicate WaitingInside(pc: Pc) {
    FlagOf(pc) == S2WaitingRoom || FlagOf(pc) == S3DoorIn || pc == DoorOut
  }

  // Shows S0 or S1.
  predicate WaitingOutside(pc: Pc) {
    FlagOf(pc) == S0Noncritical || FlagOf(pc) == S1Intention
  }

  lemma HopLeavesDoorClosed(s: State, me: Uuid, s': State, p: Uuid, q: Uuid)
    requires DoorClosed(s) && LeaverIsLast(s) && Hop(s, me, s') && S4(PcOf(s, p)) && WaitingInside(PcOf(s, q))
    ensures PcOf(s', q) == Critical || WaitingInside(PcOf(s', q))
    ensures S4(PcOf(s', p)) || S4(PcOf(s', q))
    ensures forall r | WaitingOutside(PcOf(s, r)) :: WaitingOutside(PcOf(s', r))
  {
  }

  // While `q` waits inside a closed door, the door stays closed, whoever moves.
  lemma DoorStaysClosed(s: State, me: Uuid, p: Uuid, q: Uuid)
    requires Inv(s) && S4(PcOf(s, p)) && WaitingInside(PcOf(s, q))
    ensures PcOf(Turn(s, me), q) == Critical || WaitingInside(PcOf(Turn(s, me), q))
    ensures exists p' :: S4(PcOf(Turn(s, me), p'))
    ensures forall r | WaitingOutside(PcOf(s, r)) :: WaitingOutside(PcOf(Turn(s, me), r))
  {
    TurnIsHop(s, me);
    if Turn(s, me) != s {
      HopLeavesDoorClosed(s, me, Turn(s, me), p, q);
    }
  }

  // The door is closed with `q` inside and `r` outside.
  ghost predicate Between(s: State, q: Uuid, r: Uuid) {
    (exists p :: S4(PcOf(s, p))) && WaitingInside(PcOf(s, q)) && WaitingOutside(PcOf(s, r))
  }

  lemma TurnStaysBetween(s: State, me: Uuid, q: Uuid, r: Uuid)
    requires Inv(s) && Between(s, q, r)
    ensures PcOf(Turn(s, me), q) == Critical || Between(Turn(s, me), q, r)
  {
    var p :| S4(PcOf(s, p));
    DoorStaysClosed(s, me, p, q);
  }

  lemma {:induction false} PassesCriticalNow(s: State, schedule: seq<Uuid>, u: Uuid)
    requires PcOf(Exec(s, schedule), u) == Critical
    ensures PassesCritical(s, schedule, u)
  {
    assert schedule[..|schedule|] == schedule;
  }

  lemma {:induction false} DoorClosedUntilServed(s: State, schedule: seq<Uuid>, q: Uuid, r: Uuid)
    requires Inv(s) && Between(s, q, r)
    ensures PassesCritical(s, schedule, q) || Between(Exec(s, schedule), q, r)
  {
    if schedule != [] {
      var front := schedule[..|schedule| - 1];
      DoorClosedUntilServed(s, front, q, r);
      if PassesCritical(s, front, q) {
        PassesCriticalPrefix(s, schedule, q);
      } else {
        ExecKeepsInv(s, front);
        TurnStaysBetween(Exec(s, front), schedule[|schedule| - 1], q, r);
        if PcOf(Exec(s, schedule), q) == Critical { PassesCriticalNow(s, schedule, q); }
      }
    }
  }

  // Once somebody shows S4, everybody waiting inside is served before anybody who
  // was outside at that moment gets as far as the waiting room or the door.
  lemma {:induction false} BatchFairness(s: State, schedule: seq<Uuid>, p: Uuid, q: Uuid, r: Uuid)
    requires Inv(s) && FlagOf(PcOf(s, p)) == S4DoorOut
    requires WaitingInside(PcOf(s, q)) && WaitingOutside(PcOf(s, r))
    requires !WaitingOutside(PcOf(Exec(s, schedule), r))
    ensures PassesCritical(s, schedule, q)
  {
    DoorClosedUntilServed(s, schedule, q, r);
  }

  // Nobody gets from waiting to done without the critical section.
  lemma {:induction false} NoBypass(s: State, schedule: seq<Uuid>, u: Uuid)
    requires Inv(s) && PcOf(s, u) != Outside && !Entered(PcOf(s, u))
    requires PcOf(Exec(s, schedule), u) == Outside
    ensures PassesCritical(s, schedule, u)
  {
    StillBefore(s, schedule, u);
  }

  // Trying to enter, and not yet inside.
  predicate Entering(pc: Pc) {
    pc != Outside && !Entered(pc)
  }

  lemma TurnFromBefore(s: State, me: Uuid, u: Uuid)
    requires KeysAgree(s) && Entering(PcOf(s, u))
    ensures PcOf(Turn(s, me), u) == Critical || Entering(PcOf(Turn(s, me), u))
  {
    TurnIsHop(s, me);
  }

  lemma {:induction false} StillBefore(s: State, schedule: seq<Uuid>, u: Uuid)
    requires Inv(s) && Entering(PcOf(s, u))
    ensures PassesCritical(s, schedule, u) || Entering(PcOf(Exec(s, schedule), u))
  {
    if schedule != [] {
      var front := schedule[..|schedule| - 1];
      StillBefore(s, front, u);
      if PassesCritical(s, front, u) {
        PassesCriticalPrefix(s, schedule, u);
      } else {
        ExecKeepsInv(s, front);
        TurnFromBefore(Exec(s, front), schedule[|schedule| - 1], u);
        if PcOf(Exec(s, schedule), u) == Critical { PassesCriticalNow(s, schedule, u); }
      }
    }
  }

  // ---------------------------------------------------------------------------
  // The sequential code of one contender

  // The processes other than `me` do not look at where `me` stands, only at its key.
  lemma TurnOfOther(keys: map<Uuid, nat>, others: map<Uuid, Pc>, me: Uuid, pc: Pc, u: Uuid)
    requires me !in others && u != me
    ensures var s := Turn(State(keys, others), u);
            me !in s.pcs && Turn(Whole(keys, others, me, pc), u) == Whole(s.keys, s.pcs, me, pc)
  {
    var s, w := State(keys, others), Whole(keys, others, me, pc);
    assert PcOf(w, u) == PcOf(s, u);
    assert Turn(w, u).pcs == Whole(Turn(s, u).keys, Turn(s, u).pcs, me, pc).pcs;
  }

  // The state of all processes, with `me` at `pc`.
  function Whole(keys: map<Uuid, nat>, others: map<Uuid, Pc>, me: Uuid, pc: Pc): State {
    State(keys, if pc == Outside then others else others[me := pc])
  }

  // The flag that a process at this point writes next, if its next access is a write.
  function WritesNext(pc: Pc): Option<Flag> {
    match pc
    case Outside => Some(S1Intention)
    case SawClear => Some(S3DoorIn)
    case SawIntent => Some(S2WaitingRoom)
    case SawDoorOut | SawNone => Some(S4DoorOut)
    case MayLeave => Some(S0Noncritical)
    case _ => None
  }

  lemma OwnWriteIsTurn(keys: map<Uuid, nat>, others: map<Uuid, Pc>, me: Uuid, pc: Pc, f: Flag)
    requires me !in others && WritesNext(pc) == Some(f)
    ensures var pc' := NextPc(me, pc, map[]);
            && FlagOf(pc') == f
            && Turn(Whole(keys, others, me, pc), me) == Whole(WithOwnState(keys, me, f), others, me, pc')
  {
    var w, pc' := Whole(keys, others, me, pc), NextPc(me, pc, map[]);
    assert PcOf(w, me) == pc && NextPc(me, pc, Others(keys, me)) == pc';
    assert Turn(w, me).pcs == Whole(WithOwnState(keys, me, f), others, me, pc').pcs;
  }

  lemma OwnScanIsTurn(keys: map<Uuid, nat>, others: map<Uuid, Pc>, me: Uuid, pc: Pc)
    requires me !in others && WritesNext(pc) == None
    ensures Turn(Whole(keys, others, me, pc), me) == Whole(keys, others, me, NextPc(me, pc, Others(keys, me)))
  {
    var w := Whole(keys, others, me, pc);
    assert PcOf(w, me) == pc;
  }

  // The keys of one lock, as one contender finds them.  `others` is where the other
  // processes stand and lets them take their turns; where the contender itself stands
  // is ghost state, and no decision of its code looks at it.
  class LockTable {
    const me: Uuid
    var keys: map<Uuid, nat>
    var others: map<Uuid, Pc>
    ghost var pc: Pc
    ghost var history: seq<Uuid>

    ghost function View(): State
      reads this
    {
      Whole(keys, others, me, pc)
    }

    // The keys are what the turns taken so far have made of them.
    ghost predicate Valid()
      reads this
    {
      me !in others && View() == Exec(Init, history)
    }

    constructor (me: Uuid)
      ensures Valid() && this.me == me && pc == Outside
    {
      this.me, keys, others, pc, history := me, map[], map[], Outside, [];
    }

    ghost method TookTurn(u: Uuid, before: State)
      requires before == Exec(Init, history) && me !in others && View() == Turn(before, u)
      modifies `history
      ensures Valid() && history == old(history) + [u]
    {
      assert (history + [u])[..|history|] == history;
      history := history + [u];
    }

    // One turn of another process.
    method TurnOf(u: Uuid)
      requires Valid() && u != me
      modifies this
      ensures Valid() && history == old(history) + [u] && pc == old(pc)
    {
      ghost var before := View();
      TurnOfOther(keys, others, me, pc, u);
      var s := Turn(State(keys, others), u);
      keys, others := s.keys, s.pcs;
      TookTurn(u, before);
    }

    // Turns of other processes between two accesses of the contender.
    method Interfere(turns: seq<Uuid>)
      requires Valid() && me !in turns
      modifies this
      ensures Valid() && history == old(history) + turns && pc == old(pc)
      ensures turns == [] ==> keys == old(keys) && others == old(others)
    {
      var n := 0;
      while n < |turns|
        invariant 0 <= n <= |turns|
        invariant Valid() && history == old(history) + turns[..n] && pc == old(pc)
        invariant turns == [] ==> keys == old(keys) && others == old(others)
      {
        TurnOf(turns[n]);
        n := n + 1;
      }
    }

    // Writing S0 deletes the key; every other state is written as its byte.
    method ChangeOwnState(f: Flag)
      requires Valid() && WritesNext(pc) == Some(f)
      modifies this
      ensures Valid() && history == old(history) + [me] && keys == WithOwnState(old(keys), me, f)
      ensures FlagOf(pc) == f && pc == NextPc(me, old(pc), map[]) && others == old(others)
    {
      ghost var before := View();
      OwnWriteIsTurn(keys, others, me, pc, f);
      if f == S0Noncritical {
        keys := keys - {me};
      } else {
        keys := keys[me := AsU8(f)];
      }
      pc := NextPc(me, pc, map[]);
      TookTurn(me, before);
    }

    method ReadOthers() returns (seen: map<Uuid, Flag>)
      ensures seen == Others(keys, me)
    {
      seen := map[];
      var todo := keys.Keys;
      while todo != {}
        invariant todo <= keys.Keys
        invariant seen.Keys == keys.Keys - todo - {me}
        invariant forall u | u in seen :: seen[u] == FromU8(keys[u])
      {
        var u :| u in todo;
        todo := todo - {u};
        if u != me { seen := seen[u := FromU8(keys[u])]; }
      }
    }

    // One scan of all keys, without the own one.
    method GetCurrentStatesExcludingMine() returns (seen: map<Uuid, Flag>)
      requires Valid() && WritesNext(pc) == None
      modifies this
      ensures Valid() && history == old(history) + [me]
      ensures seen == Others(keys, me) && keys == old(keys) && others == old(others)
      ensures pc == NextPc(me, old(pc), seen)
    {
      seen := ReadOthers();
      ghost var before := View();
      OwnScanIsTurn(keys, others, me, pc);
      pc := NextPc(me, pc, seen);
      TookTurn(me, before);
    }
  }

  // One contender, running the code of `enter` and `leave` from top to bottom.
  // `env(k)` are the turns of the others before its k-th access; `budget` bounds
  // the scans of one polling loop, after which the contender is still waiting.
  class CriticalSection {
    const myId: Uuid
    const table: LockTable
    const env: nat -> seq<Uuid>
    var accesses: nat
    var myState: Flag
    var entered: bool

    // What holds whenever the contender runs, and between two of its calls.
    ghost predicate Running()
      reads this, table
    {
      table.Valid() && table.me == myId && myState == FlagOf(table.pc) && forall k :: myId !in env(k)
    }

    ghost predicate Resting()
      reads this, table
    {
      Running() && table.pc == if entered then Critical else Outside
    }

    constructor (table: LockTable, env: nat -> seq<Uuid>)
      requires table.Valid() && table.pc == Outside
      requires forall k :: table.me !in env(k)
      ensures this.table == table && Resting() && !entered
    {
      this.table, this.myId, this.env := table, table.me, env;
      accesses, entered, myState := 0, false, S0Noncritical;
    }

    // Nobody else has a key, or will take a turn.
    ghost predicate Undisturbed()
      reads this, table
    {
      table.others == map[] && forall k :: env(k) == []
    }

    // What a scan would see.
    function Seen(): map<Uuid, Flag>
      reads this, table
    {
      Others(table.keys, myId)
    }

    // An own write, after the others took their turns.
    method ChangeOwnState(f: Flag)
      requires Running() && WritesNext(table.pc) == Some(f)
      modifies table, `accesses, `myState
      ensures Running() && old(table.history) <= table.history && (old(Undisturbed()) ==> Undisturbed())
      ensures myState == f && table.pc == NextPc(myId, old(table.pc), map[])
    {
      table.Interfere(env(accesses));
      accesses := accesses + 1;
      table.ChangeOwnState(f);
      myState := f;
    }

    // An own scan, after the others took their turns.
    method Scan() returns (seen: map<Uuid, Flag>)
      requires Running() && WritesNext(table.pc) == None
      modifies table, `accesses
      ensures Running() && old(table.history) <= table.history && (old(Undisturbed()) ==> Undisturbed())
      ensures accesses == old(accesses) + 1
      ensures seen == Seen() && table.pc == NextPc(myId, old(table.pc), seen)
    {
      table.Interfere(env(accesses));
      accesses := accesses + 1;
      ScanKeepsFlag(myId, table.pc);
      seen := table.GetCurrentStatesExcludingMine();
    }

    // Scans until the condition holds; success moves the program counter on.  It gives up
    // only after as many scans as allowed, and only if the condition does not hold.
    method PollForCondition(cond: map<Uuid, Flag> -> bool, budget: nat, ghost from: Pc, ghost to: Pc)
      returns (ok: bool)
      requires Running() && table.pc == from && WritesNext(from) == None
      requires forall seen :: NextPc(myId, from, seen) == if cond(seen) then to else from
      modifies table, `accesses
      ensures Running() && old(table.history) <= table.history && (old(Undisturbed()) ==> Undisturbed())
      ensures table.pc == if ok then to else from
      ensures budget > 0 ==> (ok <==> cond(Seen()))
      ensures !ok ==> accesses == old(accesses) + budget
    {
      ok := false;
      var k := 0;
      while k < budget && !ok
        invariant 0 <= k <= budget && accesses == old(accesses) + k
        invariant Running() && old(table.history) <= table.history && (old(Undisturbed()) ==> Undisturbed())
        invariant table.pc == if ok then to else from
        invariant k > 0 ==> (ok <==> cond(Seen()))
        invariant k == 0 ==> !ok
      {
        var seen := Scan();
        ok := cond(seen);
        k := k + 1;
      }
    }

    method PassIntention(budget: nat) returns (ok: bool)
      requires Running() && table.pc == Outside
      modifies table, `accesses, `myState
      ensures Running() && old(table.history) <= table.history && (old(Undisturbed()) ==> Undisturbed())
      ensures table.pc == if ok then SawClear else Intent
      ensures budget > 0 && !ok ==> Blocked(myId, table.pc, Seen())
      ensures budget > 0 && old(Undisturbed()) ==> ok
    {
      ChangeOwnState(S1Intention);
      ok := PollForCondition(NobodyBeyondWaitingRoom, budget, Intent, SawClear);
      SeesNobody();
    }

    // Up to the point where S4 will be written: straight from the door, or by way of
    // the waiting room.
    method PassDoorIn(budget: nat) returns (ok: bool)
      requires Running() && table.pc == Outside
      modifies table, `accesses, `myState
      ensures Running() && old(table.history) <= table.history && (old(Undisturbed()) ==> Undisturbed())
      ensures ok ==> table.pc == SawNone || table.pc == SawDoorOut
      ensures budget > 0 && !ok ==> Blocked(myId, table.pc, Seen()) && table.pc in {Intent, WaitingRoom}
      ensures budget > 0 && old(Undisturbed()) ==> ok
    {
      ok := PassIntention(budget);
      if ok {
        ChangeOwnState(S3DoorIn);
        var seen := Scan();
        SeesNobody();
        if SomebodyIntends(seen) {
          ok := PassWaitingRoom(budget);
        }
      }
    }

    method PassWaitingRoom(budget: nat) returns (ok: bool)
      requires Running() && table.pc == SawIntent
      modifies table, `accesses, `myState
      ensures Running() && old(table.history) <= table.history && (old(Undisturbed()) ==> Undisturbed())
      ensures ok ==> table.pc == SawDoorOut
      ensures budget > 0 && !ok ==> Blocked(myId, table.pc, Seen()) && table.pc == WaitingRoom
    {
      ChangeOwnState(S2WaitingRoom);
      ok := PollForCondition(SomebodyAtDoorOut, budget, WaitingRoom, SawDoorOut);
    }

    // Closes the door and waits for the smaller ids.
    method PassDoorOut(budget: nat) returns (ok: bool)
      requires Running() && (table.pc == SawNone || table.pc == SawDoorOut)
      modifies table, `accesses, `myState
      ensures Running() && old(table.history) <= table.history && (old(Undisturbed()) ==> Undisturbed())
      ensures table.pc == if ok then Critical else DoorOut
      ensures budget > 0 && !ok ==> Blocked(myId, table.pc, Seen())
      ensures budget > 0 && old(Undisturbed()) ==> ok
    {
      ChangeOwnState(S4DoorOut);
      ok := PollForCondition(others => SmallerIdsOutside(myId, others), budget, DoorOut, Critical);
      SeesNobody();
    }

    // A contender that gets through is alone between `Enter` and `Leave`.  It does not get
    // through only while some scan condition fails, so alone it always does.
    method Enter(budget: nat) returns (ok: bool)
      requires Resting()
      modifies this, table
      ensures Running() && old(table.history) <= table.history && (old(Undisturbed()) ==> Undisturbed())
      ensures ok == entered
      ensures ok ==> Resting() && forall u | u != myId :: !Entered(PcOf(table.View(), u))
      ensures budget > 0 && !ok ==> Blocked(myId, table.pc, Seen()) && table.pc in {Intent, WaitingRoom, DoorOut}
      ensures budget > 0 && old(Undisturbed()) ==> ok
    {
      ok := true;
      if !entered {
        ok := PassDoorIn(budget);
        if ok {
          ok := PassDoorOut(budget);
          entered := ok;
        }
      }
      if ok {
        Alone(table.history, myId);
      }
    }

    method Leave(budget: nat) returns (ok: bool)
      requires Resting()
      modifies this, table
      ensures Resting() && old(table.history) <= table.history && (old(Undisturbed()) ==> Undisturbed())
      ensures ok == !entered && (ok <==> myId !in table.keys)
      ensures budget > 0 && !ok ==> Blocked(myId, table.pc, Seen()) && table.pc == Critical
      ensures budget > 0 && old(Undisturbed()) ==> ok
    {
      ok := true;
      if entered {
        ok := PollForCondition(others => LargerIdsOutsideOrDone(myId, others), budget, Critical, MayLeave);
        SeesNobody();
        if ok {
          ChangeOwnState(S0Noncritical);
          entered := false;
        }
      }
      Reachable(table.history);
    }

    lemma SeesNobody()
      requires Running()
      ensures Undisturbed() ==> Seen() == map[]
    {
      Reachable(table.history);
    }
  }

  // A poll at this point does not go on, given what it saw.
  predicate Blocked(me: Uuid, pc: Pc, seen: map<Uuid, Flag>) {
    match pc
    case Intent => exists u | u in seen :: seen[u] == S3DoorIn || seen[u] == S4DoorOut
    case WaitingRoom => forall u | u in seen :: seen[u] != S4DoorOut
    case DoorOut => exists u | u in seen :: u < me && seen[u] != S0Noncritical && seen[u] != S1Intention
    case Critical => exists u | u in seen :: u > me && (seen[u] == S2WaitingRoom || seen[u] == S3DoorIn)
    case _ => false
  }

  lemma ScanKeepsFlag(me: Uuid, pc: Pc)
    requires WritesNext(pc) == None
    ensures forall seen :: FlagOf(NextPc(me, pc, seen)) == FlagOf(pc)
  {
  }
}
