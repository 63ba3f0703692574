/** What a worker has been through, and what can still happen after stop has returned. */
module ThreadHistories {
  import opened Maybe
  import opened Threads

  // ----- the life of a worker -----

  // Step j of the behaviour is a step of worker t.
  ghost predicate Moves(b: seq<State>, j: nat, t: nat) {
    j + 1 < |b| && WorkerEnabled(b[j], t) && exists r :: b[j + 1] == WorkerMove(b[j], t, r)
  }

  ghost predicate IsAt(b: seq<State>, i: nat, t: nat, pc: Pc) {
    i < |b| && t in b[i].pcs && b[i].pcs[t] == pc
  }

  // From one state to the next a worker stays where it is, moves, or is created.
  lemma NextPc(b: seq<State>, j: nat, t: nat)
    requires Behaviour(b) && j + 1 < |b| && t in b[j + 1].pcs
    ensures if t in b[j].pcs then b[j + 1].pcs[t] == b[j].pcs[t] || Moves(b, j, t) else b[j + 1].pcs[t] == Want(MakeContext)
  {
    AlwaysLock(b, j);
    assert StepAt(b, j);
    var a :| Enabled(b[j], a) && b[j + 1] == Apply(b[j], a);
    if a.WorkerStep? {
      WorkerMoves(b[j], a.id, a.respawn);
      if t != a.id { OthersStay(b[j], b[j + 1], a.id, t); }
    } else {
      MainCreates(b[j], a.order, t);
    }
  }

  lemma OthersStay(s: State, u: State, w: nat, t: nat)
    requires Moved(s, u, w) && s.next !in s.pcs && t in u.pcs && t != w
    ensures if t in s.pcs then u.pcs[t] == s.pcs[t] else u.pcs[t] == Want(MakeContext)
  {
  }

  lemma MainCreates(s: State, order: seq<nat>, t: nat)
    requires s.next !in s.pcs && t in MainMove(s, order).pcs
    ensures if t in s.pcs then MainMove(s, order).pcs[t] == s.pcs[t] else MainMove(s, order).pcs[t] == Want(MakeContext)
  {
  }

  // The step with which the worker came to where it is now.
  lemma {:induction false} Came(b: seq<State>, i: nat, t: nat, pc: Pc) returns (j: nat)
    requires Behaviour(b) && IsAt(b, i, t, pc) && pc != Want(MakeContext)
    ensures j < i && Moves(b, j, t) && b[j].pcs[t] != pc
    ensures forall h :: j < h <= i ==> IsAt(b, h, t, pc)
  {
    NextPc(b, i - 1, t);
    if t in b[i - 1].pcs && b[i - 1].pcs[t] == pc {
      j := Came(b, i - 1, t, pc);
    } else {
      j := i - 1;
    }
  }

  ghost predicate PassedFlagCheck(b: seq<State>, i: nat, t: nat) {
    exists j :: 0 <= j < i && j + 1 < |b| && b[j].flag && IsAt(b, j, t, In(CheckFlag)) && IsAt(b, j + 1, t, Want(Cleanup(false)))
  }

  // Cleaning up without having respawned.
  predicate Leaving(pc: Pc) { pc == Want(Cleanup(false)) || pc == In(Cleanup(false)) || pc == Gone(false) }

  lemma BeforeLeaving(s: State, t: nat, r: bool)
    requires WorkerEnabled(s, t) && Leaving(WorkerMove(s, t, r).pcs[t]) && s.next !in s.pcs
    ensures Leaving(s.pcs[t]) || (s.flag && s.pcs[t] == In(CheckFlag) && WorkerMove(s, t, r).pcs[t] == Want(Cleanup(false)))
  {
  }

  // A worker leaves without respawning only through a flag check that found the flag set.
  lemma {:induction false} LeavesByFlag(b: seq<State>, i: nat, t: nat)
    requires Behaviour(b) && i < |b| && t in b[i].pcs && Leaving(b[i].pcs[t])
    ensures PassedFlagCheck(b, i, t)
    decreases i
  {
    var pc := b[i].pcs[t];
    var j := Came(b, i, t, pc);
    var r :| b[j + 1] == WorkerMove(b[j], t, r);
    AlwaysLock(b, j);
    assert IsAt(b, j + 1, t, pc);
    BeforeLeaving(b[j], t, r);
    if Leaving(b[j].pcs[t]) {
      LeavesByFlag(b, j, t);
    } else {
      assert IsAt(b, j, t, In(CheckFlag));
    }
  }

  lemma {:induction false} FlagStays(b: seq<State>, i: nat, j: nat)
    requires Behaviour(b) && i <= j < |b| && b[i].flag
    ensures b[j].flag
    decreases j - i
  {
    if i < j {
      FlagStays(b, i, j - 1);
      WindowStep(b, j - 1);
    }
  }

  // Before the flag is set nobody leaves: all registered workers are still in their loops.
  lemma NoneLeavesBeforeFlag(b: seq<State>, i: nat, t: nat)
    requires Behaviour(b) && i < |b| && !b[i].flag && t in b[i].pcs
    ensures !Leaving(b[i].pcs[t])
  {
    if Leaving(b[i].pcs[t]) {
      LeavesByFlag(b, i, t);
      var j :| 0 <= j < i && j + 1 < |b| && b[j].flag && IsAt(b, j, t, In(CheckFlag)) && IsAt(b, j + 1, t, Want(Cleanup(false)));
      FlagStays(b, j, i);
    }
  }

  predicate InLoop(pc: Pc) {
    match pc
    case Want(k) => !k.Cleanup?
    case In(k) => !k.Cleanup?
    case Decide => true
    case WantRespawn => true
    case _ => false
  }

  // Between start and stop the four registered threads are exactly those still in their loops.
  lemma FourInLoops(b: seq<State>, i: nat)
    requires Behaviour(b) && i < |b| && Running(b[i].main) && b[i].mutex == None && !b[i].flag
    ensures |b[i].registered| == 4
    ensures forall t :: t in b[i].registered <==> t in b[i].pcs && InLoop(b[i].pcs[t])
  {
    FourRegistered(b, i);
    AlwaysLock(b, i);
    forall t | t in b[i].pcs ensures HasRespawned(b[i].pcs[t]) <==> !InLoop(b[i].pcs[t]) { NoneLeavesBeforeFlag(b, i, t); }
  }

  // If no thread is in the window when the flag is set, the ids that stop copies are never detached
  // and every join that returns does so because its thread left through a flag check that found the
  // flag set.
  lemma CleanStop(b: seq<State>, j: nat, k: nat)
    requires Behaviour(b) && j <= k < |b| && b[j].main.FlagSet? && Window(b[j]) == {} && HasCopied(b[k].main)
    ensures forall t: nat :: t in b[k].copied ==> t in b[j].registered && t !in b[k].detached
    ensures b[k].main.Waiting? ==> forall i :: 0 <= i < |b[k].copied| && i < b[k].main.joined ==> PassedFlagCheck(b, k, b[k].copied[i])
    ensures b[k].main.Finished? ==> forall t :: t in b[k].copied ==> PassedFlagCheck(b, k, t)
  {
    CopiedSafe(b, j, k);
    forall t | GoneItself(b[k], t) ensures PassedFlagCheck(b, k, t) { LeavesByFlag(b, k, t); }
  }

  // A worker that does not respawn goes round again: it evaluates the script and comes back to the
  // decision, and nothing else changes.
  lemma GoesRound(b: seq<State>, t: nat) returns (c: seq<State>)
    requires Behaviour(b) && !b[|b| - 1].flag && b[|b| - 1].mutex == None && IsAt(b, |b| - 1, t, Decide)
    ensures Behaviour(c) && b < c && c[|c| - 1] == b[|b| - 1]
    ensures exists i :: |b| <= i < |c| && IsAt(c, i, t, In(Evaluate))
  {
    c := Extend(b, WorkerStep(t, false));
    c := Extend(c, WorkerStep(t, false));
    assert IsAt(c, |b| + 1, t, In(Evaluate));
    var d := ToCheck(c, t);
    assert d[|b| + 1] == c[|b| + 1];
    c := Extend(d, WorkerStep(t, false));
    assert IsAt(c, |b| + 1, t, In(Evaluate)) by { assert c[|b| + 1] == d[|b| + 1]; }
  }

  lemma ToCheck(b: seq<State>, t: nat) returns (c: seq<State>)
    requires Behaviour(b) && !b[|b| - 1].flag && IsAt(b, |b| - 1, t, In(Evaluate))
    ensures Behaviour(c) && b <= c && c[|c| - 1] == b[|b| - 1].(pcs := b[|b| - 1].pcs[t := In(CheckFlag)], mutex := Some(Worker(t)))
  {
    c := Extend(b, WorkerStep(t, false));
    c := Extend(c, WorkerStep(t, false));
    c := Extend(c, WorkerStep(t, false));
    c := Extend(c, WorkerStep(t, false));
  }

  // ----- every section in its turn -----

  // From j to i the worker has not been at the decision.
  ghost predicate NoDecision(b: seq<State>, j: nat, i: nat, t: nat) {
    forall h :: j <= h <= i && h < |b| ==> t in b[h].pcs && !b[h].pcs[t].Decide?
  }

  // Where a worker at the given place must have come from, apart from the two ways to Want(Evaluate).
  function Before(pc: Pc): Option<Pc> {
    match pc
    case In(k) => Some(Want(k))
    case Want(MakeScript) => Some(In(MakeContext))
    case Want(Allocate) => Some(In(Evaluate))
    case Want(CheckFlag) => Some(In(Allocate))
    case Want(Cleanup(true)) => Some(Releasing)
    case Gone(r) => Some(In(Cleanup(r)))
    case _ => None
  }

  lemma CameFrom(b: seq<State>, i: nat, t: nat, pc: Pc) returns (j: nat)
    requires Behaviour(b) && IsAt(b, i, t, pc) && Before(pc).Some? && !pc.Decide?
    ensures j < i && IsAt(b, j, t, Before(pc).value) && NoDecision(b, j, i, t)
  {
    j := Came(b, i, t, pc);
    var r :| b[j + 1] == WorkerMove(b[j], t, r);
    AlwaysLock(b, j);
    assert IsAt(b, j + 1, t, pc);
    PcBefore(b[j], t, r);
    forall h | j <= h <= i && h < |b| ensures t in b[h].pcs && !b[h].pcs[t].Decide? { assert h > j ==> IsAt(b, h, t, pc); }
  }

  lemma PcBefore(s: State, t: nat, r: bool)
    requires WorkerEnabled(s, t) && s.next !in s.pcs && Before(WorkerMove(s, t, r).pcs[t]).Some?
    ensures s.pcs[t] == Before(WorkerMove(s, t, r).pcs[t]).value
  {
  }

  // Every flag check follows a run of the script and an allocation, with no decision in between.
  lemma WorksBeforeCheck(b: seq<State>, i: nat, t: nat) returns (j: nat, k: nat)
    requires Behaviour(b) && IsAt(b, i, t, In(CheckFlag))
    ensures j < k < i && IsAt(b, j, t, In(Evaluate)) && IsAt(b, k, t, In(Allocate)) && NoDecision(b, j, i, t)
  {
    var h := CameFrom(b, i, t, In(CheckFlag));
    k := CameFrom(b, h, t, Want(CheckFlag));
    var g := CameFrom(b, k, t, In(Allocate));
    j := CameFrom(b, g, t, Want(Allocate));
  }

  // Every run of the script follows the creation of the context and of the script, in this order.
  lemma {:induction false} PreparesFirst(b: seq<State>, i: nat, t: nat) returns (j: nat, k: nat)
    requires Behaviour(b) && IsAt(b, i, t, In(Evaluate))
    ensures j < k < i && IsAt(b, j, t, In(MakeContext)) && IsAt(b, k, t, In(MakeScript))
    decreases i
  {
    var h := CameFrom(b, i, t, In(Evaluate));
    var g := Came(b, h, t, Want(Evaluate));
    ToEvaluate(b, g, t);
    if b[g].pcs[t].Decide? {
      var f := Came(b, g, t, Decide);
      CheckedBefore(b, f, t);
      var e, d := WorksBeforeCheck(b, f, t);
      j, k := PreparesFirst(b, e, t);
    } else {
      k := g;
      var f := CameFrom(b, g, t, In(MakeScript));
      j := CameFrom(b, f, t, Want(MakeScript));
    }
  }

  lemma ToEvaluate(b: seq<State>, g: nat, t: nat)
    requires Behaviour(b) && Moves(b, g, t) && IsAt(b, g + 1, t, Want(Evaluate))
    ensures IsAt(b, g, t, Decide) || IsAt(b, g, t, In(MakeScript))
  {
    AlwaysLock(b, g);
  }

  lemma CheckedBefore(b: seq<State>, f: nat, t: nat)
    requires Behaviour(b) && Moves(b, f, t) && IsAt(b, f + 1, t, Decide)
    ensures IsAt(b, f, t, In(CheckFlag))
  {
    AlwaysLock(b, f);
  }

  // Whoever is gone has cleaned up, inside the lock.
  lemma CleansUp(b: seq<State>, i: nat, t: nat, r: bool) returns (j: nat)
    requires Behaviour(b) && IsAt(b, i, t, Gone(r))
    ensures j < i && IsAt(b, j, t, In(Cleanup(r))) && b[j].mutex == Some(Worker(t))
  {
    j := CameFrom(b, i, t, Gone(r));
    AlwaysLock(b, j);
  }

  // ----- after stop has returned -----

  // The step with which stop returns empties the registered set.
  lemma ClearEmpties(b: seq<State>, i: nat)
    requires Behaviour(b) && i + 1 < |b| && !b[i].main.Finished? && b[i + 1].main.Finished?
    ensures b[i + 1].registered == {}
  {
    assert StepAt(b, i);
    var a :| Enabled(b[i], a) && b[i + 1] == Apply(b[i], a);
    if a.WorkerStep? {
      AlwaysLock(b, i);
      WorkerMoves(b[i], a.id, a.respawn);
    }
  }

  // The worker is yet to register a replacement, whatever is decided.
  predicate MayRegister(pc: Pc) { InWindow(pc) || pc.Adding? }

  ghost predicate NobodyRegisters(s: State) {
    forall t :: t in s.pcs ==> !MayRegister(s.pcs[t])
  }

  // Nothing is registered and nobody can register anything any more.
  ghost predicate StaysEmpty(s: State) {
    s.main.Finished? && s.flag && s.registered == {} && NobodyRegisters(s)
  }

  lemma MoveStaysEmpty(s: State, u: State, t: nat)
    requires s.next !in s.pcs && StaysEmpty(s) && Moved(s, u, t)
    ensures StaysEmpty(u)
  {
  }

  lemma {:induction false} AlwaysEmpty(b: seq<State>, i: nat, j: nat)
    requires Behaviour(b) && i <= j < |b| && StaysEmpty(b[i])
    ensures StaysEmpty(b[j])
    decreases j - i
  {
    if i < j {
      AlwaysEmpty(b, i, j - 1);
      AlwaysLock(b, j - 1);
      assert StepAt(b, j - 1);
      var a :| Enabled(b[j - 1], a) && b[j] == Apply(b[j - 1], a);
      WorkerMoves(b[j - 1], a.id, a.respawn);
      MoveStaysEmpty(b[j - 1], b[j], a.id);
    }
  }

  // One step towards the registration: the worker itself if it can move, else whoever holds the lock.
  lemma StepTowardsAdding(s: State, t: nat) returns (w: nat)
    requires LockInv(s) && s.main.Finished? && t in s.pcs && MayRegister(s.pcs[t])
    ensures WorkerEnabled(s, w)
    ensures var u := WorkerMove(s, w, true); u.main == s.main && t in u.pcs && (MayRegister(u.pcs[t]) || u.registered != {})
  {
    if WorkerEnabled(s, t) {
      w := t;
      if s.pcs[t].Adding? { assert s.pcs[t].child in WorkerMove(s, t, true).registered; }
    } else {
      assert s.mutex == Some(Worker(s.mutex.value.id));
      w := s.mutex.value.id;
    }
  }

  lemma {:induction false} ReachesAdding(b: seq<State>, t: nat) returns (c: seq<State>)
    requires Behaviour(b) && LockInv(b[|b| - 1]) && b[|b| - 1].flag && b[|b| - 1].main.Finished?
    requires t in b[|b| - 1].pcs && MayRegister(b[|b| - 1].pcs[t])
    ensures Behaviour(c) && b <= c && c[|c| - 1].main.Finished? && c[|c| - 1].registered != {}
    decreases Left(b[|b| - 1])
  {
    var w := StepTowardsAdding(b[|b| - 1], t);
    c := LastProgress(b, WorkerStep(w, true));
    if c[|c| - 1].registered == {} { c := ReachesAdding(c, t); }
  }

  lemma FinishedFlag(b: seq<State>)
    requires Behaviour(b) && b[|b| - 1].main.Finished?
    ensures b[|b| - 1].flag && LockInv(b[|b| - 1])
  {
    AlwaysInv(b, |b| - 1);
  }

  // Once stop has returned, the emptied set stays empty in every continuation exactly when no worker
  // is between its flag check and the registration of its replacement.
  lemma EmptyIff(b: seq<State>)
    requires Behaviour(b) && b[|b| - 1].main.Finished? && b[|b| - 1].registered == {}
    ensures (forall c: seq<State> :: Behaviour(c) && b <= c ==> c[|c| - 1].registered == {}) <==> NobodyRegisters(b[|b| - 1])
  {
    var s := b[|b| - 1];
    FinishedFlag(b);
    if t :| t in s.pcs && MayRegister(s.pcs[t]) {
      var c := ReachesAdding(b, t);
    } else {
      forall c: seq<State> | Behaviour(c) && b <= c ensures c[|c| - 1].registered == {} {
        assert c[|b| - 1] == s;
        AlwaysEmpty(c, |b| - 1, |c| - 1);
      }
    }
  }

  // ----- a run after which the set is not empty -----

  // Only the main thread has moved.
  ghost predicate OnlyMain(s: State) {
    (s.mutex == None || s.mutex == Some(Main)) && forall t :: t in s.pcs ==> s.pcs[t] == Want(MakeContext)
  }

  lemma MainKeepsOnlyMain(s: State)
    requires Inv(s) && OnlyMain(s) && !s.flag && ToFlag(s.main) > 3
    ensures MainEnabled(s, []) && OnlyMain(MainMove(s, [])) && !MainMove(s, []).flag
    ensures ToFlag(MainMove(s, []).main) < ToFlag(s.main) && ToFlag(MainMove(s, []).main) >= 3
  {
    MainMovesOn(s);
  }

  lemma {:induction false} StartsUp(b: seq<State>) returns (c: seq<State>)
    requires Behaviour(b) && OnlyMain(b[|b| - 1]) && !b[|b| - 1].flag && ToFlag(b[|b| - 1].main) >= 3
    ensures Behaviour(c) && c[|c| - 1].main.Started? && c[|c| - 1].mutex == None && !c[|c| - 1].flag && IsAt(c, |c| - 1, 0, Want(MakeContext))
    decreases ToFlag(b[|b| - 1].main)
  {
    var s := b[|b| - 1];
    AlwaysInv(b, |b| - 1);
    if s.main.Started? {
      c := b;
      SomeWorker(s);
    } else {
      MainKeepsOnlyMain(s);
      c := Extend(b, MainStep([]));
      c := StartsUp(c);
    }
  }

  lemma SomeWorker(s: State)
    requires Inv(s) && s.main.Started? && s.mutex == None
    ensures 0 in s.pcs
  {
    assert |s.registered| == 4 && s.registered != {};
    var t :| t in s.registered;
    assert Enlisted(s, t);
  }

  // A worker that is let run comes to its first decision.
  lemma {:induction false} Decides(b: seq<State>, t: nat) returns (c: seq<State>)
    requires Behaviour(b) && !b[|b| - 1].flag && t in b[|b| - 1].pcs && InLoop(b[|b| - 1].pcs[t]) && !b[|b| - 1].pcs[t].WantRespawn?
    requires b[|b| - 1].mutex == if HoldsLock(b[|b| - 1].pcs[t]) then Some(Worker(t)) else None
    ensures Behaviour(c) && c[|c| - 1].main == b[|b| - 1].main && c[|c| - 1].mutex == None && !c[|c| - 1].flag && IsAt(c, |c| - 1, t, Decide)
    decreases if b[|b| - 1].pcs[t].Decide? then 0 else Rank(b[|b| - 1].pcs[t])
  {
    if b[|b| - 1].pcs[t].Decide? { return b; }
    c := Extend(b, WorkerStep(t, false));
    c := Decides(c, t);
  }

  lemma SetsFlag(b: seq<State>, t: nat) returns (c: seq<State>)
    requires Behaviour(b) && b[|b| - 1].main.Started? && b[|b| - 1].mutex == None && IsAt(b, |b| - 1, t, Decide)
    ensures Behaviour(c) && c[|c| - 1].main == Waiting(0) && c[|c| - 1].mutex == None && IsAt(c, |c| - 1, t, Decide)
  {
    c := Extend(b, MainStep([]));
    c := Extend(c, MainStep([]));
    c := Extend(c, MainStep([]));
    c := CopyUndisturbed(c);
  }

  ghost predicate OthersGone(s: State, t: nat) {
    forall w :: w in s.pcs && w != t ==> s.pcs[w].Gone?
  }

  // Somebody other than t can move as long as somebody other than t is not gone.
  lemma OtherCanMove(s: State, t: nat) returns (w: nat)
    requires LockInv(s) && s.main.Waiting? && t in s.pcs && s.pcs[t].Decide? && !OthersGone(s, t)
    ensures WorkerEnabled(s, w) && w != t
    ensures var u := WorkerMove(s, w, false); u.main == s.main && t in u.pcs && u.pcs[t].Decide?
  {
    if s.mutex.Some? {
      assert s.mutex == Some(Worker(s.mutex.value.id));
      w := s.mutex.value.id;
    } else {
      w :| w in s.pcs && w != t && !s.pcs[w].Gone?;
    }
  }

  lemma {:induction false} OthersLeave(b: seq<State>, t: nat) returns (c: seq<State>)
    requires Behaviour(b) && LockInv(b[|b| - 1]) && b[|b| - 1].flag && b[|b| - 1].main == Waiting(0) && IsAt(b, |b| - 1, t, Decide)
    ensures Behaviour(c) && c[|c| - 1].flag && c[|c| - 1].main == Waiting(0) && IsAt(c, |c| - 1, t, Decide) && OthersGone(c[|c| - 1], t)
    decreases Left(b[|b| - 1])
  {
    if OthersGone(b[|b| - 1], t) { return b; }
    var w := OtherCanMove(b[|b| - 1], t);
    c := LastProgress(b, WorkerStep(w, false));
    c := OthersLeave(c, t);
  }

  lemma LockFree(s: State, t: nat)
    requires LockInv(s) && s.main.Waiting? && t in s.pcs && s.pcs[t].Decide? && OthersGone(s, t)
    ensures s.mutex == None
  {
    assert forall w :: w in s.pcs ==> !HoldsLock(s.pcs[w]);
    if s.mutex.Some? && s.mutex.value.Worker? { HolderHolds(s, s.mutex.value.id); }
  }

  lemma HolderHolds(s: State, w: nat)
    requires LockInv(s) && s.mutex == Some(Worker(w))
    ensures w in s.pcs && HoldsLock(s.pcs[w])
  {
  }

  // The last worker detaches itself, and its join returns at once.
  lemma Detaches(b: seq<State>, t: nat) returns (c: seq<State>)
    requires Behaviour(b) && b[|b| - 1].flag && b[|b| - 1].main == Waiting(0) && IsAt(b, |b| - 1, t, Decide) && OthersGone(b[|b| - 1], t)
    ensures Behaviour(c) && c[|c| - 1].main == Waiting(0) && IsAt(c, |c| - 1, t, Removing) && AllJoinable(c[|c| - 1])
  {
    AlwaysInv(b, |b| - 1);
    LockFree(b[|b| - 1], t);
    c := Extend(b, WorkerStep(t, true));
    c := Extend(c, WorkerStep(t, true));
    c := Extend(c, WorkerStep(t, true));
  }

  ghost predicate AllJoinable(s: State) {
    |s.copied| == 4 && forall i :: 0 <= i < 4 ==> Joinable(s, s.copied[i])
  }

  lemma {:induction false} Joins(b: seq<State>, t: nat) returns (c: seq<State>)
    requires Behaviour(b) && b[|b| - 1].main.Waiting? && b[|b| - 1].main.joined <= 4
    requires AllJoinable(b[|b| - 1]) && IsAt(b, |b| - 1, t, Removing)
    ensures Behaviour(c) && c[|c| - 1].main.Finished? && c[|c| - 1].registered == {} && IsAt(c, |c| - 1, t, Removing)
    decreases 4 - b[|b| - 1].main.joined
  {
    c := Extend(b, MainStep([]));
    if b[|b| - 1].main.joined < 4 { c := Joins(c, t); }
  }

  // A run in which stop returns, with the set emptied, and a worker registers a replacement afterwards.
  lemma ClearUndone() returns (b: seq<State>, c: seq<State>)
    ensures Behaviour(b) && b[|b| - 1].main.Finished? && b[|b| - 1].registered == {}
    ensures Behaviour(c) && b <= c && c[|c| - 1].main.Finished? && c[|c| - 1].registered != {}
  {
    b := StartsUp([INITIAL]);
    b := Decides(b, 0);
    b := SetsFlag(b, 0);
    AlwaysInv(b, |b| - 1);
    b := OthersLeave(b, 0);
    b := Detaches(b, 0);
    b := Joins(b, 0);
    FinishedFlag(b);
    c := ReachesAdding(b, 0);
  }
}
