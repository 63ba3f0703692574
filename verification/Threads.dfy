/** The self-replacing JavaScript threads as an interleaving of lock-protected steps. */
module Threads {
  import opened Maybe

  const THREAD_COUNT := 4

  // The critical sections of a worker other than the respawn one.
  datatype Section = MakeContext | MakeScript | Evaluate | Allocate | CheckFlag | Cleanup(respawned: bool)

  // Where a worker is. Want waits for the mutex, In holds it; Decide lies between the flag check
  // and the random choice, outside the lock; Detaching to Releasing are inside the respawn section.
  datatype Pc =
    | Want(section: Section) | In(section: Section)
    | Decide | WantRespawn
    | Detaching | Removing | Creating | Adding(child: nat) | Releasing
    | Gone(respawned: bool)

  // Where the thread that starts and stops the others is.
  datatype MainPc =
    | Idle | StartWant | Starting(made: nat) | StartAdding(made: nat, child: nat) | Started
    | StopWant | SettingFlag | FlagSet | CopyWant | Copying | Copied | Waiting(joined: nat) | Finished

  datatype Holder = Main | Worker(id: nat)

  datatype State = State(
    main: MainPc,
    pcs: map<nat, Pc>,         // every thread ever created
    next: nat,                 // the next fresh thread id
    registered: set<nat>,
    detached: set<nat>,
    flag: bool,
    mutex: Option<Holder>,
    copied: seq<nat>)

  const INITIAL := State(Idle, map[], 0, {}, {}, false, None, [])

  // ----- steps -----

  // respawn is the outcome of rand() % 5; order is the order in which the set is copied out.
  datatype Action = MainStep(order: seq<nat>) | WorkerStep(id: nat, respawn: bool)

  predicate NeedsLock(pc: Pc) { pc.Want? || pc.WantRespawn? }

  predicate WorkerEnabled(s: State, t: nat) {
    t in s.pcs && !s.pcs[t].Gone? && (NeedsLock(s.pcs[t]) ==> s.mutex == None)
  }

  function NextSection(k: Section, flag: bool): Pc {
    match k
    case MakeContext => Want(MakeScript)
    case MakeScript => Want(Evaluate)
    case Evaluate => Want(Allocate)
    case Allocate => Want(CheckFlag)
    case CheckFlag => if flag then Want(Cleanup(false)) else Decide
    case Cleanup(r) => Gone(r)
  }

  function At(s: State, t: nat, pc: Pc): State {
    s.(pcs := s.pcs[t := pc])
  }

  function WorkerMove(s: State, t: nat, respawn: bool): State
    requires WorkerEnabled(s, t)
  {
    match s.pcs[t]
    case Want(k) => At(s, t, In(k)).(mutex := Some(Worker(t)))
    case In(k) => At(s, t, NextSection(k, s.flag)).(mutex := None)
    case Decide => At(s, t, if respawn then WantRespawn else Want(Evaluate))
    case WantRespawn => At(s, t, Detaching).(mutex := Some(Worker(t)))
    case Detaching => At(s, t, Removing).(detached := s.detached + {t})
    case Removing => At(s, t, Creating).(registered := s.registered - {t})
    case Creating => At(At(s, t, Adding(s.next)), s.next, Want(MakeContext)).(next := s.next + 1)
    case Adding(c) => At(s, t, Releasing).(registered := s.registered + {c})
    case Releasing => At(s, t, Want(Cleanup(true))).(mutex := None)
  }

  predicate MainNeedsLock(m: MainPc) { m.StartWant? || m.StopWant? || m.CopyWant? }

  ghost predicate Lists(order: seq<nat>, ids: set<nat>) {
    && (forall i, j :: 0 <= i < j < |order| ==> order[i] != order[j])
    && (forall t :: t in ids <==> t in order)
  }

  // A join returns once the thread is gone; on a detached thread it fails and returns at once.
  predicate Joinable(s: State, t: nat) {
    t in s.detached || (t in s.pcs && s.pcs[t].Gone?)
  }

  ghost predicate MainEnabled(s: State, order: seq<nat>) {
    && !s.main.Finished?
    && (MainNeedsLock(s.main) ==> s.mutex == None)
    && (s.main.Copying? ==> Lists(order, s.registered))
    && (s.main.Waiting? && s.main.joined < THREAD_COUNT ==>
          s.main.joined < |s.copied| && Joinable(s, s.copied[s.main.joined]))
  }

  function MainMove(s: State, order: seq<nat>): State {
    match s.main
    case Idle => s.(main := StartWant)
    case StartWant => s.(main := Starting(0), mutex := Some(Main))
    case Starting(i) =>
      if i < THREAD_COUNT then
        s.(main := StartAdding(i, s.next), pcs := s.pcs[s.next := Want(MakeContext)], next := s.next + 1)
      else s.(main := Started, mutex := None)
    case StartAdding(i, c) => s.(main := Starting(i + 1), registered := s.registered + {c})
    case Started => s.(main := StopWant)
    case StopWant => s.(main := SettingFlag, mutex := Some(Main))
    case SettingFlag => s.(main := FlagSet, flag := true)
    case FlagSet => s.(main := CopyWant, mutex := None)
    case CopyWant => s.(main := Copying, mutex := Some(Main))
    case Copying => s.(main := Copied, copied := order)
    case Copied => s.(main := Waiting(0), mutex := None)
    case Waiting(i) => if i < THREAD_COUNT then s.(main := Waiting(i + 1)) else s.(main := Finished, registered := {})
    case Finished => s
  }

  ghost predicate Enabled(s: State, a: Action) {
    match a
    case MainStep(order) => MainEnabled(s, order)
    case WorkerStep(t, _) => WorkerEnabled(s, t)
  }

  ghost function Apply(s: State, a: Action): State
    requires Enabled(s, a)
  {
    match a
    case MainStep(order) => MainMove(s, order)
    case WorkerStep(t, respawn) => WorkerMove(s, t, respawn)
  }

  ghost predicate Step(s: State, u: State) {
    exists a :: Enabled(s, a) && u == Apply(s, a)
  }

  ghost predicate StepAt(b: seq<State>, i: int) {
    0 <= i < |b| - 1 ==> Step(b[i], b[i + 1])
  }

  ghost predicate Behaviour(b: seq<State>) {
    b != [] && b[0] == INITIAL && forall i {:trigger StepAt(b, i)} :: StepAt(b, i)
  }

  // ----- invariant -----

  predicate HoldsLock(pc: Pc) {
    pc.In? || pc.Detaching? || pc.Removing? || pc.Creating? || pc.Adding? || pc.Releasing?
  }

  predicate MainHoldsLock(m: MainPc) {
    m.Starting? || m.StartAdding? || m.SettingFlag? || m.FlagSet? || m.Copying? || m.Copied?
  }

  predicate HasRespawned(pc: Pc) {
    pc.Releasing? || pc == Want(Cleanup(true)) || pc == In(Cleanup(true)) || pc == Gone(true)
  }

  // The worker has been taken out of the registered set.
  predicate Delisted(pc: Pc) { pc.Creating? || pc.Adding? || HasRespawned(pc) }

  predicate IsDetached(pc: Pc) { pc.Removing? || Delisted(pc) }

  // t was created but not yet registered by its creator.
  ghost predicate Pending(s: State, t: nat) {
    (s.main.StartAdding? && s.main.child == t) || exists w :: w in s.pcs && s.pcs[w] == Adding(t)
  }

  ghost predicate LockInv(s: State) {
    && (forall t: nat :: t in s.pcs <==> t < s.next)
    && (forall t :: t in s.pcs ==> (HoldsLock(s.pcs[t]) <==> s.mutex == Some(Worker(t))))
    && (MainHoldsLock(s.main) <==> s.mutex == Some(Main))
    && (forall t: nat :: s.mutex == Some(Worker(t)) ==> t in s.pcs)
  }

  ghost predicate Enlisted(s: State, t: nat) {
    t in s.pcs && !Delisted(s.pcs[t]) && !Pending(s, t)
  }

  ghost predicate RegisteredInv(s: State) {
    !s.main.Finished? ==> forall t :: t in s.registered <==> Enlisted(s, t)
  }

  ghost predicate DetachedInv(s: State) {
    forall t :: t in s.detached <==> t in s.pcs && IsDetached(s.pcs[t])
  }

  ghost predicate PendingInv(s: State) {
    forall t :: Pending(s, t) ==> t in s.pcs && s.pcs[t] == Want(MakeContext)
  }

  ghost predicate SetInv(s: State) {
    RegisteredInv(s) && DetachedInv(s) && PendingInv(s)
  }

  // One registered id short while a worker is between removing itself and adding its replacement.
  predicate MidSwap(s: State) {
    s.mutex.Some? && s.mutex.value.Worker? && s.mutex.value.id in s.pcs &&
    (s.pcs[s.mutex.value.id].Creating? || s.pcs[s.mutex.value.id].Adding?)
  }

  predicate Running(m: MainPc) {
    !(m.Idle? || m.StartWant? || m.Starting? || m.StartAdding? || m.Finished?)
  }

  ghost predicate CountInv(s: State) {
    && (s.main.Idle? || s.main.StartWant? ==> s.next == 0)
    && (s.main.Starting? ==> |s.registered| == s.main.made <= THREAD_COUNT)
    && (s.main.StartAdding? ==> |s.registered| == s.main.made < THREAD_COUNT)
    && (Running(s.main) ==> |s.registered| == if MidSwap(s) then THREAD_COUNT - 1 else THREAD_COUNT)
  }

  ghost predicate StopInv(s: State) {
    && (s.flag <==> s.main.FlagSet? || s.main.CopyWant? || s.main.Copying? || s.main.Copied? || s.main.Waiting? || s.main.Finished?)
    && (s.main.Copied? || s.main.Waiting? || s.main.Finished? ==>
          |s.copied| == THREAD_COUNT && forall t :: t in s.copied ==> t in s.pcs)
    && (s.main.Waiting? ==> s.main.joined <= THREAD_COUNT && forall i :: 0 <= i < s.main.joined ==> Joinable(s, s.copied[i]))
    && (s.main.Finished? ==> forall i :: 0 <= i < THREAD_COUNT ==> Joinable(s, s.copied[i]))
  }

  ghost predicate Inv(s: State) {
    LockInv(s) && SetInv(s) && CountInv(s) && StopInv(s)
  }

  // ----- what a step of a worker changes -----

  // Between the flag check and the creation of the replacement.
  predicate InWindow(pc: Pc) {
    pc.Decide? || pc.WantRespawn? || pc.Detaching? || pc.Removing? || pc.Creating?
  }

  // An upper bound on the steps a worker can still take once the flag is set, counting those of
  // the replacement it may yet create.
  function Rank(pc: Pc): nat {
    match pc
    case Gone(_) => 0
    case In(Cleanup(_)) => 1
    case Want(Cleanup(_)) => 2
    case In(CheckFlag) => 3
    case Want(CheckFlag) => 4
    case In(Allocate) => 5
    case Want(Allocate) => 6
    case In(Evaluate) => 7
    case Want(Evaluate) => 8
    case In(MakeScript) => 9
    case Want(MakeScript) => 10
    case In(MakeContext) => 11
    case Want(MakeContext) => 12
    case Releasing => 3
    case Adding(_) => 4
    case Creating => 17
    case Removing => 18
    case Detaching => 19
    case WantRespawn => 20
    case Decide => 21
  }

  predicate Advances(a: Pc, b: Pc, flag: bool, next: nat) {
    && !a.Gone? && (a.Creating? ==> b == Adding(next)) && (b.Adding? ==> a.Creating?) && (b.Releasing? ==> a.Adding?)
    && (IsDetached(b) <==> IsDetached(a) || a.Detaching?)
    && (Delisted(b) <==> Delisted(a) || a.Removing?)
    && (HasRespawned(b) <==> HasRespawned(a) || a.Adding?)
    && (flag ==> (InWindow(b) ==> InWindow(a)) && Rank(b) + (if a.Creating? then Rank(Want(MakeContext)) else 0) < Rank(a))
  }

  ghost predicate Moved(s: State, u: State, t: nat) {
    && t in s.pcs && t in u.pcs && Advances(s.pcs[t], u.pcs[t], s.flag, s.next)
    && u.main == s.main && u.flag == s.flag && u.copied == s.copied
    && (if s.pcs[t].Creating? then u == At(At(s, t, Adding(s.next)), s.next, Want(MakeContext)).(next := s.next + 1)
        else u.next == s.next && u.pcs == s.pcs[t := u.pcs[t]])
    && u.detached == (if s.pcs[t].Detaching? then s.detached + {t} else s.detached)
    && u.registered == match s.pcs[t] {
         case Removing => s.registered - {t}
         case Adding(c) => s.registered + {c}
         case _ => s.registered
       }
  }

  lemma WorkerMoves(s: State, t: nat, r: bool)
    requires WorkerEnabled(s, t) && s.next !in s.pcs
    ensures Moved(s, WorkerMove(s, t, r), t)
  {
    WorkerAdvances(s, t, r);
  }

  lemma WorkerAdvances(s: State, t: nat, r: bool)
    requires WorkerEnabled(s, t) && s.next !in s.pcs
    ensures Advances(s.pcs[t], WorkerMove(s, t, r).pcs[t], s.flag, s.next)
  {
  }

  // ----- every step keeps it -----

  lemma WorkerKeepsLock(s: State, t: nat, r: bool)
    requires LockInv(s) && WorkerEnabled(s, t)
    ensures LockInv(WorkerMove(s, t, r))
  {
  }

  // Only the lock holder can have a child pending.
  lemma PendingMoves(s: State, t: nat, r: bool, c: nat)
    requires LockInv(s) && WorkerEnabled(s, t)
    ensures var u := WorkerMove(s, t, r);
      Pending(u, c) <==> (Pending(s, c) && s.pcs[t] != Adding(c)) || (s.pcs[t].Creating? && c == s.next)
  {
    var u := WorkerMove(s, t, r);
    if Pending(s, c) && s.pcs[t] != Adding(c) && !s.main.StartAdding? {
      var w :| w in s.pcs && s.pcs[w] == Adding(c);
      assert u.pcs[w] == Adding(c);
    }
    if s.pcs[t].Creating? && c == s.next { assert u.pcs[t] == Adding(c); }
  }

  lemma WorkerKeepsPending(s: State, t: nat, r: bool)
    requires LockInv(s) && PendingInv(s) && WorkerEnabled(s, t)
    ensures PendingInv(WorkerMove(s, t, r))
  {
    var u := WorkerMove(s, t, r);
    forall c | Pending(u, c) ensures c in u.pcs && u.pcs[c] == Want(MakeContext) { PendingMoves(s, t, r, c); }
  }

  lemma WorkerKeepsDetached(s: State, t: nat, r: bool)
    requires LockInv(s) && DetachedInv(s) && WorkerEnabled(s, t)
    ensures DetachedInv(WorkerMove(s, t, r))
  {
    WorkerMoves(s, t, r);
    MoveKeepsDetached(s, WorkerMove(s, t, r), t);
  }

  lemma MoveKeepsDetached(s: State, u: State, t: nat)
    requires LockInv(s) && DetachedInv(s) && Moved(s, u, t)
    ensures DetachedInv(u)
  {
  }

  lemma MoveEnlists(s: State, u: State, t: nat, c: nat)
    requires LockInv(s) && PendingInv(s) && Moved(s, u, t)
    requires Pending(u, c) <==> (Pending(s, c) && s.pcs[t] != Adding(c)) || (s.pcs[t].Creating? && c == s.next)
    ensures Enlisted(u, c) <==> (Enlisted(s, c) && !(s.pcs[t].Removing? && c == t)) || s.pcs[t] == Adding(c)
  {
    if s.pcs[t] == Adding(c) { assert Pending(s, c); }
  }

  lemma WorkerKeepsRegistered(s: State, t: nat, r: bool)
    requires LockInv(s) && PendingInv(s) && RegisteredInv(s) && WorkerEnabled(s, t)
    ensures RegisteredInv(WorkerMove(s, t, r))
  {
    var u := WorkerMove(s, t, r);
    WorkerMoves(s, t, r);
    if !u.main.Finished? {
      forall c ensures c in u.registered <==> Enlisted(u, c) {
        PendingMoves(s, t, r, c);
        MoveEnlists(s, u, t, c);
      }
    }
  }

  lemma WorkerSwaps(s: State, t: nat, r: bool)
    requires LockInv(s) && WorkerEnabled(s, t)
    ensures var u := WorkerMove(s, t, r);
      && MidSwap(s) == (s.pcs[t].Creating? || s.pcs[t].Adding? || (MidSwap(s) && s.mutex != Some(Worker(t))))
      && MidSwap(u) == (s.pcs[t].Removing? || s.pcs[t].Creating? || (MidSwap(s) && s.mutex != Some(Worker(t))))
  {
  }

  lemma RemovesItself(s: State, t: nat)
    requires LockInv(s) && SetInv(s) && !s.main.Finished? && t in s.pcs && s.pcs[t].Removing?
    ensures t in s.registered
  {
    assert !Pending(s, t);
    assert Enlisted(s, t);
  }

  lemma AddsNew(s: State, t: nat)
    requires LockInv(s) && SetInv(s) && !s.main.Finished? && t in s.pcs && s.pcs[t].Adding?
    ensures s.pcs[t].child !in s.registered
  {
    assert Pending(s, s.pcs[t].child);
  }

  lemma MoveResizes(s: State, u: State, t: nat)
    requires LockInv(s) && SetInv(s) && Running(s.main) && Moved(s, u, t)
    ensures |u.registered| == |s.registered| - (if s.pcs[t].Removing? then 1 else 0) + (if s.pcs[t].Adding? then 1 else 0)
  {
    if s.pcs[t].Removing? { RemovesItself(s, t); }
    if s.pcs[t].Adding? { AddsNew(s, t); }
  }

  lemma WorkerKeepsCount(s: State, t: nat, r: bool)
    requires LockInv(s) && SetInv(s) && CountInv(s) && WorkerEnabled(s, t)
    ensures CountInv(WorkerMove(s, t, r))
  {
    WorkerSwaps(s, t, r);
    WorkerMoves(s, t, r);
    if Running(s.main) { MoveResizes(s, WorkerMove(s, t, r), t); }
  }

  lemma WorkerKeepsStop(s: State, t: nat, r: bool)
    requires LockInv(s) && SetInv(s) && StopInv(s) && WorkerEnabled(s, t)
    ensures StopInv(WorkerMove(s, t, r))
  {
    WorkerMoves(s, t, r);
    MoveKeepsStop(s, WorkerMove(s, t, r), t);
  }

  lemma MoveKeepsStop(s: State, u: State, t: nat)
    requires LockInv(s) && StopInv(s) && Moved(s, u, t)
    ensures StopInv(u)
  {
    assert forall c :: Joinable(s, c) ==> Joinable(u, c);
  }

  lemma MainKeepsLock(s: State, order: seq<nat>)
    requires LockInv(s) && MainEnabled(s, order)
    ensures LockInv(MainMove(s, order))
  {
  }

  lemma MainPendingMoves(s: State, order: seq<nat>, c: nat)
    requires LockInv(s) && MainEnabled(s, order)
    ensures var u := MainMove(s, order);
      Pending(u, c) <==> (Pending(s, c) && !s.main.StartAdding?) || (s.main.Starting? && s.main.made < THREAD_COUNT && c == s.next)
  {
    var u := MainMove(s, order);
    assert s.mutex == Some(Main) ==> forall w :: w in s.pcs ==> !s.pcs[w].Adding?;
    if Pending(s, c) && !s.main.StartAdding? {
      var w :| w in s.pcs && s.pcs[w] == Adding(c);
      assert u.pcs[w] == Adding(c);
    }
  }

  lemma MainKeepsPending(s: State, order: seq<nat>)
    requires LockInv(s) && PendingInv(s) && MainEnabled(s, order)
    ensures PendingInv(MainMove(s, order))
  {
    var u := MainMove(s, order);
    forall c ensures Pending(u, c) ==> c in u.pcs && u.pcs[c] == Want(MakeContext) { MainPendingMoves(s, order, c); }
  }

  lemma MainKeepsRegistered(s: State, order: seq<nat>)
    requires LockInv(s) && SetInv(s) && MainEnabled(s, order)
    ensures RegisteredInv(MainMove(s, order))
  {
    var u := MainMove(s, order);
    if !u.main.Finished? {
      forall c ensures c in u.registered <==> Enlisted(u, c) { MainPendingMoves(s, order, c); }
    }
  }

  lemma MainKeepsDetached(s: State, order: seq<nat>)
    requires LockInv(s) && DetachedInv(s)
    ensures DetachedInv(MainMove(s, order))
  {
  }

  lemma MainKeepsCount(s: State, order: seq<nat>)
    requires LockInv(s) && SetInv(s) && CountInv(s) && MainEnabled(s, order)
    ensures CountInv(MainMove(s, order))
  {
  }

  lemma MainKeepsStop(s: State, order: seq<nat>)
    requires Inv(s) && MainEnabled(s, order)
    ensures StopInv(MainMove(s, order))
  {
    if s.main.Copying? { ListsSize(order, s.registered); }
  }

  lemma {:induction false} ListsSize(order: seq<nat>, ids: set<nat>)
    requires Lists(order, ids)
    ensures |order| == |ids|
    decreases |order|
  {
    if order == [] {
      assert ids == {};
    } else {
      var n := |order| - 1;
      var rest, last := order[..n], order[n];
      assert order == rest + [last];
      forall t | t in ids - {last} ensures t in rest { }
      ListsSize(rest, ids - {last});
    }
  }

  lemma StepKeeps(s: State, u: State)
    requires Inv(s) && Step(s, u)
    ensures Inv(u)
  {
    var a :| Enabled(s, a) && u == Apply(s, a);
    match a {
      case MainStep(order) =>
        MainKeepsLock(s, order);
        MainKeepsPending(s, order);
        MainKeepsRegistered(s, order);
        MainKeepsDetached(s, order);
        MainKeepsCount(s, order);
        MainKeepsStop(s, order);
      case WorkerStep(t, r) =>
        WorkerKeepsLock(s, t, r);
        WorkerKeepsPending(s, t, r);
        WorkerKeepsDetached(s, t, r);
        WorkerKeepsRegistered(s, t, r);
        WorkerKeepsCount(s, t, r);
        WorkerKeepsStop(s, t, r);
    }
  }

  lemma {:induction false} AlwaysInv(b: seq<State>, i: nat)
    requires Behaviour(b) && i < |b|
    ensures Inv(b[i])
  {
    if i > 0 {
      AlwaysInv(b, i - 1);
      assert StepAt(b, i - 1);
      StepKeeps(b[i - 1], b[i]);
    }
  }

  // Whenever the mutex is free between the end of start and the final clear, exactly four ids are
  // registered: the threads that have not replaced themselves.
  lemma FourRegistered(b: seq<State>, i: nat)
    requires Behaviour(b) && i < |b| && Running(b[i].main) && b[i].mutex == None
    ensures |b[i].registered| == 4
    ensures forall t :: t in b[i].registered <==> t in b[i].pcs && !HasRespawned(b[i].pcs[t])
  {
    AlwaysInv(b, i);
    var s := b[i];
    forall t ensures t in s.registered <==> t in s.pcs && !HasRespawned(s.pcs[t]) {
      assert !Pending(s, t);
      assert t in s.registered <==> Enlisted(s, t);
    }
  }

  // The size assertion in stop never fails.
  lemma CopyHasFour(b: seq<State>, i: nat)
    requires Behaviour(b) && i < |b| && b[i].main.Copied?
    ensures |b[i].copied| == 4
  {
    AlwaysInv(b, i);
  }

  // What the accessor of the registered set asserts: the mutex is taken.
  predicate AccessorAsserts(s: State) { s.mutex.Some? }

  // The final clear runs without the lock, so the accessor's assertion holds there exactly when some
  // worker happens to be inside a critical section.
  lemma ClearWithoutLock(b: seq<State>, i: nat)
    requires Behaviour(b) && i < |b| && b[i].main == Waiting(THREAD_COUNT)
    ensures b[i].mutex != Some(Main)
    ensures AccessorAsserts(b[i]) <==> exists t :: t in b[i].pcs && HoldsLock(b[i].pcs[t])
  {
    AlwaysInv(b, i);
    var s := b[i];
    if s.mutex.Some? { assert s.mutex == Some(Worker(s.mutex.value.id)); }
  }

  // ----- after the flag is set -----

  ghost function Window(s: State): set<nat> {
    set t | t in s.pcs && InWindow(s.pcs[t])
  }

  // Once the flag is set no worker enters the window.
  lemma MoveKeepsWindow(s: State, u: State, t: nat)
    requires LockInv(s) && s.flag && Moved(s, u, t)
    ensures Window(u) <= Window(s) && u.next + |Window(u)| <= s.next + |Window(s)|
  {
    assert s.next !in Window(u);
    if s.pcs[t].Creating? {
      assert t in Window(s);
      Subset(Window(u), Window(s) - {t});
    } else {
      Subset(Window(u), Window(s));
    }
  }

  lemma MainKeepsThreads(s: State, order: seq<nat>)
    requires StopInv(s) && s.flag && MainEnabled(s, order)
    ensures var u := MainMove(s, order);
      u.flag && u.pcs == s.pcs && u.next == s.next && u.detached == s.detached && MainRank(u.main) < MainRank(s.main)
    ensures var u := MainMove(s, order); !u.main.Finished? ==> u.registered == s.registered
  {
  }

  lemma WindowShrinks(s: State, u: State)
    requires Inv(s) && s.flag && Step(s, u)
    ensures u.flag && u.next + |Window(u)| <= s.next + |Window(s)|
  {
    var a :| Enabled(s, a) && u == Apply(s, a);
    if a.WorkerStep? {
      WorkerMoves(s, a.id, a.respawn);
      MoveKeepsWindow(s, u, a.id);
    } else {
      MainKeepsThreads(s, a.order);
    }
  }

  lemma {:induction false} Subset(a: set<nat>, b: set<nat>)
    requires a <= b
    ensures |a| <= |b|
  {
    assert b == a + (b - a);
  }

  lemma WindowStep(b: seq<State>, k: nat)
    requires Behaviour(b) && k + 1 < |b| && b[k].flag
    ensures b[k + 1].flag && b[k + 1].next + |Window(b[k + 1])| <= b[k].next + |Window(b[k])|
  {
    AlwaysInv(b, k);
    assert StepAt(b, k);
    WindowShrinks(b[k], b[k + 1]);
  }

  lemma {:induction false} WindowBound(b: seq<State>, j: nat, k: nat)
    requires Behaviour(b) && j <= k < |b| && b[j].flag
    ensures b[k].flag && b[k].next + |Window(b[k])| <= b[j].next + |Window(b[j])|
    decreases k - j
  {
    if j < k {
      WindowBound(b, j, k - 1);
      WindowStep(b, k - 1);
    }
  }

  // The number of threads created after the flag is set is at most the number then in the window,
  // and so at most four.
  lemma FewCreatedAfterFlag(b: seq<State>, j: nat, k: nat)
    requires Behaviour(b) && j <= k < |b| && b[j].main.FlagSet?
    ensures b[k].next - b[j].next <= |Window(b[j])| <= 4
  {
    AlwaysInv(b, j);
    WindowBound(b, j, k);
    var s := b[j];
    forall t | t in Window(s) ensures t in s.registered {
      assert !Pending(s, t);
      assert Enlisted(s, t);
    }
    Subset(Window(s), s.registered);
  }

  // ----- stopping cleanly -----

  ghost predicate Quiet(s: State) {
    s.flag && Window(s) == {} && forall t :: t in s.pcs ==> !s.pcs[t].Adding? && !s.pcs[t].Releasing?
  }

  lemma QuietStep(s: State, u: State)
    requires Inv(s) && Quiet(s) && Step(s, u)
    ensures Quiet(u) && u.detached == s.detached && u.next == s.next
    ensures !u.main.Finished? ==> u.registered == s.registered
    ensures SameRespawned(s, u) && forall t :: t in s.pcs ==> t in u.pcs
  {
    var a :| Enabled(s, a) && u == Apply(s, a);
    if a.WorkerStep? {
      WorkerMoves(s, a.id, a.respawn);
      MoveKeepsQuiet(s, u, a.id);
    } else {
      MainKeepsThreads(s, a.order);
    }
  }

  lemma MoveKeepsQuiet(s: State, u: State, t: nat)
    requires LockInv(s) && Quiet(s) && Moved(s, u, t)
    ensures Quiet(u) && u.detached == s.detached && u.registered == s.registered && u.next == s.next
    ensures SameRespawned(s, u) && forall c :: c in s.pcs ==> c in u.pcs
  {
    assert t !in Window(s);
    MoveKeepsWindow(s, u, t);
  }

  predicate HasCopied(m: MainPc) { m.Copied? || m.Waiting? || m.Finished? }

  // The registered set is frozen at ids, and stop's copy holds those ids.
  ghost predicate Frozen(s: State, ids: set<nat>) {
    && Quiet(s) && (!s.main.Finished? ==> s.registered == ids)
    && (forall t :: t in ids ==> t in s.pcs && !HasRespawned(s.pcs[t]))
    && (HasCopied(s.main) ==> forall t :: t in s.copied ==> t in ids)
  }

  // What the thread running stop does to its copy.
  ghost predicate CopyKept(s: State, u: State) {
    && (s.main.Finished? ==> u.main.Finished?)
    && (HasCopied(u.main) ==> if HasCopied(s.main) then u.copied == s.copied else forall t :: t in u.copied ==> t in s.registered)
  }

  lemma CopyStep(s: State, u: State)
    requires Step(s, u)
    ensures CopyKept(s, u)
  {
  }

  ghost predicate SameRespawned(s: State, u: State) {
    forall t :: t in s.pcs ==> (HasRespawned(s.pcs[t]) <==> t in u.pcs && HasRespawned(u.pcs[t]))
  }

  lemma FrozenBy(s: State, u: State, ids: set<nat>)
    requires Frozen(s, ids) && Quiet(u) && CopyKept(s, u) && SameRespawned(s, u) && (!u.main.Finished? ==> u.registered == s.registered)
    requires forall t :: t in s.pcs ==> t in u.pcs
    ensures Frozen(u, ids)
  {
  }

  lemma FrozenStep(s: State, u: State, ids: set<nat>)
    requires Inv(s) && Frozen(s, ids) && Step(s, u)
    ensures Frozen(u, ids)
  {
    QuietStep(s, u);
    CopyStep(s, u);
    FrozenBy(s, u, ids);
  }

  lemma FrozenStart(s: State)
    requires Inv(s) && s.main.FlagSet? && Window(s) == {}
    ensures Frozen(s, s.registered)
  {
    forall t | t in s.registered ensures t in s.pcs && !HasRespawned(s.pcs[t]) { assert Enlisted(s, t); }
  }

  lemma {:induction false} AlwaysFrozen(b: seq<State>, j: nat, k: nat)
    requires Behaviour(b) && j <= k < |b| && b[j].main.FlagSet? && Window(b[j]) == {}
    ensures Frozen(b[k], b[j].registered)
    decreases k - j
  {
    if j == k {
      AlwaysInv(b, j);
      FrozenStart(b[j]);
    } else {
      AlwaysFrozen(b, j, k - 1);
      FrozenNext(b, k - 1, b[j].registered);
    }
  }

  lemma FrozenNext(b: seq<State>, k: nat, ids: set<nat>)
    requires Behaviour(b) && k + 1 < |b| && Frozen(b[k], ids)
    ensures Frozen(b[k + 1], ids)
  {
    AlwaysInv(b, k);
    assert StepAt(b, k);
    FrozenStep(b[k], b[k + 1], ids);
  }

  predicate GoneItself(s: State, t: nat) { t in s.pcs && s.pcs[t] == Gone(false) }

  // If no thread is in the window when the flag is set, the ids that stop copies are never detached
  // and every join that returns does so because its thread is gone without having respawned.
  lemma CopiedSafe(b: seq<State>, j: nat, k: nat)
    requires Behaviour(b) && j <= k < |b| && b[j].main.FlagSet? && Window(b[j]) == {} && HasCopied(b[k].main)
    ensures forall t: nat :: t in b[k].copied ==> t in b[j].registered && t !in b[k].detached
    ensures b[k].main.Waiting? ==> forall i :: 0 <= i < |b[k].copied| && i < b[k].main.joined ==> GoneItself(b[k], b[k].copied[i])
    ensures b[k].main.Finished? ==> forall t :: t in b[k].copied ==> GoneItself(b[k], t)
  {
    AlwaysFrozen(b, j, k);
    AlwaysInv(b, k);
    var s := b[k];
    forall t | t in s.copied ensures t in s.pcs && t !in s.detached && !HasRespawned(s.pcs[t]) { assert t !in Window(s); }
  }

  lemma SetToSeq(ids: set<nat>) returns (order: seq<nat>)
    ensures Lists(order, ids)
  {
    if ids == {} { return []; }
    var t :| t in ids;
    order := SetToSeq(ids - {t});
    order := order + [t];
  }

  lemma Extend(b: seq<State>, a: Action) returns (c: seq<State>)
    requires Behaviour(b) && Enabled(b[|b| - 1], a)
    ensures Behaviour(c) && c == b + [Apply(b[|b| - 1], a)]
  {
    c := b + [Apply(b[|b| - 1], a)];
    forall i ensures StepAt(c, i) { assert StepAt(b, i); }
  }

  // A thread in the window at that moment can still be detached after stop has copied its id.
  lemma WindowCanDetach(b: seq<State>, t: nat) returns (c: seq<State>)
    requires Behaviour(b) && b[|b| - 1].main.FlagSet? && t in Window(b[|b| - 1])
    ensures Behaviour(c) && b <= c && HasCopied(c[|c| - 1].main) && t in c[|c| - 1].copied && t in c[|c| - 1].detached
  {
    var s := b[|b| - 1];
    AlwaysInv(b, |b| - 1);
    assert !Pending(s, t);
    assert Enlisted(s, t);
    c := CopyUndisturbed(b);
    c := DetachNow(c, t);
  }

  // Stop may take the lock again and copy before any worker moves.
  lemma CopyUndisturbed(b: seq<State>) returns (c: seq<State>)
    requires Behaviour(b) && b[|b| - 1].main.FlagSet?
    ensures Behaviour(c) && b <= c
    ensures var s, u := b[|b| - 1], c[|c| - 1];
      u.main == Waiting(0) && u.mutex == None && u.pcs == s.pcs && forall t :: t in s.registered ==> t in u.copied
  {
    var order := SetToSeq(b[|b| - 1].registered);
    c := Extend(b, MainStep([]));
    c := Extend(c, MainStep([]));
    c := Extend(c, MainStep(order));
    c := Extend(c, MainStep([]));
  }

  lemma DetachNow(b: seq<State>, t: nat) returns (c: seq<State>)
    requires Behaviour(b) && b[|b| - 1].mutex == None && t in b[|b| - 1].pcs
    requires b[|b| - 1].pcs[t].Decide? || b[|b| - 1].pcs[t].WantRespawn?
    ensures Behaviour(c) && b <= c && t in c[|c| - 1].detached
    ensures c[|c| - 1].main == b[|b| - 1].main && c[|c| - 1].copied == b[|b| - 1].copied
  {
    c := b;
    if c[|c| - 1].pcs[t].Decide? { c := Extend(c, WorkerStep(t, true)); }
    c := Extend(c, WorkerStep(t, true));
    c := Extend(c, WorkerStep(t, true));
  }

  ghost predicate NeverDetached(b: seq<State>) {
    forall i, t :: 0 <= i < |b| && HasCopied(b[i].main) && t in b[i].copied ==> t !in b[i].detached
  }

  lemma {:induction false} CopiedStays(b: seq<State>, i: nat, j: nat)
    requires Behaviour(b) && i <= j < |b| && HasCopied(b[i].main)
    ensures HasCopied(b[j].main)
    decreases j - i
  {
    if i < j {
      CopiedStays(b, i, j - 1);
      assert StepAt(b, j - 1);
    }
  }

  lemma CleanContinuation(b: seq<State>, c: seq<State>)
    requires Behaviour(b) && b[|b| - 1].main.FlagSet? && Window(b[|b| - 1]) == {}
    requires Behaviour(c) && b <= c
    ensures NeverDetached(c)
  {
    var j := |b| - 1;
    assert c[j] == b[j];
    forall i, t | 0 <= i < |c| && HasCopied(c[i].main) && t in c[i].copied ensures t !in c[i].detached {
      if i < j { CopiedStays(c, i, j); } else { CopiedSafe(c, j, i); }
    }
  }

  // The ids that stop copies are safe in every continuation exactly when the window is empty at
  // the moment the flag is set.
  lemma CleanStopIff(b: seq<State>)
    requires Behaviour(b) && b[|b| - 1].main.FlagSet?
    ensures (forall c: seq<State> :: Behaviour(c) && b <= c ==> NeverDetached(c)) <==> Window(b[|b| - 1]) == {}
  {
    var j := |b| - 1;
    if Window(b[j]) == {} {
      forall c: seq<State> | Behaviour(c) && b <= c ensures NeverDetached(c) { CleanContinuation(b, c); }
    } else {
      var t :| t in Window(b[j]);
      var c := WindowCanDetach(b, t);
      assert !NeverDetached(c);
    }
  }

  // ----- no deadlock -----

  ghost predicate Stuck(s: State) {
    forall a :: !Enabled(s, a)
  }

  ghost predicate AllGone(s: State) {
    forall t :: t in s.pcs ==> s.pcs[t].Gone?
  }

  lemma HolderCanMove(s: State)
    requires Inv(s) && s.mutex.Some?
    ensures !Stuck(s)
  {
    if s.mutex.value.Worker? {
      var t := s.mutex.value.id;
      assert s.mutex == Some(Worker(t));
      assert Enabled(s, WorkerStep(t, true));
    } else {
      var order := SetToSeq(s.registered);
      assert Enabled(s, MainStep(order));
    }
  }

  // Some step is possible until stop has returned and every thread is gone.
  lemma NoDeadlock(b: seq<State>, i: nat)
    requires Behaviour(b) && i < |b|
    ensures Stuck(b[i]) <==> b[i].main.Finished? && AllGone(b[i])
  {
    var s := b[i];
    AlwaysInv(b, i);
    if s.mutex.Some? {
      HolderCanMove(s);
    } else if t :| t in s.pcs && !s.pcs[t].Gone? {
      assert Enabled(s, WorkerStep(t, true));
    } else if !s.main.Finished? {
      assert Enabled(s, MainStep([]));
    }
  }

  // ----- stop returns -----

  function MainRank(m: MainPc): nat {
    match m
    case FlagSet => 10
    case CopyWant => 9
    case Copying => 8
    case Copied => 7
    case Waiting(i) => if i <= THREAD_COUNT then 1 + THREAD_COUNT - i else 1
    case _ => 0
  }

  ghost function RankSum(pcs: map<nat, Pc>, n: nat): nat
    requires forall t: nat :: t < n ==> t in pcs
  {
    if n == 0 then 0 else RankSum(pcs, n - 1) + Rank(pcs[n - 1])
  }

  lemma {:induction false} RankSumUpdate(pcs: map<nat, Pc>, n: nat, t: nat, pc: Pc)
    requires forall t: nat :: t < n ==> t in pcs
    ensures RankSum(pcs[t := pc], n) == RankSum(pcs, n) + if t < n then Rank(pc) - Rank(pcs[t]) else 0
  {
    if n > 0 { RankSumUpdate(pcs, n - 1, t, pc); }
  }

  ghost function Left(s: State): nat
    requires LockInv(s)
  {
    MainRank(s.main) + RankSum(s.pcs, s.next)
  }

  lemma MoveProgress(s: State, u: State, t: nat)
    requires LockInv(s) && LockInv(u) && s.flag && Moved(s, u, t)
    ensures Left(u) < Left(s)
  {
    RankSumUpdate(s.pcs, s.next, t, u.pcs[t]);
    if s.pcs[t].Creating? { RankSumUpdate(s.pcs[t := u.pcs[t]], s.next, s.next, Want(MakeContext)); }
  }

  lemma StepProgress(s: State, u: State)
    requires Inv(s) && Inv(u) && s.flag && Step(s, u)
    ensures u.flag && Left(u) < Left(s)
  {
    var a :| Enabled(s, a) && u == Apply(s, a);
    if a.WorkerStep? {
      WorkerMoves(s, a.id, a.respawn);
      MoveProgress(s, u, a.id);
    } else {
      MainKeepsThreads(s, a.order);
    }
  }

  lemma {:induction false} FewStepsAfterFlag(b: seq<State>, j: nat, k: nat)
    requires Behaviour(b) && j <= k < |b| && b[j].flag
    ensures LockInv(b[j]) && LockInv(b[k]) && b[k].flag && Left(b[k]) + (k - j) <= Left(b[j])
    decreases k - j
  {
    if j == k {
      AlwaysLock(b, j);
    } else {
      FewStepsAfterFlag(b, j, k - 1);
      NextProgress(b, k - 1);
    }
  }

  lemma AlwaysLock(b: seq<State>, i: nat)
    requires Behaviour(b) && i < |b|
    ensures LockInv(b[i])
  {
    AlwaysInv(b, i);
  }

  lemma NextProgress(b: seq<State>, k: nat)
    requires Behaviour(b) && k + 1 < |b| && b[k].flag
    ensures LockInv(b[k]) && LockInv(b[k + 1]) && b[k + 1].flag && Left(b[k + 1]) < Left(b[k])
  {
    AlwaysInv(b, k);
    AlwaysInv(b, k + 1);
    assert StepAt(b, k);
    StepProgress(b[k], b[k + 1]);
  }

  lemma LastProgress(b: seq<State>, a: Action) returns (c: seq<State>)
    requires Behaviour(b) && b[|b| - 1].flag && Enabled(b[|b| - 1], a)
    ensures Behaviour(c) && b <= c && c[|c| - 1] == Apply(b[|b| - 1], a) && c[|c| - 1].flag
    ensures LockInv(b[|b| - 1]) && LockInv(c[|c| - 1]) && Left(c[|c| - 1]) < Left(b[|b| - 1])
  {
    c := Extend(b, a);
    NextProgress(c, |b| - 1);
  }

  ghost predicate ClearUnlocked(s: State) { s.main == Waiting(THREAD_COUNT) && !AccessorAsserts(s) }

  // Short of the clear any step will do; at the clear the lock holder moves.
  lemma StepTowardsClear(b: seq<State>) returns (a: Action)
    requires Behaviour(b) && !b[|b| - 1].main.Finished? && !ClearUnlocked(b[|b| - 1])
    ensures Enabled(b[|b| - 1], a) && !Apply(b[|b| - 1], a).main.Finished?
  {
    var s := b[|b| - 1];
    AlwaysInv(b, |b| - 1);
    if s.main == Waiting(THREAD_COUNT) {
      assert s.mutex == Some(Worker(s.mutex.value.id));
      a := WorkerStep(s.mutex.value.id, true);
    } else {
      NoDeadlock(b, |b| - 1);
      a :| Enabled(s, a);
    }
  }

  lemma {:induction false} ReachesClear(b: seq<State>) returns (c: seq<State>)
    requires Behaviour(b) && b[|b| - 1].flag && !b[|b| - 1].main.Finished? && LockInv(b[|b| - 1])
    ensures Behaviour(c) && b <= c && ClearUnlocked(c[|c| - 1])
    decreases Left(b[|b| - 1])
  {
    if ClearUnlocked(b[|b| - 1]) { return b; }
    var a := StepTowardsClear(b);
    c := LastProgress(b, a);
    c := ReachesClear(c);
  }

  // How many steps the main thread is away from setting the flag.
  function ToFlag(m: MainPc): nat {
    match m
    case Idle => 14
    case StartWant => 13
    case Starting(i) => if i < THREAD_COUNT then 4 + 2 * (THREAD_COUNT - i) else 4
    case StartAdding(i, _) => if i < THREAD_COUNT then 3 + 2 * (THREAD_COUNT - i) else 5
    case Started => 3
    case StopWant => 2
    case SettingFlag => 1
    case _ => 0
  }

  // How many steps the worker with the lock is away from releasing it.
  function ToRelease(pc: Pc): nat {
    match pc
    case Detaching => 5
    case Removing => 4
    case Creating => 3
    case Adding(_) => 2
    case _ => 1
  }

  function HolderLeft(s: State): nat {
    if s.mutex.Some? && s.mutex.value.Worker? && s.mutex.value.id in s.pcs then ToRelease(s.pcs[s.mutex.value.id]) else 0
  }

  lemma HolderReleases(s: State, t: nat)
    requires LockInv(s) && s.mutex == Some(Worker(t))
    ensures WorkerEnabled(s, t) && WorkerMove(s, t, true).main == s.main && HolderLeft(WorkerMove(s, t, true)) < HolderLeft(s)
  {
  }

  lemma MainMovesOn(s: State)
    requires Inv(s) && !s.flag && (s.mutex == None || s.mutex == Some(Main))
    ensures MainEnabled(s, []) && ToFlag(MainMove(s, []).main) < ToFlag(s.main)
  {
  }

  // Every run can be continued until the flag is set.
  lemma {:induction false} FlagCanBeSet(b: seq<State>) returns (c: seq<State>)
    requires Behaviour(b) && !b[|b| - 1].main.Finished?
    ensures Behaviour(c) && b <= c && c[|c| - 1].flag && !c[|c| - 1].main.Finished?
    decreases ToFlag(b[|b| - 1].main), HolderLeft(b[|b| - 1])
  {
    var s := b[|b| - 1];
    AlwaysInv(b, |b| - 1);
    if s.flag { return b; }
    if s.mutex.Some? && s.mutex.value.Worker? {
      HolderReleases(s, s.mutex.value.id);
      c := Extend(b, WorkerStep(s.mutex.value.id, true));
    } else {
      MainMovesOn(s);
      c := Extend(b, MainStep([]));
    }
    c := FlagCanBeSet(c);
  }

  // Every run in which stop has not returned can reach the final clear with the mutex free, where
  // the accessor's assertion fails.
  lemma ClearCanFail(b: seq<State>) returns (c: seq<State>)
    requires Behaviour(b) && !b[|b| - 1].main.Finished?
    ensures Behaviour(c) && b <= c && c[|c| - 1].main == Waiting(THREAD_COUNT) && !AccessorAsserts(c[|c| - 1])
  {
    c := FlagCanBeSet(b);
    AlwaysLock(c, |c| - 1);
    c := ReachesClear(c);
  }

  // However the steps interleave, after the flag is set the program takes a bounded number of
  // them, and when none is left stop has returned and every thread is gone.
  lemma StopReturns(b: seq<State>, j: nat)
    requires Behaviour(b) && j < |b| && b[j].flag
    ensures LockInv(b[j]) && |b| - 1 - j <= Left(b[j])
    ensures Stuck(b[|b| - 1]) ==> b[|b| - 1].main.Finished? && AllGone(b[|b| - 1])
  {
    FewStepsAfterFlag(b, j, |b| - 1);
    NoDeadlock(b, |b| - 1);
  }
}
