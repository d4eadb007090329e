/** Idle expiry of a transaction owner (internal/mycli/idle_transaction.go). */
module IdleOwner {
  import opened TableIds

  // Quiet-interval timers with generations, result holds, deferred rearming and deadlines that
  // elapse under a hold; leaveStatement and the owner's install and retirement come from
  // transaction_manager.go. Every operation holds the manager's lock, so a run is a sequence of
  // operations in any order.

  /** A watcher of one deadline: whose, and for which generation. */
  datatype Timer = Timer(owner: nat, gen: nat, deadline: int)

  datatype Owner = Owner(
    id: nat, idle: int, userWork: bool, needsRearm: bool, elapsedHeld: bool,
    gen: nat, lastUser: int, armed: Option<Timer>, expirePending: bool, idleExpired: bool)

  /** `timers` are the watchers that may still wake up; `rolledBack` are the owners rolled
      back for idleness, oldest first. */
  datatype State = State(
    owner: Option<Owner>, depth: nat, hold: nat, now: int, timers: set<Timer>,
    notice: bool, rolledBack: seq<nat>, nextId: nat)

  datatype Op =
    | Tick(elapsed: nat)
    | Install(idle: int)           // a new owner with the captured interval
    | Retire                       // commit, rollback, detach
    | TimeOut                      // the separate transaction timeout fires
    | Sync                         // an expire-pending owner is retired at a barrier
    | SetLocal(idle: int)
    | Work                         // admitted user work completed on the owner
    | EnterStatement
    | LeaveStatement
    | BeginHold
    | EndHold
    | Fire(t: Timer)               // a watcher whose deadline passed takes the lock
    | ConsumeNotice

  const INIT := State(None, 0, 0, 0, {}, false, [], 0)

  predicate Blocked(s: State) {
    s.depth > 0 || s.hold > 0
  }

  // ---- The operations on values ----

  /** Cancelling stops a watcher unless its deadline has passed already. */
  function Cancel(s: State): State
    requires s.owner.Some?
  {
    var o := s.owner.value;
    match o.armed
    case None => s
    case Some(t) => s.(owner := Some(o.(armed := None)),
      timers := if s.now < t.deadline then s.timers - {t} else s.timers)
  }

  function Rearm(s: State): State
    requires s.owner.Some?
  {
    var c := Cancel(s);
    var o := c.owner.value;
    if o.idle <= 0 || !o.userWork then c
    else
      var t := Timer(o.id, o.gen + 1, s.now + o.idle);
      c.(owner := Some(o.(needsRearm := false, elapsedHeld := false, gen := o.gen + 1, armed := Some(t))),
        timers := c.timers + {t})
  }

  function RetireOwner(s: State): State {
    if s.owner.None? then s else Cancel(s).(owner := None)
  }

  function RollBack(s: State): State
    requires s.owner.Some?
  {
    RetireOwner(s).(notice := true, rolledBack := s.rolledBack + [s.owner.value.id])
  }

  function NoteWork(s: State): State {
    if s.owner.None? then s
    else
      var noted := s.(owner := Some(s.owner.value.(userWork := true, lastUser := s.now, elapsedHeld := false)));
      if Blocked(s) then
        var c := Cancel(noted);
        c.(owner := Some(c.owner.value.(needsRearm := c.owner.value.idle > 0)))
      else Rearm(noted)
  }

  function RearmOrExpire(s: State): State {
    if s.owner.None? || Blocked(s) then s
    else
      var o := s.owner.value;
      if o.needsRearm then
        if o.idle <= 0 || !o.userWork then
          Cancel(s.(owner := Some(o.(needsRearm := false, elapsedHeld := false))))
        else Rearm(s)
      else if o.elapsedHeld then RollBack(s)
      else s
  }

  /** Timer t is the current one of the live owner, and that owner can expire. */
  predicate Current(s: State, t: Timer) {
    s.owner.Some? && s.owner.value.id == t.owner && s.owner.value.gen == t.gen
    && s.owner.value.idle > 0 && s.owner.value.userWork
  }

  function TryExpire(s: State, t: Timer): State {
    if !Current(s, t) then s
    else if Blocked(s) then s.(owner := Some(s.owner.value.(elapsedHeld := true)))
    else RollBack(s)
  }

  function SetInterval(s: State, idle: int): State {
    if s.owner.None? || (s.owner.value.userWork && s.owner.value.idle != idle) then s
    else
      var set' := s.(owner := Some(s.owner.value.(idle := idle)));
      if s.owner.value.userWork then set' else Cancel(set')
  }

  /** retireIdleIfPendingLocked, or plain retirement. */
  function RetirePending(s: State): State {
    if s.owner.None? || !s.owner.value.expirePending then s
    else if s.owner.value.idleExpired then RollBack(s)
    else RetireOwner(s)
  }

  function Leave(s: State): State {
    var d := s.(depth := if s.depth > 0 then s.depth - 1 else 0);
    if d.depth == 0 && d.owner.Some? && d.owner.value.expirePending then RetirePending(d)
    else if d.depth == 0 then RearmOrExpire(d)
    else d
  }

  function TimeOutOwner(s: State): State {
    if s.owner.None? then s
    else if s.depth > 0 then Cancel(s.(owner := Some(s.owner.value.(expirePending := true))))
    else RetireOwner(s)
  }

  function InstallOwner(s: State, idle: int): State {
    s.(owner := Some(Owner(s.nextId, idle, false, false, false, 0, 0, None, false, false)), nextId := s.nextId + 1)
  }

  predicate Can(s: State, op: Op) {
    match op
    case Install(_) => s.owner.None?
    case Fire(t) => t in s.timers && t.deadline <= s.now
    case _ => true
  }

  function Do(s: State, op: Op): State {
    match op
    case Tick(elapsed) => s.(now := s.now + elapsed)
    case Install(idle) => InstallOwner(s, idle)
    case Retire => RetireOwner(s)
    case TimeOut => TimeOutOwner(s)
    case Sync => RetirePending(s)
    case SetLocal(idle) => SetInterval(s, idle)
    case Work => NoteWork(s)
    case EnterStatement => s.(depth := s.depth + 1)
    case LeaveStatement => Leave(s)
    case BeginHold => s.(hold := s.hold + 1)
    case EndHold => RearmOrExpire(s.(hold := if s.hold > 0 then s.hold - 1 else 0))
    case Fire(t) => TryExpire(s.(timers := s.timers - {t}), t)
    case ConsumeNotice => s.(notice := false)
  }

  // ---- Runs ----

  ghost predicate IsRun(states: seq<State>, ops: seq<Op>) {
    && |states| == |ops| + 1 && states[0] == INIT
    && forall i :: 0 <= i < |ops| ==> Can(states[i], ops[i]) && states[i + 1] == Do(states[i], ops[i])
  }

  predicate SameOwner(s: State, s': State) {
    s.owner.Some? && s'.owner.Some? && s.owner.value.id == s'.owner.value.id
  }

  /** The last admitted work on the owner that is live after n operations: its time. */
  ghost function LastWork(states: seq<State>, ops: seq<Op>, n: nat): Option<int>
    requires IsRun(states, ops) && n <= |ops|
  {
    if n == 0 || states[n].owner.None? then None
    else if ops[n - 1].Work? then Some(states[n - 1].now)
    else if SameOwner(states[n - 1], states[n]) then LastWork(states, ops, n - 1)
    else None
  }

  // ---- What every reachable state satisfies ----

  ghost predicate TimersKnown(s: State) {
    forall t :: t in s.timers ==> t.owner < s.nextId
  }

  predicate ArmedOk(o: Owner) {
    o.armed.Some? ==> o.armed.value.owner == o.id && o.armed.value.gen == o.gen && o.gen > 0
  }

  /** Timers exist only for owners that can expire, and never from a later generation. */
  ghost predicate TimersOf(s: State, o: Owner) {
    forall t :: t in s.timers && t.owner == o.id ==> 0 < t.gen <= o.gen && o.idle > 0 && o.userWork
  }

  /** A current timer, or a deadline that elapsed under a hold, is at least the interval after
      the last work, unless a rearm is due. */
  ghost predicate QuietEnough(s: State, o: Owner) {
    !o.needsRearm ==>
      && (o.elapsedHeld ==> o.lastUser + o.idle <= s.now)
      && (forall t :: t in s.timers && t.owner == o.id && t.gen == o.gen ==> o.lastUser + o.idle <= t.deadline)
  }

  ghost predicate OwnerInv(s: State, o: Owner) {
    && o.id < s.nextId && !o.idleExpired && o.lastUser <= s.now
    && (o.needsRearm || o.elapsedHeld ==> Blocked(s) && o.idle > 0 && o.userWork)
    && (o.expirePending ==> s.depth > 0)
    && (!o.userWork ==> o.gen == 0 && o.armed.None?)
    && ArmedOk(o) && TimersOf(s, o) && QuietEnough(s, o)
  }

  /** An owner with admitted work and an interval is always under watch: a current timer is
      pending, or a block is in force whose release will rearm or expire it. */
  ghost predicate Watched(s: State, o: Owner) {
    o.userWork && o.idle > 0 ==>
      || o.expirePending
      || (Blocked(s) && (o.needsRearm || o.elapsedHeld))
      || (o.armed.Some? && o.armed.value in s.timers)
  }

  ghost predicate Inv(s: State) {
    && TimersKnown(s) && s.now >= 0
    && (s.owner.Some? ==> OwnerInv(s, s.owner.value) && Watched(s, s.owner.value))
  }

  lemma InvRearm(s: State)
    requires s.owner.Some? && !Blocked(s) && TimersKnown(s) && s.now >= 0
    requires var o := s.owner.value;
      o.id < s.nextId && !o.idleExpired && !o.expirePending
      && (!o.userWork ==> !o.needsRearm && !o.elapsedHeld && o.gen == 0)
      && o.lastUser <= s.now && ArmedOk(o) && TimersOf(s, o) && (o.idle <= 0 ==> !o.needsRearm && !o.elapsedHeld)
    ensures Inv(Rearm(s))
  {
  }

  lemma InvNote(s: State)
    requires Inv(s)
    ensures Inv(NoteWork(s))
  {
    if s.owner.Some? && !Blocked(s) {
      hide Rearm;
      InvRearm(s.(owner := Some(s.owner.value.(userWork := true, lastUser := s.now, elapsedHeld := false))));
    }
  }

  lemma InvRetire(s: State)
    requires TimersKnown(s) && s.now >= 0
    ensures Inv(RetireOwner(s)) && (s.owner.Some? ==> Inv(RollBack(s)))
  {
  }

  /** A block was just released: what may still be pending is settled here. */
  lemma InvRelease(s: State, s': State)
    requires Inv(s)
    requires s' == s.(depth := s'.depth, hold := s'.hold)
    requires s.owner.Some? && s.owner.value.expirePending ==> s'.depth > 0
    ensures Inv(RearmOrExpire(s'))
  {
    hide Rearm;
    hide RollBack;
    if s.owner.Some? && !Blocked(s') {
      InvRetire(s');
      if s.owner.value.needsRearm {
        InvRearm(s');
      }
    }
  }

  lemma InvFire(s: State, t: Timer)
    requires Inv(s) && t in s.timers && t.deadline <= s.now
    ensures Inv(TryExpire(s.(timers := s.timers - {t}), t))
  {
    hide RollBack;
    InvRetire(s.(timers := s.timers - {t}));
  }

  /** Operations that do not settle an owner. */
  predicate IsPlain(op: Op) {
    op.Tick? || op.Install? || op.SetLocal? || op.EnterStatement? || op.BeginHold? || op.ConsumeNotice?
  }

  lemma InvPlain(s: State, op: Op)
    requires Inv(s) && Can(s, op) && IsPlain(op)
    ensures Inv(Do(s, op))
  {
    match op
    case Tick(_) =>
    case Install(_) =>
    case SetLocal(_) =>
    case EnterStatement =>
    case BeginHold =>
    case ConsumeNotice =>
  }

  lemma InvStep(s: State, op: Op)
    requires Inv(s) && Can(s, op)
    ensures Inv(Do(s, op))
  {
    hide RearmOrExpire;
    hide NoteWork;
    hide RollBack;
    hide TryExpire;
    match op
    case Work => InvNote(s);
    case Fire(t) => InvFire(s, t);
    case Retire => InvRetire(s);
    case Sync => InvRetire(s);
    case TimeOut => InvRetire(s);
    case EndHold =>
      InvRelease(s, s.(hold := if s.hold > 0 then s.hold - 1 else 0));
    case LeaveStatement =>
      var d := s.(depth := if s.depth > 0 then s.depth - 1 else 0);
      InvRetire(d);
      if !(d.depth == 0 && d.owner.Some? && d.owner.value.expirePending) {
        InvRelease(s, d);
      }
    case _ =>
      InvPlain(s, op);
  }

  lemma {:induction false} InvRun(states: seq<State>, ops: seq<Op>, n: nat)
    requires IsRun(states, ops) && n <= |ops|
    ensures Inv(states[n])
  {
    hide Inv;
    hide Do;
    if n == 0 {
      InitInv();
    } else {
      InvRun(states, ops, n - 1);
      InvStep(states[n - 1], ops[n - 1]);
    }
  }

  lemma InitInv()
    ensures Inv(INIT)
  {
  }

  /** `lastUser` is the time of the last admitted work on the live owner. */
  lemma {:induction false} LastUserIsLastWork(states: seq<State>, ops: seq<Op>, n: nat)
    requires IsRun(states, ops) && n <= |ops| && states[n].owner.Some?
    ensures states[n].owner.value.userWork <==> LastWork(states, ops, n).Some?
    ensures states[n].owner.value.userWork ==> LastWork(states, ops, n) == Some(states[n].owner.value.lastUser)
    decreases n
  {
    hide Do;
    hide Inv;
    hide Can;
    if n == 0 {
    } else {
      var s, op := states[n - 1], ops[n - 1];
      InvRun(states, ops, n - 1);
      StepKeepsWork(s, op);
      if SameOwner(s, states[n]) {
        LastUserIsLastWork(states, ops, n - 1);
      }
    }
  }

  /** Only work moves the clock of the last work; a new owner starts with none. */
  lemma StepKeepsWork(s: State, op: Op)
    requires Inv(s) && Can(s, op) && Do(s, op).owner.Some?
    ensures var o' := Do(s, op).owner.value;
      if op.Work? then o'.userWork && o'.lastUser == s.now
      else if SameOwner(s, Do(s, op)) then o'.userWork == s.owner.value.userWork
        && o'.lastUser == s.owner.value.lastUser
      else !o'.userWork
  {
  }

  // ---- Expiry is never early and never under a block ----

  predicate ExpiresNow(s: State, op: Op) {
    Do(s, op).rolledBack != s.rolledBack
  }

  lemma ExpiryStep(s: State, op: Op)
    requires Inv(s) && Can(s, op)
    ensures ExpiresNow(s, op) ==>
      && s.owner.Some? && s.owner.value.userWork && s.owner.value.idle > 0
      && Do(s, op).rolledBack == s.rolledBack + [s.owner.value.id] && Do(s, op).owner.None?
      && !Blocked(Do(s, op)) && s.owner.value.lastUser + s.owner.value.idle <= s.now
      && (op.Fire? || op.EndHold? || op.LeaveStatement?)
  {
    hide Watched;
    hide TimersOf;
  }

  /** In every run an owner is rolled back for idleness only when no statement and no result
      hold is left, at least its interval after the last admitted work on it. */
  lemma NeverEarly(states: seq<State>, ops: seq<Op>, n: nat)
    requires IsRun(states, ops) && n < |ops| && ExpiresNow(states[n], ops[n])
    ensures states[n].owner.Some? && states[n].owner.value.idle > 0 && !Blocked(states[n + 1])
    ensures LastWork(states, ops, n).Some?
    ensures LastWork(states, ops, n).value + states[n].owner.value.idle <= states[n].now
    ensures states[n + 1].rolledBack == states[n].rolledBack + [states[n].owner.value.id] && states[n + 1].owner.None?
  {
    hide Do;
    hide Inv;
    InvRun(states, ops, n);
    ExpiryStep(states[n], ops[n]);
    LastUserIsLastWork(states, ops, n);
  }

  // ---- Old timers are harmless for ever ----

  predicate Stale(s: State, t: Timer) {
    t.owner < s.nextId && (s.owner.Some? ==>
          s.owner.value.id < s.nextId
          && (s.owner.value.id == t.owner ==> t.gen < s.owner.value.gen))
  }

  lemma StaleStep(s: State, op: Op, t: Timer)
    requires Inv(s) && Can(s, op) && Stale(s, t)
    ensures Stale(Do(s, op), t)
    ensures op == Fire(t) ==> Do(s, op) == s.(timers := s.timers - {t})
  {
    hide Watched;
  }

  /** A timer of an older generation, or of an owner that is gone, changes nothing whenever it
      fires. */
  lemma {:induction false} StaleForever(states: seq<State>, ops: seq<Op>, i: nat, j: nat, t: Timer)
    requires IsRun(states, ops) && i <= j < |ops| && Stale(states[i], t) && ops[j] == Fire(t)
    ensures states[j + 1] == states[j].(timers := states[j].timers - {t})
  {
    hide Do;
    hide Inv;
    hide Can;
    hide Stale;
    StaleUntil(states, ops, i, j, t);
    InvRun(states, ops, j);
    StaleStep(states[j], ops[j], t);
  }

  lemma {:induction false} StaleUntil(states: seq<State>, ops: seq<Op>, i: nat, j: nat, t: Timer)
    requires IsRun(states, ops) && i <= j <= |ops| && Stale(states[i], t)
    ensures Stale(states[j], t)
    decreases j
  {
    hide Do;
    hide Inv;
    hide Can;
    hide Stale;
    if i < j {
      StaleUntil(states, ops, i, j - 1, t);
      InvRun(states, ops, j - 1);
      StaleStep(states[j - 1], ops[j - 1], t);
    }
  }

  /** t is outdated, or will be by the rearm that is due for its owner. */
  predicate Tamed(s: State, t: Timer) {
    || Stale(s, t)
    || (s.owner.Some? && s.owner.value.id == t.owner < s.nextId && s.owner.value.needsRearm
        && t.gen <= s.owner.value.gen)
  }

  /** The fired timer changes nothing, except that under a block with a rearm due the deadline is
      marked as elapsed; the rearm clears the mark. */
  predicate Harmless(s: State, s': State, t: Timer) {
    var gone := s.(timers := s.timers - {t});
    s' == gone || (Blocked(s) && s.owner.Some? && s.owner.value.needsRearm
                   && s' == gone.(owner := Some(s.owner.value.(elapsedHeld := true))))
  }

  /** While a rearm is due the owner keeps its generation; the rearm raises it. */
  lemma RearmDueStep(s: State, op: Op, t: Timer)
    requires Inv(s) && Can(s, op) && s.owner.Some? && s.owner.value.needsRearm && !op.Fire?
    requires t.owner == s.owner.value.id && t.gen <= s.owner.value.gen
    ensures Tamed(Do(s, op), t)
  {
    hide Watched; hide TimersOf; hide QuietEnough;
  }

  lemma RearmDueFire(s: State, t: Timer, fired: Timer)
    requires Inv(s) && fired in s.timers && s.owner.Some? && s.owner.value.needsRearm
    requires t.owner == s.owner.value.id && t.gen <= s.owner.value.gen
    ensures Tamed(Do(s, Fire(fired)), t) && Harmless(s, Do(s, Fire(fired)), fired)
  {
    hide Watched; hide TimersOf; hide QuietEnough; hide RollBack; hide RetireOwner;
  }

  lemma TamedStep(s: State, op: Op, t: Timer)
    requires Inv(s) && Can(s, op) && Tamed(s, t)
    ensures Tamed(Do(s, op), t)
    ensures op == Fire(t) ==> Harmless(s, Do(s, op), t)
  {
    if Stale(s, t) {
      StaleStep(s, op, t);
    } else if op.Fire? {
      RearmDueFire(s, t, op.t);
    } else {
      RearmDueStep(s, op, t);
    }
    hide Do; hide Can; hide Inv;
  }

  lemma {:induction false} TamedUntil(states: seq<State>, ops: seq<Op>, n: nat, j: nat, t: Timer)
    requires IsRun(states, ops) && n < j <= |ops| && ops[n] == Work && states[n].owner.Some? && t in states[n].timers
    ensures Tamed(states[j], t)
    decreases j
  {
    hide Do; hide Can; hide Inv; hide Tamed; hide Harmless;
    InvRun(states, ops, j - 1);
    if j == n + 1 {
      WorkStep(states[n], t);
    } else {
      TamedUntil(states, ops, n, j - 1, t);
      TamedStep(states[j - 1], ops[j - 1], t);
    }
  }

  lemma WorkStep(s: State, t: Timer)
    requires Inv(s) && s.owner.Some? && t in s.timers
    ensures Tamed(Do(s, Work), t)
  {
    hide Watched;
  }

  /** In every run, a timer that is pending when work is admitted never rolls anything back later,
      whether or not a block defers rearming: whenever it fires, it is harmless. */
  lemma WorkMakesStale(states: seq<State>, ops: seq<Op>, n: nat, j: nat, t: Timer)
    requires IsRun(states, ops) && n < j < |ops| && ops[n] == Work && states[n].owner.Some? && t in states[n].timers
    requires ops[j] == Fire(t)
    ensures Harmless(states[j], states[j + 1], t) && states[j + 1].rolledBack == states[j].rolledBack
  {
    hide Do; hide Can; hide Inv; hide Tamed;
    TamedUntil(states, ops, n, j, t);
    InvRun(states, ops, j);
    TamedStep(states[j], ops[j], t);
  }

  lemma ReleaseStep(s: State, op: Op, t: Timer)
    requires Inv(s) && Can(s, op) && s.owner.Some? && s.owner.value.needsRearm && t in s.timers
    requires SameOwner(s, Do(s, op)) && !Blocked(Do(s, op))
    ensures Stale(Do(s, op), t) && !Do(s, op).owner.value.elapsedHeld
  {
    hide Watched;
  }

  /** In every run, from the release that performs a due rearm on, a timer pending at that release
      changes nothing whenever it fires; a deadline that elapsed before is forgotten. */
  lemma ReleaseMakesStale(states: seq<State>, ops: seq<Op>, n: nat, j: nat, t: Timer)
    requires IsRun(states, ops) && n < j < |ops| && states[n].owner.Some? && states[n].owner.value.needsRearm
    requires t in states[n].timers && SameOwner(states[n], states[n + 1]) && !Blocked(states[n + 1])
    requires ops[j] == Fire(t)
    ensures !states[n + 1].owner.value.elapsedHeld && states[j + 1] == states[j].(timers := states[j].timers - {t})
  {
    hide Do; hide Can; hide Inv; hide Stale; hide Blocked;
    InvRun(states, ops, n);
    assert Can(states[n], ops[n]) && states[n + 1] == Do(states[n], ops[n]);
    ReleaseStep(states[n], ops[n], t);
    StaleForever(states, ops, n + 1, j, t);
  }

  lemma QuietStep(s: State, op: Op)
    requires Inv(s) && Can(s, op) && !op.Work? && !op.TimeOut? && SameOwner(s, Do(s, op)) && !s.owner.value.needsRearm
    ensures var o, s' := s.owner.value, Do(s, op);
      s'.owner.value.gen == o.gen && !s'.owner.value.needsRearm && s'.owner.value.armed == o.armed
      && (o.armed.Some? && o.armed.value in s.timers && op != Fire(o.armed.value) ==> o.armed.value in s'.timers)
  {
    hide Watched;
  }

  /** Statements and holds without admitted work neither move nor drop a running deadline. */
  lemma {:induction false} DeadlineKept(states: seq<State>, ops: seq<Op>, i: nat, j: nat)
    requires IsRun(states, ops) && i <= j <= |ops| && states[i].owner.Some? && !states[i].owner.value.needsRearm
    requires states[i].owner.value.armed.Some? && states[i].owner.value.armed.value in states[i].timers
    requires forall k :: i <= k < j ==>
          !ops[k].Work? && !ops[k].TimeOut?
          && ops[k] != Fire(states[i].owner.value.armed.value)
    requires forall k :: i <= k < j ==> SameOwner(states[k], states[k + 1])
    ensures var o := states[i].owner.value;
      states[j].owner.Some? && states[j].owner.value.gen == o.gen && !states[j].owner.value.needsRearm
      && states[j].owner.value.armed == o.armed && o.armed.value in states[j].timers
    decreases j
  {
    hide Do;
    hide Inv;
    hide Can;
    if i < j {
      DeadlineKept(states, ops, i, j - 1);
      InvRun(states, ops, j - 1);
      var k := j - 1;
      assert SameOwner(states[k], states[k + 1]) && states[k + 1] == Do(states[k], ops[k]);
      QuietStep(states[j - 1], ops[j - 1]);
    }
  }

  // ---- A deadline that elapses under a hold ----

  predicate HeldDeadline(s: State, id: nat) {
    s.owner.Some? && s.owner.value.id == id && s.owner.value.elapsedHeld && !s.owner.value.needsRearm
  }

  lemma HeldDeadlineStep(s: State, op: Op, id: nat)
    requires Inv(s) && Can(s, op) && HeldDeadline(s, id) && !op.Work?
    ensures var s' := Do(s, op);
      if s'.owner.Some? then HeldDeadline(s', id)
      else (op.EndHold? || (op.LeaveStatement? && !s.owner.value.expirePending) ==>
        s'.rolledBack == s.rolledBack + [id])
  {
    hide Watched;
    hide Rearm;
  }

  lemma HeldMeansBlocked(s: State, id: nat)
    requires Inv(s) && HeldDeadline(s, id)
    ensures Blocked(s)
  {
  }

  lemma FiredUnderHold(s: State, t: Timer)
    requires Current(s, t) && Blocked(s) && !s.owner.value.needsRearm
    ensures HeldDeadline(Do(s, Fire(t)), t.owner)
  {
  }

  /** Once the current deadline fired under a block and no rearm was due, the owner survives
      without new work only as long as the block lasts; release rolls it back. */
  lemma {:induction false} ElapsedUnderHold(states: seq<State>, ops: seq<Op>, i: nat, j: nat, t: Timer)
    requires IsRun(states, ops) && i < j <= |ops| && ops[i] == Fire(t)
    requires Current(states[i], t) && Blocked(states[i]) && !states[i].owner.value.needsRearm
    requires forall k :: i < k < j ==> !ops[k].Work?
    requires forall k :: i < k < j ==> states[k].owner.Some?
    ensures states[j].owner.Some? ==> Blocked(states[j]) && HeldDeadline(states[j], t.owner)
    ensures states[j].owner.None?
      && (ops[j - 1].EndHold? || (ops[j - 1].LeaveStatement? && !states[j - 1].owner.value.expirePending))
      ==> states[j].rolledBack == states[j - 1].rolledBack + [t.owner]
    decreases j
  {
    hide Do;
    hide Can;
    hide Inv;
    InvRun(states, ops, i);
    InvRun(states, ops, j);
    if j == i + 1 {
      FiredUnderHold(states[i], t);
    } else {
      ElapsedUnderHold(states, ops, i, j - 1, t);
      InvRun(states, ops, j - 1);
      HeldDeadlineStep(states[j - 1], ops[j - 1], t.owner);
    }
    if states[j].owner.Some? {
      HeldMeansBlocked(states[j], t.owner);
    }
  }

  /** No wake-up is lost: a live owner with admitted work and an interval has a pending current
      timer, or is blocked with a rearm or expiry due at release. */
  lemma AlwaysWatched(states: seq<State>, ops: seq<Op>, n: nat)
    requires IsRun(states, ops) && n <= |ops| && states[n].owner.Some?
    requires LastWork(states, ops, n).Some? && states[n].owner.value.idle > 0 && !states[n].owner.value.expirePending
    ensures var o := states[n].owner.value;
      (Blocked(states[n]) && (o.needsRearm || o.elapsedHeld))
      || (exists t :: t in states[n].timers && t.owner == o.id && t.gen == o.gen)
  {
    hide Do;
    InvRun(states, ops, n);
    LastUserIsLastWork(states, ops, n);
    var o := states[n].owner.value;
    if !(Blocked(states[n]) && (o.needsRearm || o.elapsedHeld)) {
      assert o.armed.value in states[n].timers;
    }
  }

  // ---- The deadline, read off the operations ----

  /** Work was admitted on the live owner under the block that is still in force. */
  ghost predicate WorkedBlocked(states: seq<State>, ops: seq<Op>, n: nat)
    requires IsRun(states, ops) && n <= |ops|
  {
    n > 0 && states[n].owner.Some? && Blocked(states[n])
    && (ops[n - 1].Work? || (SameOwner(states[n - 1], states[n]) && WorkedBlocked(states, ops, n - 1)))
  }

  /** When the live owner's quiet interval last began: at the last work admitted without a block, or at
      the end of the last block under which work was admitted, whichever came later. */
  ghost function QuietSince(states: seq<State>, ops: seq<Op>, n: nat): Option<int>
    requires IsRun(states, ops) && n <= |ops|
  {
    if n == 0 || states[n].owner.None? then None
    else if ops[n - 1].Work? && !Blocked(states[n - 1]) then Some(states[n - 1].now)
    else if !SameOwner(states[n - 1], states[n]) then None
    else if WorkedBlocked(states, ops, n - 1) && !Blocked(states[n]) then Some(states[n - 1].now)
    else QuietSince(states, ops, n - 1)
  }

  lemma DueStep(s: State, op: Op)
    requires Inv(s) && Can(s, op) && Do(s, op).owner.Some?
    ensures Do(s, op).owner.value.needsRearm <==>
            && Blocked(Do(s, op)) && Do(s, op).owner.value.idle > 0
            && (op.Work? || (SameOwner(s, Do(s, op)) && s.owner.value.needsRearm))
  {
    hide Watched; hide TimersOf; hide QuietEnough; hide ArmedOk;
  }

  lemma WorkedStep(s: State, op: Op)
    requires Inv(s) && Can(s, op) && SameOwner(s, Do(s, op))
    ensures (op.Work? || s.owner.value.userWork) <==> Do(s, op).owner.value.userWork
    ensures s.owner.value.userWork ==> Do(s, op).owner.value.idle == s.owner.value.idle
  {
    hide Watched; hide TimersOf; hide QuietEnough; hide ArmedOk;
  }

  /** A rearm is due exactly while the block lasts under which work was admitted on an owner with an
      interval. */
  lemma {:induction false} RearmDueExactly(states: seq<State>, ops: seq<Op>, n: nat)
    requires IsRun(states, ops) && n <= |ops| && states[n].owner.Some?
    ensures WorkedBlocked(states, ops, n) ==> states[n].owner.value.userWork
    ensures states[n].owner.value.needsRearm <==> WorkedBlocked(states, ops, n) && states[n].owner.value.idle > 0
  {
    hide Do; hide Can; hide Inv;
    if n > 0 {
      var s, op := states[n - 1], ops[n - 1];
      InvRun(states, ops, n - 1);
      assert Can(s, op) && states[n] == Do(s, op);
      DueStep(s, op);
      if SameOwner(s, states[n]) {
        RearmDueExactly(states, ops, n - 1);
        WorkedStep(s, op);
      }
      if op.Work? {
        WorkOwner(s, op);
      }
    }
  }

  lemma WorkOwner(s: State, op: Op)
    requires Can(s, op) && op.Work? && Do(s, op).owner.Some?
    ensures SameOwner(s, Do(s, op)) && Do(s, op).owner.value.userWork
    ensures Blocked(s) <==> Blocked(Do(s, op))
  {
  }

  /** Every current timer of the live owner ends one interval after `since`. */
  ghost predicate DeadlinesAre(s: State, since: Option<int>) {
    s.owner.Some? ==> forall t :: t in s.timers && t.owner == s.owner.value.id && t.gen == s.owner.value.gen ==>
      since.Some? && t.deadline == since.value + s.owner.value.idle
  }

  /** When the quiet interval begins after an operation. */
  function SinceAfter(s: State, op: Op, s': State, since: Option<int>): Option<int> {
    if op.Work? && !Blocked(s) then Some(s.now)
    else if !SameOwner(s, s') then None
    else if s.owner.value.needsRearm && !Blocked(s') then Some(s.now)
    else since
  }

  lemma WorkDeadline(s: State, since: Option<int>)
    requires Inv(s) && DeadlinesAre(s, since)
    ensures DeadlinesAre(Do(s, Work), SinceAfter(s, Work, Do(s, Work), since))
  {
    hide Watched; hide QuietEnough; hide RearmOrExpire; hide TryExpire;
  }

  lemma ReleaseDeadline(s: State, s': State, since: Option<int>)
    requires Inv(s) && DeadlinesAre(s, since) && s' == s.(depth := s'.depth, hold := s'.hold)
    requires s.owner.Some? && s.owner.value.expirePending ==> s'.depth > 0
    ensures DeadlinesAre(RearmOrExpire(s'),
      if !SameOwner(s, RearmOrExpire(s')) then None
      else if s.owner.value.needsRearm && !Blocked(s') then Some(s.now) else since)
  {
    hide Watched; hide QuietEnough; hide TryExpire; hide NoteWork;
  }

  lemma ReleaseKeepsBlock(s: State)
    ensures RearmOrExpire(s).depth == s.depth && RearmOrExpire(s).hold == s.hold
  {
  }

  lemma LeaveDeadline(s: State, since: Option<int>)
    requires Inv(s) && DeadlinesAre(s, since)
    ensures DeadlinesAre(Leave(s), SinceAfter(s, LeaveStatement, Leave(s), since))
  {
    var d := s.(depth := if s.depth > 0 then s.depth - 1 else 0);
    hide Watched; hide QuietEnough; hide TimersOf; hide ArmedOk; hide RearmOrExpire;
    if d.depth == 0 && !(d.owner.Some? && d.owner.value.expirePending) {
      ReleaseDeadline(s, d, since);
      ReleaseKeepsBlock(d);
    }
  }

  lemma FireDeadline(s: State, t: Timer, since: Option<int>)
    requires Inv(s) && DeadlinesAre(s, since) && t in s.timers
    ensures DeadlinesAre(Do(s, Fire(t)), SinceAfter(s, Fire(t), Do(s, Fire(t)), since))
  {
    hide Watched; hide QuietEnough; hide TimersOf; hide ArmedOk;
  }

  lemma PlainDeadline(s: State, op: Op, since: Option<int>)
    requires Inv(s) && Can(s, op) && DeadlinesAre(s, since)
    requires IsPlain(op) || op.Retire? || op.TimeOut? || op.Sync?
    ensures DeadlinesAre(Do(s, op), SinceAfter(s, op, Do(s, op), since))
  {
    hide Watched; hide QuietEnough; hide ArmedOk; hide RearmOrExpire; hide NoteWork; hide TryExpire; hide Rearm;
  }

  lemma DeadlineStep(s: State, op: Op, since: Option<int>)
    requires Inv(s) && Can(s, op) && DeadlinesAre(s, since)
    ensures DeadlinesAre(Do(s, op), SinceAfter(s, op, Do(s, op), since))
  {
    hide Inv; hide DeadlinesAre; hide RearmOrExpire; hide Leave; hide TryExpire; hide NoteWork;
    match op
    case Work => WorkDeadline(s, since);
    case Fire(t) => FireDeadline(s, t, since);
    case EndHold => EndHoldDeadline(s, since);
    case LeaveStatement => LeaveDeadline(s, since);
    case _ => PlainDeadline(s, op, since);
  }

  lemma EndHoldDeadline(s: State, since: Option<int>)
    requires Inv(s) && DeadlinesAre(s, since)
    ensures DeadlinesAre(Do(s, EndHold), SinceAfter(s, EndHold, Do(s, EndHold), since))
  {
    var d := s.(hold := if s.hold > 0 then s.hold - 1 else 0);
    PendingInside(s);
    hide RearmOrExpire; hide Inv; hide DeadlinesAre;
    ReleaseDeadline(s, d, since);
    ReleaseKeepsBlock(d);
  }

  /** In every run, every current timer of the live owner ends exactly one interval after its quiet
      interval last began. */
  lemma {:induction false} DeadlineExactly(states: seq<State>, ops: seq<Op>, n: nat)
    requires IsRun(states, ops) && n <= |ops|
    ensures DeadlinesAre(states[n], QuietSince(states, ops, n))
  {
    hide Do; hide Can; hide Inv; hide DeadlinesAre; hide Blocked;
    if n == 0 {
      NoDeadlines();
    } else {
      var s, op := states[n - 1], ops[n - 1];
      DeadlineExactly(states, ops, n - 1);
      InvRun(states, ops, n - 1);
      InvRun(states, ops, n);
      assert Can(s, op) && states[n] == Do(s, op);
      DeadlineStep(s, op, QuietSince(states, ops, n - 1));
      if s.owner.Some? {
        RearmDueExactly(states, ops, n - 1);
      }
      NoIntervalNoTimer(states[n]);
      if SameOwner(s, states[n]) && WorkedBlocked(states, ops, n - 1) {
        WorkedStep(s, op);
      }
      if states[n].owner.None? {
        NoOwnerNoDeadline(states[n]);
      }
    }
  }

  lemma NoDeadlines()
    ensures DeadlinesAre(INIT, None)
  {
  }

  lemma NoOwnerNoDeadline(s: State)
    requires s.owner.None?
    ensures forall since :: DeadlinesAre(s, since)
  {
  }

  lemma NoIntervalNoTimer(s: State)
    requires Inv(s)
    ensures s.owner.Some? && s.owner.value.idle <= 0 ==> forall since :: DeadlinesAre(s, since)
  {
  }

  /** Expiry is never late either: once an unblocked owner with admitted work has been quiet for its
      interval, a watcher can fire, and firing rolls the owner back. */
  lemma ExpiresOnTime(states: seq<State>, ops: seq<Op>, n: nat) returns (t: Timer)
    requires IsRun(states, ops) && n <= |ops| && states[n].owner.Some? && !Blocked(states[n])
    requires LastWork(states, ops, n).Some? && states[n].owner.value.idle > 0
    ensures QuietSince(states, ops, n).Some? && t in states[n].timers
    ensures t.deadline == QuietSince(states, ops, n).value + states[n].owner.value.idle
    ensures QuietSince(states, ops, n).value + states[n].owner.value.idle <= states[n].now ==>
      && Can(states[n], Fire(t)) && Do(states[n], Fire(t)).owner.None?
      && Do(states[n], Fire(t)).rolledBack == states[n].rolledBack + [states[n].owner.value.id]
  {
    InvRun(states, ops, n);
    LastUserIsLastWork(states, ops, n);
    DeadlineExactly(states, ops, n);
    hide IsRun; hide QuietSince; hide LastWork;
    t := states[n].owner.value.armed.value;
  }

  // ---- Counters and owners, read off the operations ----

  /** Statements running: entered and not yet left; leaving with none running changes nothing. */
  function Statements(ops: seq<Op>, n: nat): nat
    requires n <= |ops|
  {
    if n == 0 then 0
    else
      var before := Statements(ops, n - 1);
      match ops[n - 1]
      case EnterStatement => before + 1
      case LeaveStatement => if before > 0 then before - 1 else 0
      case _ => before
  }

  function Holds(ops: seq<Op>, n: nat): nat
    requires n <= |ops|
  {
    if n == 0 then 0
    else
      var before := Holds(ops, n - 1);
      match ops[n - 1]
      case BeginHold => before + 1
      case EndHold => if before > 0 then before - 1 else 0
      case _ => before
  }

  function Elapsed(ops: seq<Op>, n: nat): nat
    requires n <= |ops|
  {
    if n == 0 then 0 else Elapsed(ops, n - 1) + match ops[n - 1] { case Tick(elapsed) => elapsed case _ => 0 }
  }

  predicate SameCounters(s: State, s': State) {
    s'.depth == s.depth && s'.hold == s.hold && s'.now == s.now
  }

  lemma SettlingKeepsCounters(s: State)
    ensures SameCounters(s, RearmOrExpire(s)) && SameCounters(s, NoteWork(s))
  {
  }

  lemma RetiringKeepsCounters(s: State)
    ensures SameCounters(s, RetirePending(s)) && forall t :: SameCounters(s, TryExpire(s, t))
  {
  }

  lemma CounterStep(s: State, op: Op)
    ensures Do(s, op).depth == match op
            case EnterStatement => s.depth + 1
            case LeaveStatement => if s.depth > 0 then s.depth - 1 else 0
            case _ => s.depth
    ensures Do(s, op).hold == match op
            case BeginHold => s.hold + 1
            case EndHold => if s.hold > 0 then s.hold - 1 else 0
            case _ => s.hold
    ensures Do(s, op).now == s.now + match op { case Tick(elapsed) => elapsed case _ => 0 }
  {
    SettlingKeepsCounters(s);
    RetiringKeepsCounters(s);
    hide RearmOrExpire; hide NoteWork; hide RetirePending; hide TryExpire;
    match op
    case LeaveStatement =>
      var d := s.(depth := if s.depth > 0 then s.depth - 1 else 0);
      SettlingKeepsCounters(d);
      RetiringKeepsCounters(d);
    case EndHold =>
      SettlingKeepsCounters(s.(hold := if s.hold > 0 then s.hold - 1 else 0));
    case Fire(t) =>
      RetiringKeepsCounters(s.(timers := s.timers - {t}));
    case _ =>
  }

  /** In every run the block is in force exactly while a statement or a result hold is open, and the clock
      is what has elapsed. */
  lemma {:induction false} CountersExactly(states: seq<State>, ops: seq<Op>, n: nat)
    requires IsRun(states, ops) && n <= |ops|
    ensures Blocked(states[n]) <==> Statements(ops, n) > 0 || Holds(ops, n) > 0
    ensures states[n].depth == Statements(ops, n) && states[n].hold == Holds(ops, n) && states[n].now == Elapsed(ops, n)
  {
    hide Do; hide Can;
    if n > 0 {
      CountersExactly(states, ops, n - 1);
      assert states[n] == Do(states[n - 1], ops[n - 1]);
      CounterStep(states[n - 1], ops[n - 1]);
    }
  }

  /** In every run an owner appears only by being installed, new, with its interval and without work, and
      is gone after retirement. */
  lemma OwnerComesAndGoes(states: seq<State>, ops: seq<Op>, n: nat)
    requires IsRun(states, ops) && n < |ops|
    ensures states[n].owner.None? ==> (states[n + 1].owner.Some? <==> ops[n].Install?)
    ensures states[n].owner.Some? && states[n + 1].owner.Some? ==> SameOwner(states[n], states[n + 1])
    ensures ops[n].Install? ==>
      && states[n + 1].owner.Some? && states[n + 1].owner.value.idle == ops[n].idle
      && LastWork(states, ops, n + 1).None?
      && forall m :: 0 <= m <= n && states[m].owner.Some? ==> states[m].owner.value.id != states[n + 1].owner.value.id
    ensures ops[n].Retire? ==> states[n + 1].owner.None? && states[n + 1].rolledBack == states[n].rolledBack
    ensures ops[n].Sync? && states[n].owner.Some? ==> states[n + 1].owner.None? || !states[n].owner.value.expirePending
  {
    InvRun(states, ops, n);
    assert Can(states[n], ops[n]) && states[n + 1] == Do(states[n], ops[n]);
    OwnerStep(states[n], ops[n]);
    forall m | 0 <= m <= n && states[m].owner.Some? ensures states[m].owner.value.id < states[n].nextId {
      OlderId(states, ops, m, n);
    }
    hide Do; hide Inv;
    if ops[n].Install? {
      assert !SameOwner(states[n], states[n + 1]);
    }
  }

  lemma OwnerStep(s: State, op: Op)
    requires Inv(s) && Can(s, op)
    ensures var s' := Do(s, op);
      && (s.owner.None? ==> (s'.owner.Some? <==> op.Install?))
      && (s.owner.Some? && s'.owner.Some? ==> SameOwner(s, s'))
      && (op.Install? ==>
            s.owner.None? && s'.owner.Some? && s'.owner.value.idle == op.idle && s'.owner.value.id == s.nextId)
      && (op.Retire? ==> s'.owner.None? && s'.rolledBack == s.rolledBack)
      && (op.Sync? && s.owner.Some? ==> s'.owner.None? || !s.owner.value.expirePending)
      && s'.nextId >= s.nextId
  {
    hide Watched; hide TimersOf; hide QuietEnough; hide ArmedOk; hide TimersKnown;
  }

  lemma {:induction false} OlderId(states: seq<State>, ops: seq<Op>, m: nat, n: nat)
    requires IsRun(states, ops) && m <= n <= |ops| && states[m].owner.Some?
    ensures states[m].owner.value.id < states[n].nextId
    decreases n
  {
    hide Do; hide Can;
    InvRun(states, ops, m);
    if m < n {
      OlderId(states, ops, m, n - 1);
      InvRun(states, ops, n - 1);
      hide Inv;
      OwnerStep(states[n - 1], ops[n - 1]);
    }
  }

  // ---- Notices, timeouts and intervals ----

  lemma NoticeStep(s: State, op: Op)
    requires Inv(s) && Can(s, op)
    ensures Do(s, op).notice <==> ExpiresNow(s, op) || (s.notice && op != ConsumeNotice)
  {
    hide Watched; hide TimersOf; hide QuietEnough; hide ArmedOk;
    if s.owner.Some? {
      assert |s.rolledBack + [s.owner.value.id]| == |s.rolledBack| + 1;
    }
  }

  /** Operation m rolled an owner back, and none between it and n consumed the notice. */
  ghost predicate Unread(states: seq<State>, ops: seq<Op>, m: nat, n: nat)
    requires IsRun(states, ops) && m < n <= |ops|
  {
    ExpiresNow(states[m], ops[m]) && forall k :: m < k < n ==> ops[k] != ConsumeNotice
  }

  /** In every run a notice is pending exactly if an owner was rolled back for idleness and no notice
      was consumed since. */
  lemma {:induction false} NoticeExactly(states: seq<State>, ops: seq<Op>, n: nat)
    requires IsRun(states, ops) && n <= |ops|
    ensures states[n].notice <==> exists m :: 0 <= m < n && Unread(states, ops, m, n)
  {
    hide Do; hide Can; hide Inv; hide ExpiresNow;
    if n > 0 {
      NoticeExactly(states, ops, n - 1);
      InvRun(states, ops, n - 1);
      NoticeStep(states[n - 1], ops[n - 1]);
      forall m | 0 <= m < n - 1
        ensures Unread(states, ops, m, n) <==> Unread(states, ops, m, n - 1) && ops[n - 1] != ConsumeNotice
      {
      }
      assert Unread(states, ops, n - 1, n) <==> ExpiresNow(states[n - 1], ops[n - 1]);
      hide Unread; hide IsRun;
      if states[n].notice && !ExpiresNow(states[n - 1], ops[n - 1]) {
        var m :| 0 <= m < n - 1 && Unread(states, ops, m, n - 1);
        assert Unread(states, ops, m, n);
      }
    }
  }

  lemma PendingStep(s: State, op: Op, id: nat)
    requires Inv(s) && Can(s, op) && id < s.nextId
    requires s.owner.Some? && s.owner.value.id == id ==> s.owner.value.expirePending
    ensures var s' := Do(s, op);
      id < s'.nextId && (s'.owner.Some? && s'.owner.value.id == id ==> s'.owner.value.expirePending)
  {
    hide Watched; hide TimersOf; hide QuietEnough; hide ArmedOk; hide TimersKnown;
  }

  /** In every run an owner that timed out lives at most as long as the statement that was running, and
      is never rearmed into a longer life. */
  lemma {:induction false} TimedOutEnds(states: seq<State>, ops: seq<Op>, n: nat, j: nat)
    requires IsRun(states, ops) && n < j <= |ops| && ops[n] == TimeOut && states[n].owner.Some?
    ensures states[n].owner.value.id < states[j].nextId
    ensures states[j].owner.Some? && states[j].owner.value.id == states[n].owner.value.id ==>
      states[j].owner.value.expirePending && states[j].depth > 0
    decreases j
  {
    hide Can; hide Inv; hide Do;
    InvRun(states, ops, j - 1);
    InvRun(states, ops, j);
    if j == n + 1 {
      TimeOutStep(states[n]);
    } else {
      TimedOutEnds(states, ops, n, j - 1);
      PendingStep(states[j - 1], ops[j - 1], states[n].owner.value.id);
    }
    PendingInside(states[j]);
  }

  lemma TimeOutStep(s: State)
    requires Inv(s) && s.owner.Some?
    ensures var s' := Do(s, TimeOut);
      s.owner.value.id < s'.nextId && (s'.owner.Some? ==> s'.owner.value.expirePending)
  {
    hide Watched; hide TimersOf; hide QuietEnough; hide ArmedOk; hide TimersKnown;
  }

  lemma PendingInside(s: State)
    requires Inv(s)
    ensures s.owner.Some? && s.owner.value.expirePending ==> s.depth > 0
  {
  }

  /** In every run SET LOCAL takes effect exactly as long as no work was admitted. */
  lemma IntervalSet(states: seq<State>, ops: seq<Op>, n: nat, idle: int)
    requires IsRun(states, ops) && n < |ops| && ops[n] == SetLocal(idle) && states[n].owner.Some?
    ensures SameOwner(states[n], states[n + 1])
    ensures states[n + 1].owner.value.idle ==
            if LastWork(states, ops, n).None? then idle else states[n].owner.value.idle
  {
    LastUserIsLastWork(states, ops, n);
    assert Can(states[n], ops[n]) && states[n + 1] == Do(states[n], ops[n]);
    hide LastWork;
  }

  /** In every run the interval of an owner is frozen once work was admitted on it, however long it
      lives on. */
  lemma {:induction false} IntervalFrozen(states: seq<State>, ops: seq<Op>, i: nat, j: nat)
    requires IsRun(states, ops) && i <= j <= |ops| && LastWork(states, ops, i).Some?
    requires forall k :: i <= k < j ==> SameOwner(states[k], states[k + 1])
    ensures states[i].owner.Some? && states[j].owner.Some?
    ensures states[j].owner.value.userWork && states[j].owner.value.idle == states[i].owner.value.idle
    decreases j
  {
    hide Do; hide Can; hide Inv;
    InvRun(states, ops, i);
    if i == j {
      LastUserIsLastWork(states, ops, i);
    } else {
      IntervalFrozen(states, ops, i, j - 1);
      InvRun(states, ops, j - 1);
      assert SameOwner(states[j - 1], states[j]);
      WorkedStep(states[j - 1], ops[j - 1]);
    }
  }

  /** The deferred-rearm branch for an owner without interval or work, and idle retirement of an
      expire-pending owner, are never taken. */
  lemma DeadBranches(states: seq<State>, ops: seq<Op>, n: nat)
    requires IsRun(states, ops) && n <= |ops| && states[n].owner.Some?
    ensures var o := states[n].owner.value;
      !(o.needsRearm && (o.idle <= 0 || !o.userWork)) && !(o.expirePending && o.idleExpired)
  {
    hide Do;
    InvRun(states, ops, n);
  }
}
